/** catch-and-display.py: the buffered table's receive loop, decoding every
    completed frame as a JPEG and showing it in a window. A frame that does
    not decode is reported and dropped; pressing 'q' while a frame is on
    screen ends the script. */
module CatchAndDisplay {
  import opened Wire
  import opened FrameTable
  import opened Window

  /** What the script does with one completed frame: shows it, or reports
      that it failed to decode. */
  datatype View = Shown(jpeg: Bytes) | Undecodable

  /** The viewer after a sequence of completed frames: what it did with
      each, whether 'q' ended the script, and how many frames it showed
      (the number of cv2.waitKey calls so far). */
  datatype Screen = Screen(views: seq<View>, quit: bool, shown: nat)

  function ViewOf(jpeg: Bytes, decodes: Bytes -> bool): (v: View)
  {
    if decodes(jpeg) then Shown(jpeg) else Undecodable
  }

  /** The number of frames shown among some views. */
  function ShownCount(views: seq<View>): (n: nat)
    ensures n <= |views|
  {
    if views == [] then 0
    else ShownCount(views[..|views| - 1]) + (if views[|views| - 1].Shown? then 1 else 0)
  }

  /** The viewer fed the completed frames in order. `decodes` says whether
      cv2.imdecode returns an image for some bytes; `keyAfter(n)` is what
      cv2.waitKey(1) returns after the n-th shown frame (counting from 0).
      Once 'q' is seen nothing further is viewed. */
  function Display(jpegs: seq<Bytes>, decodes: Bytes -> bool, keyAfter: nat -> int): (s: Screen)
    decreases |jpegs|
  {
    if jpegs == [] then Screen([], false, 0)
    else
      var d := Display(jpegs[..|jpegs| - 1], decodes, keyAfter);
      var jpeg := jpegs[|jpegs| - 1];
      if d.quit then d
      else if decodes(jpeg) then Screen(d.views + [Shown(jpeg)], QuitKey(keyAfter(d.shown)), d.shown + 1)
      else Screen(d.views + [Undecodable], false, d.shown)
  }

  /** Each completed frame, in completion order, is shown exactly when it
      decodes; every completed frame is viewed unless 'q' ended the script. */
  lemma {:induction false} DisplayViews(jpegs: seq<Bytes>, decodes: Bytes -> bool, keyAfter: nat -> int)
    ensures var d := Display(jpegs, decodes, keyAfter);
      && |d.views| <= |jpegs|
      && (!d.quit ==> |d.views| == |jpegs|)
      && (forall i | 0 <= i < |d.views| :: d.views[i] == ViewOf(jpegs[i], decodes))
    decreases |jpegs|
  {
    if jpegs != [] {
      var front := jpegs[..|jpegs| - 1];
      DisplayViews(front, decodes, keyAfter);
      var d0 := Display(front, decodes, keyAfter);
      if !d0.quit {
        assert Display(jpegs, decodes, keyAfter).views == d0.views + [ViewOf(jpegs[|jpegs| - 1], decodes)];
      }
    }
  }

  /** The counter of shown frames counts the Shown views, and the script
      quits only right after showing a frame whose waitKey read 'q'. */
  lemma {:induction false} DisplayQuits(jpegs: seq<Bytes>, decodes: Bytes -> bool, keyAfter: nat -> int)
    ensures var d := Display(jpegs, decodes, keyAfter);
      && d.shown == ShownCount(d.views)
      && (d.quit ==> |d.views| >= 1 && d.views[|d.views| - 1].Shown? && d.shown >= 1 && QuitKey(keyAfter(d.shown - 1)))
    decreases |jpegs|
  {
    if jpegs != [] {
      var front := jpegs[..|jpegs| - 1];
      DisplayQuits(front, decodes, keyAfter);
      var d0 := Display(front, decodes, keyAfter);
      if !d0.quit {
        var d := Display(jpegs, decodes, keyAfter);
        assert d.views[..|d.views| - 1] == d0.views;
      }
    }
  }

  /** No frame before the one on which the script quits read 'q': the
      script stops at the first one. */
  lemma {:induction false} DisplayFirstQuit(jpegs: seq<Bytes>, decodes: Bytes -> bool, keyAfter: nat -> int)
    ensures var d := Display(jpegs, decodes, keyAfter);
      forall i | 0 <= i < |d.views| && d.views[i].Shown? && (i < |d.views| - 1 || !d.quit) ::
        !QuitKey(keyAfter(ShownCount(d.views[..i])))
    decreases |jpegs|
  {
    if jpegs != [] {
      var front := jpegs[..|jpegs| - 1];
      DisplayFirstQuit(front, decodes, keyAfter);
      DisplayQuits(front, decodes, keyAfter);
      var d0 := Display(front, decodes, keyAfter);
      if !d0.quit {
        var d := Display(jpegs, decodes, keyAfter);
        var n := |d0.views|;
        assert d.views[..n] == d0.views;
        forall i | 0 <= i < n ensures d.views[..i] == d0.views[..i] && d.views[i] == d0.views[i] {
        }
      }
    }
  }

  /** Frames completed after 'q' was pressed change nothing. */
  lemma {:induction false} DisplayAfterQuit(jpegs: seq<Bytes>, later: seq<Bytes>, decodes: Bytes -> bool, keyAfter: nat -> int)
    requires Display(jpegs, decodes, keyAfter).quit
    ensures Display(jpegs + later, decodes, keyAfter) == Display(jpegs, decodes, keyAfter)
    decreases |later|
  {
    if later != [] {
      var all := jpegs + later;
      assert all[..|all| - 1] == jpegs + later[..|later| - 1];
      DisplayAfterQuit(jpegs, later[..|later| - 1], decodes, keyAfter);
    } else {
      assert jpegs + later == jpegs;
    }
  }

  /** One more completed frame, before 'q'. */
  lemma DisplayNext(jpegs: seq<Bytes>, jpeg: Bytes, decodes: Bytes -> bool, keyAfter: nat -> int)
    requires !Display(jpegs, decodes, keyAfter).quit
    ensures var d := Display(jpegs, decodes, keyAfter);
      Display(jpegs + [jpeg], decodes, keyAfter) ==
        if decodes(jpeg) then Screen(d.views + [Shown(jpeg)], QuitKey(keyAfter(d.shown)), d.shown + 1)
        else Screen(d.views + [Undecodable], false, d.shown)
  {
    assert (jpegs + [jpeg])[..|jpegs|] == jpegs;
  }

  /** A quit after a chain of iterations and one more that viewed a frame:
      whatever the rest of the run would have completed is never viewed. */
  lemma QuitEndsRun(states: seq<Frames>, events: seq<Event>, outs: seq<seq<Bytes>>, h: Handled,
                    decodes: Bytes -> bool, keyAfter: nat -> int)
    requires Chained(states, events, outs) && |outs| < |events|
    requires h == Handle(states[|outs|], events[|outs|]) && !h.stop
    requires Display(Flatten(outs) + h.completed, decodes, keyAfter).quit
    ensures Display(Replay(states[0], events).completed, decodes, keyAfter) ==
      Display(Flatten(outs) + h.completed, decodes, keyAfter)
  {
    var k := |outs|;
    ChainExtend(states, events, outs, h);
    FlattenAppend(outs, h.completed);
    ReplayChainPrefix(states + [h.frames], events, outs + [h.completed]);
    DisplayAfterQuit(Flatten(outs + [h.completed]), Replay(h.frames, events[k + 1..]).completed, decodes, keyAfter);
  }

  /** The while-True loop over the socket's events. Each completed frame is
      decoded and shown, or reported as undecodable, and its record is
      dropped either way; 'q' after a shown frame ends the script, and so
      does a failed join. */
  method Run(events: seq<Event>, decodes: Bytes -> bool, keyAfter: nat -> int)
      returns (views: seq<View>, quit: bool, crashed: bool)
    ensures var t := Replay(map[], events);
      var d := Display(t.completed, decodes, keyAfter);
      views == d.views && quit == d.quit && crashed == (t.crashed && !d.quit)
  {
    var table := new Table();
    var shown: nat := 0;
    views := [];
    ghost var states: seq<Frames> := [map[]];
    ghost var outs: seq<seq<Bytes>> := [];
    var k := 0;
    while k < |events|
      invariant k == |outs| <= |events|
      invariant Chained(states, events, outs) && states[0] == map[] && states[k] == table.frames
      invariant Display(Flatten(outs), decodes, keyAfter) == Screen(views, false, shown)
    {
      ghost var before := table.frames;
      ghost var h: Handled;
      match events[k] {
        case TimedOut(now) =>
          table.Sweep(now);
          h := Handled(table.frames, [], false);
        case Arrived(packet, now) =>
          var r := table.Ingest(packet, now);
          HandleArrived(before, packet, now, Step(table.frames, r));
          h := Handled(table.frames, if r.Completed? then [r.data] else [], r.MissingChunk?);
          if r.MissingChunk? {
            ReplayChainStop(states, events, outs, h);
            assert Flatten(outs) + h.completed == Flatten(outs);
            return views, false, true;
          }
          if r.Completed? {
            DisplayNext(Flatten(outs), r.data, decodes, keyAfter);
            if decodes(r.data) {
              views := views + [Shown(r.data)];
              var key := keyAfter(shown);
              shown := shown + 1;
              if QuitKey(key) {
                QuitEndsRun(states, events, outs, h, decodes, keyAfter);
                return views, true, false;
              }
            } else {
              views := views + [Undecodable];
            }
          }
      }
      assert h.completed == [] ==> Flatten(outs) + h.completed == Flatten(outs);
      assert Display(Flatten(outs) + h.completed, decodes, keyAfter) == Screen(views, false, shown);
      ChainExtend(states, events, outs, h);
      FlattenAppend(outs, h.completed);
      states, outs := states + [h.frames], outs + [h.completed];
      k := k + 1;
    }
    ReplayChain(states, events, outs);
    quit, crashed := false, false;
  }
}
