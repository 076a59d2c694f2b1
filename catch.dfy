/** catch.py: the buffered table's receive loop, writing every completed
    frame to a file named frame_NNNNN.jpg after a counter that starts at 0. */
module Catch {
  import opened Wire
  import opened FrameTable

  /** A file the script writes: its name and its bytes. */
  datatype File = File(name: string, data: Bytes)

  function DigitChar(d: nat): (c: char)
    requires d < 10
  {
    ('0' as int + d) as char
  }

  /** str(n) for a non-negative int. */
  function Decimal(n: nat): (s: string)
    ensures |s| >= 1
    ensures forall k | 0 <= k < |s| :: '0' <= s[k] <= '9'
  {
    if n < 10 then [DigitChar(n)] else Decimal(n / 10) + [DigitChar(n % 10)]
  }

  function ZeroDigits(count: nat): (s: string)
  {
    seq(count, _ => '0')
  }

  /** format(s, '05') for a string of digits: left-padded with '0' to at
      least five characters. */
  function ZeroPadded(s: string, width: nat): (r: string)
  {
    if |s| >= width then s else ZeroDigits(width - |s|) + s
  }

  /** f"frame_{frame_counter:05}.jpg" */
  function FrameName(counter: nat): (name: string)
  {
    "frame_" + ZeroPadded(Decimal(counter), 5) + ".jpg"
  }

  function DigitValue(c: char): (d: nat)
  {
    if '0' <= c <= '9' then c as int - '0' as int else 0
  }

  /** The number a string of decimal digits denotes. */
  function ValueOf(s: string): (n: nat)
  {
    if s == [] then 0 else 10 * ValueOf(s[..|s| - 1]) + DigitValue(s[|s| - 1])
  }

  lemma {:induction false} ValueOfDecimal(n: nat)
    ensures ValueOf(Decimal(n)) == n
  {
    var s := Decimal(n);
    if n >= 10 {
      ValueOfDecimal(n / 10);
      assert s[..|s| - 1] == Decimal(n / 10);
    }
  }

  lemma {:induction false} ValueOfZeroDigits(count: nat)
    ensures ValueOf(ZeroDigits(count)) == 0
  {
    if count > 0 {
      assert ZeroDigits(count)[..count - 1] == ZeroDigits(count - 1);
      ValueOfZeroDigits(count - 1);
    }
  }

  /** Leading zeros do not change the value. */
  lemma {:induction false} ValueOfPadded(count: nat, s: string)
    ensures ValueOf(ZeroDigits(count) + s) == ValueOf(s)
    decreases |s|
  {
    if s == [] {
      assert ZeroDigits(count) + s == ZeroDigits(count);
      ValueOfZeroDigits(count);
    } else {
      var t := ZeroDigits(count) + s;
      assert t[..|t| - 1] == ZeroDigits(count) + s[..|s| - 1];
      ValueOfPadded(count, s[..|s| - 1]);
    }
  }

  /** Distinct counter values give distinct file names, so no completed
      frame overwrites the file of an earlier one. */
  lemma FrameNameInjective(a: nat, b: nat)
    requires FrameName(a) == FrameName(b)
    ensures a == b
  {
    var pa, pb := ZeroPadded(Decimal(a), 5), ZeroPadded(Decimal(b), 5);
    assert pa == FrameName(a)[6..|FrameName(a)| - 4];
    assert pb == FrameName(b)[6..|FrameName(b)| - 4];
    if |Decimal(a)| < 5 {
      ValueOfPadded(5 - |Decimal(a)|, Decimal(a));
    }
    if |Decimal(b)| < 5 {
      ValueOfPadded(5 - |Decimal(b)|, Decimal(b));
    }
    ValueOfDecimal(a);
    ValueOfDecimal(b);
  }

  /** The while-True loop over the socket's events (a datagram, or a
      timeout that triggers the sweep). Each completed frame is written
      under the next counter value; a failed join stops the script. */
  method Run(events: seq<Event>) returns (files: seq<File>, crashed: bool)
    ensures crashed == Replay(map[], events).crashed
    ensures Saved(files, Replay(map[], events).completed)
    ensures forall i, j | 0 <= i < j < |files| :: files[i].name != files[j].name
  {
    var table := new Table();
    var frameCounter: nat := 0;
    files := [];
    ghost var states: seq<Frames> := [map[]];
    ghost var outs: seq<seq<Bytes>> := [];
    var k := 0;
    while k < |events|
      invariant k == |outs| <= |events|
      invariant Chained(states, events, outs) && states[0] == map[] && states[k] == table.frames
      invariant frameCounter == |files| && Saved(files, Flatten(outs))
    {
      ghost var before := table.frames;
      ghost var h: Handled;
      match events[k] {
        case TimedOut(now) =>
          table.Sweep(now);
          h := Handled(table.frames, [], false);
          assert Flatten(outs) + h.completed == Flatten(outs);
        case Arrived(packet, now) =>
          var r := table.Ingest(packet, now);
          HandleArrived(before, packet, now, Step(table.frames, r));
          h := Handled(table.frames, if r.Completed? then [r.data] else [], r.MissingChunk?);
          if r.MissingChunk? {
            ReplayChainStop(states, events, outs, h);
            NamesDistinct(files);
            return files, true;
          }
          if r.Completed? {
            SavedNext(files, Flatten(outs), r.data);
            files := files + [File(FrameName(frameCounter), r.data)];
            frameCounter := frameCounter + 1;
          } else {
            assert Flatten(outs) + h.completed == Flatten(outs);
          }
      }
      ChainExtend(states, events, outs, h);
      FlattenAppend(outs, h.completed);
      states, outs := states + [h.frames], outs + [h.completed];
      k := k + 1;
    }
    ReplayChain(states, events, outs);
    crashed := false;
    NamesDistinct(files);
  }

  /** The files written for some completed frames: one per frame, in
      completion order, the k-th named after counter value k and holding
      the k-th frame's bytes. */
  predicate Saved(files: seq<File>, completed: seq<Bytes>)
  {
    && |files| == |completed|
    && forall k | 0 <= k < |files| :: files[k] == File(FrameName(k), completed[k])
  }

  lemma SavedNext(files: seq<File>, completed: seq<Bytes>, data: Bytes)
    requires Saved(files, completed)
    ensures Saved(files + [File(FrameName(|files|), data)], completed + [data])
  {
  }

  /** Files named after consecutive counter values have pairwise distinct names. */
  lemma NamesDistinct(files: seq<File>)
    requires forall k | 0 <= k < |files| :: files[k].name == FrameName(k)
    ensures forall i, j | 0 <= i < j < |files| :: files[i].name != files[j].name
  {
    forall i, j | 0 <= i < j < |files| ensures files[i].name != files[j].name {
      if files[i].name == files[j].name {
        FrameNameInjective(i, j);
      }
    }
  }
}
