/** What the two displaying scripts (catch-and-display.py and custom.py)
    share: the test on the key cv2.waitKey(1) returns after a frame was
    shown. */
module Window {
  /** cv2.waitKey(1) & 0xFF == ord('q'). Python's & with 0xFF on a
      negative key (no key pressed is -1) is the non-negative remainder
      modulo 256, which is what % computes here. */
  predicate QuitKey(key: int)
  {
    key % 0x100 == 'q' as int
  }

  /** The mask keeps the low byte only: a key code 256 above 'q' quits,
      and no key pressed (-1) does not. */
  lemma QuitKeyLowByte(key: int)
    ensures QuitKey(key) <==> QuitKey(key + 0x100)
    ensures !QuitKey(-1) && QuitKey('q' as int)
  {
  }
}
