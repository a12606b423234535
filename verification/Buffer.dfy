/** Buffers that are filled from the end backwards. */
module Buffer {
  import opened Bits

  /**
    `after` is `before` with exactly the bytes from `lo` to `hi` replaced by `bytes`.
   */
  ghost predicate Filled(before: Bytes, after: Bytes, lo: int, hi: int, bytes: Bytes) {
    0 <= lo <= hi <= |before| && |bytes| == hi - lo && after == before[..lo] + bytes + before[hi..]
  }

  lemma FilledNothing(before: Bytes, hi: int)
    requires 0 <= hi <= |before|
    ensures Filled(before, before, hi, hi, [])
  {
    assert before == before[..hi] + [] + before[hi..];
  }

  /** Writing directly in front of what was written before. */
  lemma FilledTwice(s0: Bytes, s1: Bytes, s2: Bytes, lo: int, mid: int, hi: int, front: Bytes, back: Bytes)
    requires Filled(s0, s1, mid, hi, back)
    requires Filled(s1, s2, lo, mid, front)
    ensures Filled(s0, s2, lo, hi, front + back)
  {
    assert s1[..lo] == s0[..lo];
    assert s1[mid..] == back + s0[hi..];
    assert s2 == s0[..lo] + (front + back) + s0[hi..];
  }
}
