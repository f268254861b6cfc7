/** Overwriting a stretch of a buffer. */
module Splice {
  function Over<T>(s: seq<T>, off: nat, data: seq<T>): (r: seq<T>)
    requires off + |data| <= |s|
    ensures |r| == |s|
  {
    s[..off] + data + s[off + |data|..]
  }

  lemma OverAt<T>(s: seq<T>, off: nat, data: seq<T>, i: nat)
    requires off + |data| <= |s| && i < |s|
    ensures Over(s, off, data)[i] == if off <= i < off + |data| then data[i - off] else s[i]
  {
  }

  lemma OverParts<T>(s: seq<T>, off: nat, data: seq<T>)
    requires off + |data| <= |s|
    ensures Over(s, off, data)[..off] == s[..off]
    ensures Over(s, off, data)[off..off + |data|] == data
    ensures Over(s, off, data)[off + |data|..] == s[off + |data|..]
  {
  }

  /** Two neighbouring stretches, written from left to right or from right to left. */
  lemma OverThen<T>(s: seq<T>, off: nat, x: seq<T>, y: seq<T>)
    requires off + |x| + |y| <= |s|
    ensures Over(Over(s, off, x), off + |x|, y) == Over(s, off, x + y)
    ensures Over(Over(s, off + |x|, y), off, x) == Over(s, off, x + y)
  {
  }

  lemma OverNothing<T>(s: seq<T>, off: nat)
    requires off <= |s|
    ensures Over(s, off, []) == s
  {
  }

  lemma SliceOfSlice<T>(m: seq<T>, q: nat, r: nat, i: nat, j: nat)
    requires i <= j && q + j <= r <= |m|
    ensures m[q..r][i..j] == m[q + i..q + j]
  {
    forall k | 0 <= k < j - i ensures m[q..r][i..j][k] == m[q + i..q + j][k] {
      assert m[q..r][i + k] == m[q + i + k];
    }
  }
}
