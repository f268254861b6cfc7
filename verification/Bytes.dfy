/** Bytes, machine words and the size arithmetic that every other module shares. */
module Bytes {

  type byte = x: int | 0 <= x < 256

  const WORD_LIMIT: nat := 0x1_0000_0000

  /** A 32-bit word; signed integers and floats are carried by their bit pattern. */
  type word = x: int | 0 <= x < 0x1_0000_0000

  datatype Option<+T> = None | Some(value: T)

  predicate Aligned(n: nat) {
    n % 8 == 0
  }

  lemma AlignedSum(a: nat, b: nat)
    requires Aligned(a) && Aligned(b)
    ensures Aligned(a + b)
    ensures a <= b ==> Aligned(b - a)
    ensures a < b ==> a + 8 <= b
  {
  }

  /** Rounds up to the next multiple of 8: the padding of ring elements and of LV2 atoms. */
  function Pad8(n: nat): (r: nat)
    ensures Aligned(r) && n <= r < n + 8
  {
    (n + 7) / 8 * 8
  }

  /** Rounds up to the next multiple of 4: the padding of OSC. */
  function Pad4(n: nat): (r: nat)
    ensures r % 4 == 0 && n <= r < n + 4
  {
    (n + 3) / 4 * 4
  }

  // ---- byte order ----

  function Be32(v: word): (s: seq<byte>)
    ensures |s| == 4
  {
    var q := v / 256;
    var p := q / 256;
    [p / 256, p % 256, q % 256, v % 256]
  }

  function FromBe32(s: seq<byte>): (v: word)
    requires |s| == 4
  {
    var q: int := 256 * (s[0] as int) + s[1];
    var p: int := 256 * q + s[2];
    256 * p + s[3]
  }

  function Le32(v: word): (s: seq<byte>)
    ensures |s| == 4
  {
    var q := v / 256;
    var p := q / 256;
    [v % 256, q % 256, p % 256, p / 256]
  }

  function FromLe32(s: seq<byte>): (v: word)
    requires |s| == 4
  {
    var q: int := 256 * (s[3] as int) + s[2];
    var p: int := 256 * q + s[1];
    256 * p + s[0]
  }

  /** The most significant byte first: network byte order. */
  lemma Be32Bytes(v: word)
    ensures Be32(v)[0] == v / 0x100_0000 && Be32(v)[1] == v / 0x1_0000 % 256
    ensures Be32(v)[2] == v / 0x100 % 256 && Be32(v)[3] == v % 256
  {
  }

  /** The least significant byte first. */
  lemma Le32Bytes(v: word)
    ensures Le32(v)[3] == v / 0x100_0000 && Le32(v)[2] == v / 0x1_0000 % 256
    ensures Le32(v)[1] == v / 0x100 % 256 && Le32(v)[0] == v % 256
  {
  }

  lemma FromBe32Sum(s: seq<byte>)
    requires |s| == 4
    ensures FromBe32(s) == s[0] as int * 0x100_0000 + s[1] as int * 0x1_0000 + s[2] as int * 0x100 + s[3]
  {
  }

  lemma FromLe32Sum(s: seq<byte>)
    requires |s| == 4
    ensures FromLe32(s) == s[3] as int * 0x100_0000 + s[2] as int * 0x1_0000 + s[1] as int * 0x100 + s[0]
  {
  }

  lemma LastDigit(q: nat, b: byte)
    ensures (256 * q + b) / 256 == q && (256 * q + b) % 256 == b
  {
  }

  lemma Be32RoundTrip(v: word)
    ensures FromBe32(Be32(v)) == v
  {
  }

  lemma Le32RoundTrip(v: word)
    ensures FromLe32(Le32(v)) == v
  {
  }
}
