/** The 7-bit code position by position: where every byte and every upper bit lies. */
module CloakCode {
  import opened Cloak

  /** Bit j of a byte. */
  function Bit(j: nat): octet
    requires j < 8
  {
    if j == 0 then 0x01 else if j == 1 then 0x02 else if j == 2 then 0x04 else if j == 3 then 0x08
    else if j == 4 then 0x10 else if j == 5 then 0x20 else if j == 6 then 0x40 else 0x80
  }

  lemma BitShifted(x: octet, j: nat)
    requires j < 7
    ensures Shl(x, 7 - j) & 0x80 == if x & Bit(j) != 0 then 0x80 else 0
  {
  }

  /** Where the code of byte i starts behind the code of the bytes before k, header included. */
  function Place(k: nat, i: nat): int {
    (i - k) + (i / 7 + 1) - (k + 6) / 7
  }

  lemma PlaceNext(k: nat, i: nat)
    requires k < i
    ensures Place(k, i) == Place(k + 1, i) + if k % 7 == 0 then 2 else 1
  {
  }

  lemma PlaceSelf(k: nat)
    ensures Place(k, k) == if k % 7 == 0 then 1 else 0
  {
  }

  lemma {:induction false} BodyAt(s: seq<octet>, k: nat, i: nat)
    requires k <= i < |s|
    ensures 0 <= Place(k, i) < |Body(s, k)| && Body(s, k)[Place(k, i)] == s[i] & 0x7f
    decreases i - k
  {
    hide Upper, Acc, Body, Place;
    BodyStep(s, k);
    PlaceSelf(k);
    if k < i {
      PlaceNext(k, i);
      BodyAt(s, k + 1, i);
    }
  }

  /** The header of a group lies in front of its first byte. */
  lemma {:induction false} HeaderAt(s: seq<octet>, k: nat, g: nat)
    requires k <= g < |s| && g % 7 == 0
    ensures 1 <= Place(k, g) < |Body(s, k)| && Body(s, k)[Place(k, g) - 1] == Acc(s, g + 1) | Upper(s[g], 0)
    decreases g - k
  {
    hide Upper, Acc, Body, Place;
    BodyStep(s, k);
    PlaceSelf(k);
    if k < g {
      PlaceNext(k, g);
      HeaderAt(s, k + 1, g);
    }
  }

  /**
   Every byte lies behind the header of its group of seven, without its upper bit, which is the
   bit of the header at the byte's place in the group.
   */
  lemma CodeAt(s: seq<octet>, i: nat)
    requires i < |s|
    ensures var t, h := Encode(s), 1 + 8 * (i / 7);
            && h + 1 + i % 7 < |t| - 1
            && t[h + 1 + i % 7] == s[i] & 0x7F
            && (t[h] & Bit(i % 7) != 0 <==> s[i] & 0x80 != 0)
  {
    hide Upper, Acc, Body, Shl, Bit, Place, Encode;
    var g := i / 7 * 7;
    BodyAt(s, 0, i);
    HeaderAt(s, 0, g);
    HeaderBits(s, g, i);
    PlacesOf(i);
    CodeAtPlace(s, i, i / 7, i % 7, Acc(s, g + 1) | Upper(s[g], 0));
  }

  lemma CodeAtPlace(s: seq<octet>, i: nat, q: nat, j: nat, header: octet)
    requires i < |s| && j < 7 && 8 * q + 1 + j < |Body(s, 0)|
    requires Body(s, 0)[8 * q + 1 + j] == s[i] & 0x7f && Body(s, 0)[8 * q] == header
    requires Shl(header, 7 - j) & 0x80 == s[i] & 0x80
    ensures var t, h := Encode(s), 1 + 8 * q;
            && h + 1 + j < |t| - 1 && t[h + 1 + j] == s[i] & 0x7F
            && (t[h] & Bit(j) != 0 <==> s[i] & 0x80 != 0)
  {
    hide Body, Shl, Bit, Encode;
    Inside(s, 8 * q + 1 + j);
    Inside(s, 8 * q);
    HeaderBit(header, s[i], j);
  }

  lemma Inside(s: seq<octet>, k: nat)
    requires k < |Body(s, 0)|
    ensures 1 + k < |Encode(s)| - 1 && Encode(s)[1 + k] == Body(s, 0)[k]
  {
    hide Body;
  }

  lemma HeaderBit(header: octet, b: octet, j: nat)
    requires j < 7 && Shl(header, 7 - j) & 0x80 == b & 0x80
    ensures header & Bit(j) != 0 <==> b & 0x80 != 0
  {
    hide Shl, Bit;
    BitShifted(header, j);
  }

  lemma PlacesOf(i: nat)
    ensures Place(0, i) == 8 * (i / 7) + 1 + i % 7 && Place(0, i / 7 * 7) == 8 * (i / 7) + 1
    ensures i / 7 * 7 % 7 == 0 && i / 7 * 7 <= i && i / 7 * 7 / 7 == i / 7
  {
  }

  /** The bits for bytes that a short last group does not have are 0. */
  lemma SpareBits(s: seq<octet>, g: nat, j: nat)
    requires g < |s| && g % 7 == 0 && j < 7 && g + j >= |s|
    ensures 1 + 8 * (g / 7) < |Encode(s)| && Encode(s)[1 + 8 * (g / 7)] & Bit(j) == 0
  {
    hide Upper, Acc, Body, Shl;
    HeaderAt(s, 0, g);
    PlacesOf(g);
    var header := Acc(s, g + 1) | Upper(s[g], 0);
    Inside(s, Place(0, g) - 1);
    BitShifted(header, j);
    ShlOr(Acc(s, g + 1), Upper(s[g], 0), 7 - j);
    OrAnd(Shl(Acc(s, g + 1), 7 - j), Shl(Upper(s[g], 0), 7 - j));
    OrAnd(0, 0);
    UpperBack(s[g], 0, j);
    AccSpare(s, g + 1, j);
  }

  lemma {:induction false} AccSpare(s: seq<octet>, k: nat, j: nat)
    requires j < 7 && k / 7 * 7 + j >= |s|
    ensures k % 7 != 0 ==> Shl(Acc(s, k), 7 - j) & 0x80 == 0
    decreases |s| - k
  {
    hide Shl, Upper;
    ShlZero(7 - j);
    OrAnd(0, 0);
    if k < |s| && k % 7 != 0 {
      if (k + 1) % 7 != 0 {
        AccSpare(s, k + 1, j);
      }
      ShlOr(Acc(s, k + 1), Upper(s[k], k % 7), 7 - j);
      OrAnd(Shl(Acc(s, k + 1), 7 - j), Shl(Upper(s[k], k % 7), 7 - j));
      UpperBack(s[k], k % 7, j);
    }
  }

  /** The status bytes around the code. */
  lemma Framing(s: seq<octet>, t: seq<octet>)
    ensures Encode(s)[0] == 0xF0 && Encode(s)[|Encode(s)| - 1] == 0xF7
    ensures Framed(t) <==> |t| >= 2 && t[0] == 0xF0 && t[|t| - 1] == 0xF7
  {
    hide Body;
  }

  // ---- decoding any bytes ----

  /** The number of bytes that come out of the first n. */
  function Out(n: nat): nat {
    n - (n + 7) / 8
  }

  lemma OutNext(n: nat)
    ensures Out(n + 1) == Out(n) + if n % 8 == 0 then 0 else 1
    ensures n % 8 == 0 ==> (n + 1) / 8 * 8 == n
    ensures n % 8 != 0 && (n + 1) % 8 != 0 ==> (n + 1) / 8 * 8 == n / 8 * 8
  {
  }

  predicate OutIs(u: seq<octet>, k: nat, b: octet)
    requires k < |u| && k % 8 != 0
  {
    b == u[k] | if u[k / 8 * 8] & Bit(k % 8 - 1) != 0 then 0x80 else 0
  }

  lemma OutOf(u: seq<octet>, i: nat)
    requires i < |u| && i % 8 != 0
    ensures OutIs(u, i, u[i] | (Shl(u[i / 8 * 8], 8 - i % 8) & 0x80))
  {
    hide Shl, Bit;
    BitShifted(u[i / 8 * 8], i % 8 - 1);
  }

  lemma OutGrows(m: nat, n: nat)
    requires m <= n
    ensures Out(m) <= Out(n)
  {
  }

  /** From place i on, with the header of its group in hand. */
  lemma {:induction false} UncoverFrom(u: seq<octet>, i: nat, acc: octet)
    requires i <= |u| && (i % 8 != 0 && i < |u| ==> acc == u[i / 8 * 8])
    ensures var r := Uncover(u[i..], i % 8, acc);
            && Out(i) <= Out(|u|) && |r| == Out(|u|) - Out(i)
            && forall k :: i <= k < |u| && k % 8 != 0 ==> Out(i) <= Out(k) < Out(|u|) && OutIs(u, k, r[Out(k) - Out(i)])
    decreases |u| - i
  {
    hide Shl, Bit, Uncover, Out, OutIs;
    OutGrows(i, |u|);
    if i == |u| {
      UncoverNothing(u[i..], i % 8, acc);
    } else {
      UncoverAt(u, i, acc);
      OutNext(i);
      OutGrows(i + 1, |u|);
      UncoverFrom(u, i + 1, if i % 8 == 0 then u[i] else acc);
      if i % 8 != 0 {
        OutOf(u, i);
      }
    }
  }

  /** Any framed bytes: every byte but the headers comes out with the upper bit its header has for it. */
  lemma DecodedAt(t: seq<octet>, k: nat)
    requires Framed(t) && k < |t| - 2 && k % 8 != 0
    ensures |Decode(t)| == |t| - 2 - (|t| + 5) / 8
    ensures k - k / 8 - 1 < |Decode(t)|
    ensures Decode(t)[k - k / 8 - 1] ==
            t[1 + k] | if t[1 + k / 8 * 8] & Bit(k % 8 - 1) != 0 then 0x80 else 0
  {
    hide Uncover, Bit;
    var u := t[1..|t| - 1];
    UncoverFrom(u, 0, 0);
    assert u[0..] == u && u[k] == t[1 + k] && u[k / 8 * 8] == t[1 + k / 8 * 8];
    assert OutIs(u, k, Uncover(u, 0, 0)[Out(k)]);
  }
}
