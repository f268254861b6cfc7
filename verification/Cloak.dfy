/**
 The 7-bit code that hides packets in MIDI system exclusive messages, on one buffer in place.
 Every seven bytes follow a byte that holds their upper bits.
 */
module Cloak {
  import opened Splice

  type octet = bv8

  const SYSEX_START: octet := 0xF0
  const SYSEX_END: octet := 0xF7

  function Shr(x: octet, n: nat): octet
    requires n < 8
  {
    if n == 0 then x else if n == 1 then x >> 1 else if n == 2 then x >> 2 else if n == 3 then x >> 3
    else if n == 4 then x >> 4 else if n == 5 then x >> 5 else if n == 6 then x >> 6 else x >> 7
  }

  function Shl(x: octet, n: nat): octet
    requires n < 8
  {
    if n == 0 then x else if n == 1 then x << 1 else if n == 2 then x << 2 else if n == 3 then x << 3
    else if n == 4 then x << 4 else if n == 5 then x << 5 else if n == 6 then x << 6 else x << 7
  }

  /** The upper bit of the byte at a place in its group, moved to that place. */
  function Upper(b: octet, j: nat): octet
    requires j < 7
  {
    Shr(b & 0x80, 7 - j)
  }

  // ---- the code ----

  /** The upper bits of the bytes from k to the end of the group they are in. */
  function Acc(s: seq<octet>, k: nat): octet
    decreases |s| - k
  {
    if k >= |s| || k % 7 == 0 then 0 else Acc(s, k + 1) | Upper(s[k], k % 7)
  }

  /** The code of the bytes from i on. */
  function Body(s: seq<octet>, i: nat): seq<octet>
    decreases |s| - i
  {
    if i >= |s| then []
    else if i % 7 == 0 then [Acc(s, i + 1) | Upper(s[i], 0), s[i] & 0x7f] + Body(s, i + 1)
    else [s[i] & 0x7f] + Body(s, i + 1)
  }

  function Encode(s: seq<octet>): seq<octet> {
    [SYSEX_START] + Body(s, 0) + [SYSEX_END]
  }

  function EncodedSize(n: nat): nat {
    8 * (n / 7) + (if n % 7 != 0 then 1 + n % 7 else 0) + 2
  }

  /** The bytes behind a header at a place in their group of eight. */
  function Uncover(t: seq<octet>, shift: nat, acc: octet): (r: seq<octet>)
    requires shift < 8
    ensures |r| <= |t|
  {
    if t == [] then []
    else if shift == 0 then Uncover(t[1..], 1, t[0])
    else [t[0] | (Shl(acc, 8 - shift) & 0x80)] + Uncover(t[1..], (shift + 1) % 8, acc)
  }

  predicate Framed(t: seq<octet>) {
    |t| >= 2 && t[0] == SYSEX_START && t[|t| - 1] == SYSEX_END
  }

  function Decode(t: seq<octet>): (r: seq<octet>)
    ensures |r| <= |t|
  {
    if Framed(t) then Uncover(t[1..|t| - 1], 0, 0) else []
  }

  // ---- bits ----

  lemma ShlOr(x: octet, y: octet, n: nat)
    requires n < 8
    ensures Shl(x | y, n) == Shl(x, n) | Shl(y, n)
  {
    if n == 0 {
    } else if n == 1 {
      assert (x | y) << 1 == (x << 1) | (y << 1);
    } else if n == 2 {
      assert (x | y) << 2 == (x << 2) | (y << 2);
    } else if n == 3 {
      assert (x | y) << 3 == (x << 3) | (y << 3);
    } else if n == 4 {
      assert (x | y) << 4 == (x << 4) | (y << 4);
    } else if n == 5 {
      assert (x | y) << 5 == (x << 5) | (y << 5);
    } else if n == 6 {
      assert (x | y) << 6 == (x << 6) | (y << 6);
    }
  }

  lemma OrAnd(x: octet, y: octet)
    ensures (x | y) & 0x80 == (x & 0x80) | (y & 0x80)
    ensures 0 | x == x && x | 0 == x && 0 & x == 0
  {
  }

  lemma UpperBack(b: octet, i: nat, j: nat)
    requires i < 7 && j < 7
    ensures Shl(Upper(b, i), 7 - j) & 0x80 == if i == j then b & 0x80 else 0
  {
  }

  lemma ShlZero(n: nat)
    requires n < 8
    ensures Shl(0, n) == 0
  {
  }

  lemma LowUpper(b: octet)
    ensures (b & 0x7f) | (b & 0x80) == b
    ensures (b & 0x7f) & 0x80 == 0
  {
  }

  lemma UpperIsData(b: octet, j: nat)
    requires j < 7
    ensures Upper(b, j) & 0x80 == 0
  {
  }

  /** Each bit of the accumulator is where the decoder looks for it. */
  lemma {:induction false} AccBits(s: seq<octet>, k: nat, i: nat)
    requires i < |s|
    ensures k % 7 != 0 && k <= i && i / 7 == k / 7 ==> Shl(Acc(s, k), 7 - i % 7) & 0x80 == s[i] & 0x80
    ensures i < k && (k % 7 != 0 ==> i / 7 == k / 7) ==> Shl(Acc(s, k), 7 - i % 7) & 0x80 == 0
    decreases |s| - k
  {
    hide Shl, Upper;
    ShlZero(7 - i % 7);
    OrAnd(0, 0);
    if k < |s| && k % 7 != 0 {
      AccBits(s, k + 1, i);
      ShlOr(Acc(s, k + 1), Upper(s[k], k % 7), 7 - i % 7);
      OrAnd(Shl(Acc(s, k + 1), 7 - i % 7), Shl(Upper(s[k], k % 7), 7 - i % 7));
      UpperBack(s[k], k % 7, i % 7);
    }
  }

  // ---- what the code promises ----

  /** The header has the upper bit of every byte of its group. */
  lemma HeaderBits(s: seq<octet>, g: nat, i: nat)
    requires g % 7 == 0 && g <= i < |s| && i / 7 == g / 7
    ensures Shl(Acc(s, g + 1) | Upper(s[g], 0), 7 - i % 7) & 0x80 == s[i] & 0x80
  {
    hide Shl, Upper, Acc;
    var j := i % 7;
    ShlOr(Acc(s, g + 1), Upper(s[g], 0), 7 - j);
    OrAnd(Shl(Acc(s, g + 1), 7 - j), Shl(Upper(s[g], 0), 7 - j));
    OrAnd(s[i] & 0x80, 0);
    UpperBack(s[g], 0, j);
    AccBits(s, g + 1, i);
  }

  ghost predicate Covers(s: seq<octet>, i: nat, acc: octet) {
    forall k :: i <= k < |s| && k / 7 == i / 7 ==> Shl(acc, 7 - k % 7) & 0x80 == s[k] & 0x80
  }

  lemma UncoverStep(s: seq<octet>, i: nat, acc: octet, rest: seq<octet>)
    requires i < |s| && Covers(s, i, acc)
    ensures Uncover([s[i] & 0x7f] + rest, 1 + i % 7, acc) == [s[i]] + Uncover(rest, (2 + i % 7) % 8, acc)
  {
    hide Shl;
    LowUpper(s[i]);
    assert ([s[i] & 0x7f] + rest)[1..] == rest;
  }

  /** From any place in the code the decoder gives the bytes from there on. */
  lemma {:induction false} UncoverBody(s: seq<octet>, i: nat, acc: octet)
    requires i <= |s|
    ensures i % 7 == 0 ==> Uncover(Body(s, i), 0, acc) == s[i..]
    ensures i % 7 != 0 && Covers(s, i, acc) ==> Uncover(Body(s, i), 1 + i % 7, acc) == s[i..]
    ensures i == |s| ==> Body(s, i) == []
    decreases |s| - i
  {
    hide Shl, Upper, Acc, Covers, Uncover, Body;
    if i == |s| {
      NothingToUncover(s, i, acc);
    } else {
      var header := if i % 7 == 0 then Acc(s, i + 1) | Upper(s[i], 0) else acc;
      var more := Body(s, i + 1);
      BodyStep(s, i);
      UncoverBody(s, i + 1, header);
      assert s[i..] == [s[i]] + s[i + 1..];
      if i % 7 == 0 {
        HeaderCovers(s, i, header);
        UncoverHeader(header, [s[i] & 0x7f] + more, acc);
      }
      if Covers(s, i, header) {
        UncoverStep(s, i, header, more);
        CoversNext(s, i, header);
      }
    }
  }

  lemma BodyStep(s: seq<octet>, i: nat)
    requires i < |s|
    ensures i % 7 == 0 ==>
              Body(s, i) == [Acc(s, i + 1) | Upper(s[i], 0)] + ([s[i] & 0x7f] + Body(s, i + 1))
    ensures i % 7 != 0 ==> Body(s, i) == [s[i] & 0x7f] + Body(s, i + 1)
  {
    hide Upper, Acc;
  }

  lemma NothingToUncover(s: seq<octet>, i: nat, acc: octet)
    requires i == |s|
    ensures Body(s, i) == [] && Uncover([], 0, acc) == [] && Uncover([], 1 + i % 7, acc) == []
  {
  }

  lemma UncoverHeader(header: octet, rest: seq<octet>, acc: octet)
    ensures Uncover([header] + rest, 0, acc) == Uncover(rest, 1, header)
  {
    assert ([header] + rest)[1..] == rest;
  }

  lemma HeaderCovers(s: seq<octet>, i: nat, header: octet)
    requires i < |s| && i % 7 == 0 && header == Acc(s, i + 1) | Upper(s[i], 0)
    ensures Covers(s, i, header)
  {
    hide Shl, Upper, Acc;
    forall k | i <= k < |s| && k / 7 == i / 7 ensures Shl(header, 7 - k % 7) & 0x80 == s[k] & 0x80 {
      HeaderBits(s, i, k);
    }
  }

  lemma CoversNext(s: seq<octet>, i: nat, acc: octet)
    requires Covers(s, i, acc)
    ensures (i + 1) % 7 != 0 ==> Covers(s, i + 1, acc)
    ensures (i + 1) % 7 == 0 <==> (2 + i % 7) % 8 == 0
    ensures (i + 1) % 7 != 0 ==> (2 + i % 7) % 8 == 1 + (i + 1) % 7
  {
    hide Shl;
  }

  /** Decoding the code of any bytes, even none, gives them back. */
  lemma DecodeEncode(s: seq<octet>)
    ensures Framed(Encode(s)) && Decode(Encode(s)) == s
  {
    hide Uncover, Body;
    var t := Encode(s);
    assert t[1..|t| - 1] == Body(s, 0);
    UncoverBody(s, 0, 0);
  }

  lemma {:induction false} BodySize(s: seq<octet>, i: nat)
    requires i <= |s|
    ensures |Body(s, i)| == |s| - i + (|s| + 6) / 7 - (i + 6) / 7
    decreases |s| - i
  {
    hide Upper, Acc;
    if i < |s| {
      BodySize(s, i + 1);
    }
  }

  lemma EncodeSize(s: seq<octet>)
    ensures |Encode(s)| == EncodedSize(|s|)
  {
    hide Body;
    BodySize(s, 0);
  }

  lemma {:induction false} AccIsData(s: seq<octet>, k: nat)
    ensures Acc(s, k) & 0x80 == 0
    decreases |s| - k
  {
    hide Upper;
    if k < |s| && k % 7 != 0 {
      AccIsData(s, k + 1);
      UpperIsData(s[k], k % 7);
      OrAnd(Acc(s, k + 1), Upper(s[k], k % 7));
    }
    OrAnd(0, 0);
  }

  predicate Data(t: seq<octet>) {
    forall k :: 0 <= k < |t| ==> t[k] & 0x80 == 0
  }

  lemma DataBytes(b: octet, c: octet, t: seq<octet>)
    requires b & 0x80 == 0 && c & 0x80 == 0 && Data(t)
    ensures Data([c] + t) && Data([b] + ([c] + t))
  {
  }

  lemma {:induction false} BodyIsData(s: seq<octet>, i: nat)
    ensures Data(Body(s, i))
    decreases |s| - i
  {
    hide Upper, Acc, Body, Data;
    BodyStart(s, i);
    if i < |s| {
      BodyStep(s, i);
      BodyIsData(s, i + 1);
      LowUpper(s[i]);
      AccIsData(s, i + 1);
      UpperIsData(s[i], 0);
      OrAnd(Acc(s, i + 1), Upper(s[i], 0));
      OrAnd(0, 0);
      DataBytes(Acc(s, i + 1) | Upper(s[i], 0), s[i] & 0x7f, Body(s, i + 1));
    }
  }

  lemma BodyStart(s: seq<octet>, i: nat)
    ensures i >= |s| ==> Data(Body(s, i))
  {
  }

  /** Between the two status bytes there are only data bytes, as MIDI demands. */
  lemma EncodeIsSysex(s: seq<octet>)
    ensures forall k :: 0 < k < |Encode(s)| - 1 ==> Encode(s)[k] < 0x80
  {
    hide Body;
    BodyIsData(s, 0);
    forall k | 0 < k < |Encode(s)| - 1 ensures Encode(s)[k] < 0x80 {
      assert Encode(s)[k] == Body(s, 0)[k - 1];
      Small(Encode(s)[k]);
    }
  }

  lemma Small(b: octet)
    ensures b & 0x80 == 0 ==> b < 0x80
  {
  }

  // ---- in place ----

  lemma OverPrepend(m: seq<octet>, off: nat, b: octet, w: seq<octet>)
    requires off + 1 + |w| <= |m|
    ensures Over(m, off + 1, w)[off := b] == Over(m, off, [b] + w)
  {
  }

  lemma OverAppend(m: seq<octet>, w: seq<octet>, b: octet)
    requires |w| < |m|
    ensures Over(m, 0, w)[|w| := b] == Over(m, 0, w + [b])
  {
  }

  /** What the backward loop has written before it comes to byte i - 1. */
  ghost function Written(s: seq<octet>, i: nat): seq<octet> {
    Body(s, i) + [SYSEX_END]
  }

  lemma WrittenStep(s: seq<octet>, i: nat)
    requires i < |s|
    ensures i % 7 == 0 ==>
              Written(s, i) == [Acc(s, i + 1) | Upper(s[i], 0)] + ([s[i] & 0x7f] + Written(s, i + 1))
    ensures i % 7 != 0 ==> Written(s, i) == [s[i] & 0x7f] + Written(s, i + 1)
  {
    hide Upper, Acc, Body;
    BodyStep(s, i);
    var low, more := s[i] & 0x7f, Body(s, i + 1);
    assert [low] + more + [SYSEX_END] == [low] + Written(s, i + 1);
    var header := Acc(s, i + 1) | Upper(s[i], 0);
    assert [header] + ([low] + more) + [SYSEX_END] == [header] + ([low] + more + [SYSEX_END]);
  }

  lemma AccStep(s: seq<octet>, i: nat)
    requires i < |s|
    ensures Acc(s, i) == if i % 7 == 0 then 0 else Acc(s, i + 1) | Upper(s[i], i % 7)
    ensures Acc(s, |s|) == 0
  {
    hide Upper;
  }

  lemma WrittenSize(s: seq<octet>, i: nat)
    requires i <= |s|
    ensures |Written(s, i)| == |s| - i + (|s| + 6) / 7 - (i + 6) / 7 + 1
    ensures Written(s, |s|) == [SYSEX_END]
  {
    hide Upper, Acc, Body;
    BodySize(s, i);
    BodySize(s, |s|);
    assert |Body(s, |s|)| == 0;
  }

  /** Before byte i is written there is room for it and its header, and it has not been overwritten. */
  lemma Ahead(s: seq<octet>, i: nat)
    requires i <= |s|
    ensures i < |s| ==> i + 2 + |Written(s, i + 1)| <= |Encode(s)|
    ensures |Written(s, i)| + 1 <= |Encode(s)| == |Written(s, 0)| + 1
    ensures Written(s, |s|) == [SYSEX_END]
  {
    hide Written, Encode;
    EncodeWritten(s);
    WrittenSize(s, i);
    WrittenSize(s, 0);
    if i < |s| {
      WrittenSize(s, i + 1);
    }
  }

  lemma EncodeWritten(s: seq<octet>)
    ensures [SYSEX_START] + Written(s, 0) == Encode(s)
  {
    hide Body;
  }

  method SizeOfCode(size: nat) returns (written: nat)
    ensures written == EncodedSize(size)
  {
    var rem := size % 7;
    written := size / 7;
    written := written * 8;
    if rem != 0 {
      written := written + 1 + rem;
    }
    written := written + 2;
  }

  /** Byte i goes to its place, and its header in front of it when it is the first of its group. */
  method PutByte(buf: array<octet>, to: nat, i: nat, acc: octet, ghost m: seq<octet>, ghost s: seq<octet>)
      returns (to': int, acc': octet)
    requires i < |s| && s <= m && |m| == buf.Length
    requires i < to && to + 1 + |Written(s, i + 1)| <= |m|
    requires buf[..] == Over(m, to + 1, Written(s, i + 1)) && acc == Acc(s, i + 1)
    modifies buf
    ensures -1 <= to' < to && to' + |Written(s, i)| == to + |Written(s, i + 1)|
    ensures buf[..] == Over(m, to' + 1, Written(s, i)) && acc' == Acc(s, i)
  {
    hide Over, Written, Acc, Upper;
    WrittenStep(s, i);
    AccStep(s, i);
    OverAt(m, to + 1, Written(s, i + 1), i);
    var shift := i % 7;
    var byt := buf[i];
    assert byt == buf[..][i] == m[i] == s[i];
    var upp := Upper(byt, shift);
    var low := byt & 0x7f;
    acc' := acc | upp;
    OverPrepend(m, to, low, Written(s, i + 1));
    buf[to] := low;
    to' := to - 1;
    if shift == 0 {
      OverPrepend(m, to', acc', [low] + Written(s, i + 1));
      buf[to'] := acc';
      to' := to' - 1;
      acc' := 0;
    }
  }

  /** Writes from the last byte to the first; the write position stays ahead of the bytes still to be read. */
  method EncodeInPlace(buf: array<octet>, size: nat) returns (written: nat)
    requires size <= buf.Length && EncodedSize(size) <= buf.Length
    modifies buf
    ensures written == EncodedSize(size) == |Encode(old(buf[..size]))|
    ensures buf[..] == Over(old(buf[..]), 0, Encode(old(buf[..size])))
  {
    hide Over, Written, Acc, Upper, Encode, Shr, EncodedSize;
    ghost var m: seq<octet> := buf[..];
    ghost var s: seq<octet> := buf[..size];
    EncodeSize(s);
    EncodeWritten(s);
    Ahead(s, size);
    written := SizeOfCode(size);
    var to: int := written;
    to := to - 1;
    OverOne(m, to, SYSEX_END);
    buf[to] := SYSEX_END;
    to := to - 1;
    var acc: octet := 0;
    NoAcc(s);
    var i: int := size - 1;
    while i >= 0
      invariant -1 <= i < size
      invariant to + 1 + |Written(s, i + 1)| == written
      invariant buf[..] == Over(m, to + 1, Written(s, i + 1))
      invariant acc == Acc(s, i + 1)
      decreases i
    {
      Ahead(s, i);
      to, acc := PutByte(buf, to, i, acc, m, s);
      i := i - 1;
    }
    OverPrepend(m, 0, SYSEX_START, Written(s, 0));
    buf[to] := SYSEX_START;
  }

  lemma OverOne(m: seq<octet>, i: nat, b: octet)
    requires i < |m|
    ensures m[i := b] == Over(m, i, [b])
  {
  }

  lemma NoAcc(s: seq<octet>)
    ensures Acc(s, |s|) == 0
  {
  }

  lemma NextShift(i: nat)
    ensures (i % 8 + 1) % 8 == (i + 1) % 8
  {
  }

  lemma UncoverFront(t: seq<octet>, shift: nat, acc: octet)
    requires t != [] && shift < 8
    ensures shift == 0 ==> Uncover(t, shift, acc) == Uncover(t[1..], 1, t[0])
    ensures shift != 0 ==>
              Uncover(t, shift, acc) == [t[0] | (Shl(acc, 8 - shift) & 0x80)] + Uncover(t[1..], (shift + 1) % 8, acc)
  {
    hide Shl;
  }

  lemma UncoverAt(t: seq<octet>, i: nat, acc: octet)
    requires i < |t|
    ensures i % 8 == 0 ==> Uncover(t[i..], 0, acc) == Uncover(t[i + 1..], 1, t[i])
    ensures i % 8 != 0 ==>
              Uncover(t[i..], i % 8, acc)
              == [t[i] | (Shl(acc, 8 - i % 8) & 0x80)] + Uncover(t[i + 1..], (i + 1) % 8, acc)
    ensures i % 8 == 0 ==> (i + 1) % 8 == 1
  {
    hide Shl, Uncover;
    NextShift(i);
    UncoverFront(t[i..], i % 8, acc);
    assert t[i..][1..] == t[i + 1..];
  }

  /** Anything that is not framed is refused; the bytes come out no later than they are read. */
  method DecodeInPlace(buf: array<octet>, size: nat) returns (n: nat)
    requires size <= buf.Length
    modifies buf
    ensures n == |Decode(old(buf[..size]))|
    ensures buf[..] == Over(old(buf[..]), 0, Decode(old(buf[..size])))
  {
    hide Over, Uncover, Shl;
    ghost var m: seq<octet> := buf[..];
    ghost var s: seq<octet> := buf[..size];
    OverNothing(m, 0);
    if size < 2 || buf[0] != SYSEX_START || buf[size - 1] != SYSEX_END {
      return 0;
    }
    assert buf[1..size - 1] == s[1..|s| - 1];
    n := Uncovering(buf, size);
  }

  method Uncovering(buf: array<octet>, size: nat) returns (n: nat)
    requires 2 <= size <= buf.Length
    modifies buf
    ensures var t := old(buf[1..size - 1]);
            n == |Uncover(t, 0, 0)| <= |t| && buf[..] == Over(old(buf[..]), 0, Uncover(t, 0, 0))
  {
    hide Over, Uncover, Shl;
    ghost var m: seq<octet> := buf[..];
    ghost var t: seq<octet> := buf[1..size - 1];
    OverNothing(m, 0);
    ghost var done: seq<octet> := [];
    var to := 0;
    var acc: octet := 0;
    var i := 0;
    assert t[0..] == t && [] + Uncover(t, 0, 0) == Uncover(t, 0, 0);
    while i < size - 2
      invariant i <= size - 2 && to == |done| <= i
      invariant buf[..] == Over(m, 0, done)
      invariant Uncover(t, 0, 0) == done + Uncover(t[i..], i % 8, acc)
    {
      OverAt(m, 0, done, i + 1);
      UncoverAt(t, i, acc);
      var shift := i % 8;
      var byt := buf[i + 1];
      assert byt == buf[..][i + 1] == t[i];
      if shift == 0 {
        acc := byt;
      } else {
        var upp := Shl(acc, 8 - shift) & 0x80;
        OverAppend(m, done, byt | upp);
        Regroup(done, byt | upp, Uncover(t[i + 1..], (i + 1) % 8, acc));
        done := done + [byt | upp];
        buf[to] := byt | upp;
        to := to + 1;
      }
      i := i + 1;
    }
    UncoverNothing(t[i..], i % 8, acc);
    assert done + [] == done;
    n := to;
  }

  lemma Regroup(done: seq<octet>, b: octet, more: seq<octet>)
    ensures done + ([b] + more) == done + [b] + more
  {
  }

  lemma UncoverNothing(t: seq<octet>, shift: nat, acc: octet)
    requires t == [] && shift < 8
    ensures Uncover(t, shift, acc) == []
  {
  }

  /** The trip through the wire: encoded and decoded in one buffer, every packet comes back. */
  method RoundTrip(buf: array<octet>, size: nat) returns (n: nat)
    requires size <= buf.Length && EncodedSize(size) <= buf.Length
    modifies buf
    ensures n == size && buf[..size] == old(buf[..size])
  {
    hide Over, Encode, Decode;
    ghost var s: seq<octet> := buf[..size];
    ghost var m: seq<octet> := buf[..];
    var written := EncodeInPlace(buf, size);
    OverParts(m, 0, Encode(s));
    assert buf[..written] == buf[..][0..written];
    DecodeEncode(s);
    ghost var e: seq<octet> := buf[..];
    n := DecodeInPlace(buf, written);
    OverParts(e, 0, s);
    assert buf[..size] == buf[..][0..size];
  }
}
