/** SLIP by its own numbers (RFC 1055): a frame is a row of plain bytes and pairs between two C0. */
module SlipUnits {
  import opened Bytes
  import opened Slip

  datatype Unit = Plain(b: byte) | Pair(c: byte)

  predicate OkUnit(u: Unit) {
    u.Plain? ==> u.b != 0xC0 && u.b != 0xDB
  }

  predicate OkUnits(us: seq<Unit>) {
    forall i :: 0 <= i < |us| ==> OkUnit(us[i])
  }

  function UnitBytes(u: Unit): (r: seq<byte>)
    ensures 1 <= |r| <= 2
  {
    match u
    case Plain(b) => [b]
    case Pair(c) => [0xDB, c]
  }

  /** A pair stands for C0 or DB; any other is dropped. */
  function UnitText(u: Unit): seq<byte> {
    match u
    case Plain(b) => [b]
    case Pair(c) => if c == 0xDC then [0xC0] else if c == 0xDD then [0xDB] else []
  }

  function Flat(us: seq<Unit>): seq<byte> {
    if us == [] then [] else UnitBytes(us[0]) + Flat(us[1..])
  }

  function Text(us: seq<Unit>): seq<byte> {
    if us == [] then [] else UnitText(us[0]) + Text(us[1..])
  }

  // ---- encoding ----

  function UnitOf(b: byte): Unit {
    if b == 0xC0 then Pair(0xDC) else if b == 0xDB then Pair(0xDD) else Plain(b)
  }

  function UnitsOf(p: seq<byte>): (us: seq<Unit>)
    ensures |us| == |p| && OkUnits(us)
  {
    seq(|p|, i requires 0 <= i < |p| => UnitOf(p[i]))
  }

  lemma {:induction false} EscapeIs(p: seq<byte>)
    ensures Escape(p) == Flat(UnitsOf(p)) && Text(UnitsOf(p)) == p
    decreases |p|
  {
    hide Escape, EscapeByte;
    if p == [] {
      NoEscape();
    } else {
      EscapeIs(p[1..]);
      EscapeFront(p[0], p[1..]);
      ByteIs(p[0]);
      assert p == [p[0]] + p[1..];
      assert UnitsOf(p)[1..] == UnitsOf(p[1..]) && UnitsOf(p)[0] == UnitOf(p[0]);
    }
  }

  lemma ByteIs(b: byte)
    ensures EscapeByte(b) == UnitBytes(UnitOf(b)) && UnitText(UnitOf(b)) == [b]
  {
  }

  /** A frame is C0, one unit for each byte of the payload, and C0. */
  lemma FrameIs(p: seq<byte>)
    ensures Frame(p) == [0xC0] + Flat(UnitsOf(p)) + [0xC0] && Text(UnitsOf(p)) == p
  {
    hide Escape, UnitsOf, Flat;
    EscapeIs(p);
  }

  // ---- decoding any bytes ----

  /** Units up to a C0 are read as their text, whatever follows. */
  lemma {:induction false} ScanUnits(us: seq<Unit>, tail: seq<byte>)
    requires OkUnits(us)
    ensures Scan(Flat(us) + [0xC0] + tail) == Scanned(|Flat(us)| + 1, Text(us), true)
    decreases |us|
  {
    hide Scan;
    if us == [] {
      assert Flat(us) + [0xC0] + tail == [0xC0] + tail;
      ScanEnd(tail);
    } else {
      var more := Flat(us[1..]) + [0xC0] + tail;
      ScanUnits(us[1..], tail);
      OneUnit(us[0], more);
      assert Flat(us) + [0xC0] + tail == UnitBytes(us[0]) + more;
    }
  }

  lemma OneUnit(u: Unit, t: seq<byte>)
    requires OkUnit(u)
    ensures Scan(UnitBytes(u) + t) == Scanned(|UnitBytes(u)| + Scan(t).used, UnitText(u) + Scan(t).text, Scan(t).done)
  {
    hide Scan;
    match u
    case Plain(b) => ScanPlain(b, t);
    case Pair(c) => ScanPair(c, t);
  }

  /**
   Any bytes are units up to the first C0 that is not the second half of a pair, or up to the end,
   where half a pair may be left. The decoder takes exactly these.
   */
  lemma {:induction false} ScanExactly(s: seq<byte>) returns (us: seq<Unit>, rest: seq<byte>)
    ensures OkUnits(us) && s == Flat(us) + rest && Scan(s).text == Text(us)
    ensures Scan(s).done <==> rest != [] && rest[0] == 0xC0
    ensures !Scan(s).done <==> rest == [] || rest == [0xDB]
    ensures Scan(s).used == |Flat(us)| + if Scan(s).done then 1 else 0
    decreases |s|
  {
    hide Scan, UnitBytes, UnitText, Text, Flat;
    NoUnits();
    if s == [] || s[0] == 0xC0 || s == [0xDB] {
      us, rest := [], s;
      ScanNothing(s);
      assert [] + s == s;
    } else {
      var u := if s[0] == 0xDB then Pair(s[1]) else Plain(s[0]);
      var k := |UnitBytes(u)|;
      FirstUnit(s, u);
      us, rest := ScanExactly(s[k..]);
      OneUnit(u, s[k..]);
      MoreUnits(u, us);
      assert UnitBytes(u) + Flat(us) + rest == UnitBytes(u) + (Flat(us) + rest);
      us := [u] + us;
    }
  }

  lemma NoUnits()
    ensures Flat([]) == [] && Text([]) == []
  {
  }

  lemma MoreUnits(u: Unit, us: seq<Unit>)
    ensures Flat([u] + us) == UnitBytes(u) + Flat(us) && Text([u] + us) == UnitText(u) + Text(us)
  {
    hide UnitBytes, UnitText;
    assert ([u] + us)[1..] == us;
  }

  lemma ScanNothing(s: seq<byte>)
    requires s == [] || s[0] == 0xC0 || s == [0xDB]
    ensures Scan(s) == if s != [] && s[0] == 0xC0 then Scanned(1, [], true) else Scanned(0, [], false)
  {
  }

  lemma FirstUnit(s: seq<byte>, u: Unit)
    requires s != [] && s[0] != 0xC0 && s != [0xDB]
    requires if s[0] == 0xDB then |s| > 1 && u == Pair(s[1]) else u == Plain(s[0])
    ensures OkUnit(u) && |UnitBytes(u)| <= |s| && s == UnitBytes(u) + s[|UnitBytes(u)|..]
  {
  }

  /** What one call of the decoder makes of any bytes: a frame needs a C0 in front, and one behind its units. */
  lemma DecodesAnything(s: seq<byte>) returns (us: seq<Unit>, rest: seq<byte>)
    ensures var whole := s != [] && s[0] == 0xC0;
            var done := rest != [] && rest[0] == 0xC0;
            && OkUnits(us) && s == (if whole then [0xC0] else []) + Flat(us) + rest
            && (done || rest == [] || rest == [0xDB])
            && Parsed(s) == (if done then |s| - |rest| + 1 else 0)
            && Payload(s) == (if done && whole then Text(us) else [])
  {
    hide Scan, Flat, Text;
    us, rest := ScanExactly(if Whole(s) then s[1..] else s);
    assert Whole(s) ==> s == [0xC0] + s[1..];
  }
}
