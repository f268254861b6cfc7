/**
 The form of the atoms that the forge makes, given without it, and that this form leaves no choice:
 a packet has one such atom.
 */
module OscForm {
  import opened Bytes
  import opened OscAtoms
  import opened OscPacket
  import opened Urid

  // ---- the form ----

  /** A 64-bit number below 2^32. */
  predicate SmallLong(a: Atom) {
    a.ALong? && a.hi == 0
  }

  /** Seconds and fraction in this order, each a long below 2^32, and nothing else. */
  predicate TidyTimetag(a: Atom) {
    && a.AObject? && a.otype == OscTimetag
    && a.props.PCons? && a.props.key == TimetagIntegral && SmallLong(a.props.value)
    && a.props.rest.PCons? && a.props.rest.key == TimetagFraction && SmallLong(a.props.rest.value)
    && a.props.rest.rest == PNil
  }

  predicate LowerHex(b: byte) {
    0x30 <= b <= 0x39 || 0x61 <= b <= 0x66
  }

  predicate TidyLiteral(datatyp: LiteralType, text: Text) {
    match datatyp
    case OscNil => text == []
    case OscImpulse => text == []
    case OscChar => |text| == 1
    case OscRgba => |text| == 8 && forall i :: 0 <= i < 8 ==> LowerHex(text[i])
    case OtherLiteral => false
  }

  predicate TidyArg(h: Host, a: Atom) {
    match a
    case AInt(_) => true
    case AFloat(_) => true
    case AString(s) => IsText(s)
    case AChunk(_) => true
    case ALong(_, _) => true
    case ADouble(_, _) => true
    case ABool(w) => w == 0 || w == 1
    case AUrid(u) => h.unmap(u).Some? && h.map_(CText(h.unmap(u).value)) == u
    case AMidi(data) => |data| == 3
    case ALiteral(datatyp, text) => TidyLiteral(datatyp, text)
    case AObject(_, _) => TidyTimetag(a)
    case _ => false
  }

  predicate TidyArgs(h: Host, atoms: Atoms) {
    match atoms
    case ANil => true
    case ACons(a, rest) => TidyArg(h, a) && TidyArgs(h, rest)
  }

  /** Two properties with these keys, in this order, the second a tuple. */
  predicate TwoKeys(props: Props, first: Key, second: Key) {
    && props.PCons? && props.key == first
    && props.rest.PCons? && props.rest.key == second && props.rest.value.ATuple?
    && props.rest.rest == PNil
  }

  predicate Tidy(h: Host, a: Atom)
    decreases a
  {
    && a.AObject?
    && match a.otype
       case OscMessage =>
         && TwoKeys(a.props, MessagePath, MessageArguments)
         && a.props.value.AString? && IsText(a.props.value.s)
         && TidyArgs(h, a.props.rest.value.items)
       case OscBundle =>
         && TwoKeys(a.props, BundleTimetag, BundleItems)
         && TidyTimetag(a.props.value)
         && TidyItems(h, a.props.rest.value.items)
       case _ => false
  }

  predicate TidyItems(h: Host, atoms: Atoms)
    decreases atoms
  {
    match atoms
    case ANil => true
    case ACons(a, rest) => Tidy(h, a) && TidyItems(h, rest)
  }

  // ---- single arguments ----

  lemma HexIsLower(n: nat)
    requires n < 16
    ensures LowerHex(HexDigit(n))
  {
  }

  lemma OneLowerHex(b: byte)
    requires LowerHex(b)
    ensures UnHex(b).Some? && UnHex(b).value < 16 && HexDigit(UnHex(b).value) == b
  {
  }

  lemma HexOfTwo(x: byte, y: byte, b: byte)
    requires LowerHex(x) && LowerHex(y) && UnHex2(x, y) == Some(b)
    ensures Hex2(b) == [x, y]
  {
    OneLowerHex(x);
    OneLowerHex(y);
    var m, n := UnHex(x).value, UnHex(y).value;
    assert b / 16 == m && b % 16 == n;
  }

  lemma RgbaForm(t: Text, r: byte, g: byte, b: byte, a: byte)
    requires TidyLiteral(OscRgba, t) && ScanRgba(t) == Some((r, g, b, a))
    ensures t == Hex2(r) + Hex2(g) + Hex2(b) + Hex2(a)
  {
    hide UnHex2, Hex2, LowerHex;
    HexOfTwo(t[0], t[1], r);
    HexOfTwo(t[2], t[3], g);
    HexOfTwo(t[4], t[5], b);
    HexOfTwo(t[6], t[7], a);
  }

  lemma RgbaTidy(r: byte, g: byte, b: byte, a: byte)
    ensures TidyLiteral(OscRgba, Hex2(r) + Hex2(g) + Hex2(b) + Hex2(a))
  {
    hide LowerHex, HexDigit;
    Hex2Lower(r);
    Hex2Lower(g);
    Hex2Lower(b);
    Hex2Lower(a);
    var t := Hex2(r) + Hex2(g) + Hex2(b) + Hex2(a);
    assert t[0] == Hex2(r)[0] && t[1] == Hex2(r)[1] && t[2] == Hex2(g)[0] && t[3] == Hex2(g)[1];
    assert t[4] == Hex2(b)[0] && t[5] == Hex2(b)[1] && t[6] == Hex2(a)[0] && t[7] == Hex2(a)[1];
  }

  lemma Hex2Lower(b: byte)
    ensures LowerHex(Hex2(b)[0]) && LowerHex(Hex2(b)[1])
  {
    HexIsLower(b / 16);
    HexIsLower(b % 16);
  }

  lemma CharForm(b: byte)
    ensures CharWord(SignedChar(b)) % 256 == b
  {
  }

  lemma TimetagForm(a: Atom, hi: word, lo: word)
    ensures TidyTimetag(a) && Timetag(a.props) == (hi, lo) <==> a == TimetagAtom(hi, lo)
  {
    if TidyTimetag(a) {
      assert Lookup(a.props, TimetagIntegral) == Some(a.props.value);
      assert Lookup(a.props.rest, TimetagFraction) == Some(a.props.rest.value);
    }
    TimetagBack(hi, lo);
  }

  /** An argument has exactly one tidy atom. */
  lemma ArgForm(h: Host, x: Arg, a: Atom)
    requires OkArg(x) && KnownArg(h, x)
    ensures TidyArg(h, a) && AtomArg(h, a) == Some(CanonArg(x)) <==> a == ArgAtom(h, x)
  {
    hide TidyLiteral, TidyTimetag, Timetag, TimetagAtom, ScanRgba, Hex2, SignedChar, CharWord;
    if a == ArgAtom(h, x) {
      ArgBack(h, x);
      ArgIsTidy(h, x);
    } else if TidyArg(h, a) && AtomArg(h, a) == Some(CanonArg(x)) {
      OnlyArg(h, x, a);
    }
  }

  lemma ArgIsTidy(h: Host, x: Arg)
    requires OkArg(x) && KnownArg(h, x)
    ensures TidyArg(h, ArgAtom(h, x))
  {
    hide TidyTimetag, Hex2, CharWord;
    match x
    case Time(hi, lo) => TimetagForm(TimetagAtom(hi, lo), hi, lo);
    case Rgba(r, g, b, y) => RgbaTidy(r, g, b, y);
    case _ =>
  }

  lemma OnlyArg(h: Host, x: Arg, a: Atom)
    requires OkArg(x) && TidyArg(h, a) && AtomArg(h, a) == Some(CanonArg(x))
    ensures a == ArgAtom(h, x)
  {
    hide TidyTimetag, Timetag, TimetagAtom, ScanRgba, Hex2, SignedChar, CharWord, LowerHex;
    match a
    case AObject(_, _) => OnlyTimetag(x, a);
    case ALiteral(datatyp, text) => OnlyLiteral(h, x, datatyp, text);
    case AMidi(data) => assert data == [data[0], data[1], data[2]];
    case _ =>
  }

  lemma OnlyTimetag(x: Arg, a: Atom)
    requires TidyTimetag(a) && Some(Time(Timetag(a.props).0, Timetag(a.props).1)) == Some(CanonArg(x))
    ensures x.Time? && a == TimetagAtom(x.hi, x.lo)
  {
    hide Timetag, TimetagAtom;
    TimetagForm(a, Timetag(a.props).0, Timetag(a.props).1);
  }

  lemma OnlyLiteral(h: Host, x: Arg, datatyp: LiteralType, text: Text)
    requires TidyLiteral(datatyp, text) && AtomArg(h, ALiteral(datatyp, text)) == Some(CanonArg(x))
    ensures ALiteral(datatyp, text) == ArgAtom(h, x)
  {
    hide ScanRgba, Hex2, SignedChar, CharWord, LowerHex;
    match datatyp
    case OscChar =>
      CharForm(text[0]);
      assert text == [text[0]];
    case OscRgba =>
      var c := ScanRgba(text).value;
      RgbaForm(text, c.0, c.1, c.2, c.3);
    case _ =>
  }

  // ---- packets ----

  lemma {:induction false} ArgsForm(h: Host, xs: seq<Arg>, atoms: Atoms)
    requires OkArgs(xs) && KnownArgs(h, xs)
    ensures TidyArgs(h, atoms) && AtomArgs(h, atoms) == Some(CanonArgs(xs)) <==> atoms == ArgAtoms(h, xs)
    decreases |xs|
  {
    hide TidyArg, AtomArg, ArgAtom, OkArg, KnownArg, CanonArg;
    if xs != [] && atoms.ACons? {
      ArgForm(h, xs[0], atoms.head);
      ArgsForm(h, xs[1..], atoms.tail);
      ConsForm(h, xs, atoms);
    }
  }

  lemma ConsForm(h: Host, xs: seq<Arg>, atoms: Atoms)
    requires xs != [] && atoms.ACons?
    ensures AtomArgs(h, atoms) == Some(CanonArgs(xs)) <==>
            AtomArg(h, atoms.head) == Some(CanonArg(xs[0])) && AtomArgs(h, atoms.tail) == Some(CanonArgs(xs[1..]))
  {
    hide AtomArg, CanonArg;
    var x, ys := AtomArg(h, atoms.head), AtomArgs(h, atoms.tail);
    var c, cs := CanonArg(xs[0]), CanonArgs(xs[1..]);
    assert CanonArgs(xs) == [c] + cs;
    if x.Some? && ys.Some? {
      assert ([x.value] + ys.value)[0] == x.value && ([x.value] + ys.value)[1..] == ys.value;
      assert ([c] + cs)[0] == c && ([c] + cs)[1..] == cs;
    }
  }

  lemma MessageForm(h: Host, path: Text, xs: seq<Arg>, a: Atom)
    requires IsText(path) && OkArgs(xs) && KnownArgs(h, xs)
    ensures Tidy(h, a) && AtomPacket(h, a) == Some(Message(path, CanonArgs(xs))) <==>
            a == MessageAtom(path, ArgAtoms(h, xs))
  {
    hide AtomArgs, TidyArgs, ArgAtoms, CText, TidyTimetag, TidyItems, AtomPackets, OkArgs, KnownArgs;
    ArgsForm(h, xs, ArgAtoms(h, xs));
    MessageBack(h, path, ArgAtoms(h, xs));
    if a.AObject? && a.otype == OscMessage && TwoKeys(a.props, MessagePath, MessageArguments) {
      assert Lookup(a.props, MessagePath) == Some(a.props.value);
      assert Lookup(a.props.rest, MessageArguments) == Some(a.props.rest.value);
      ArgsForm(h, xs, a.props.rest.value.items);
    }
  }

  lemma BundleForm(h: Host, hi: word, lo: word, ps: Packets, items: Atoms, a: Atom)
    requires ps.More? && TidyItems(h, items) && AtomPackets(h, items) == Some(ps)
    requires forall atoms :: TidyItems(h, atoms) && AtomPackets(h, atoms) == Some(ps) ==> atoms == items
    ensures Tidy(h, a) && AtomPacket(h, a) == Some(Bundle(hi, lo, ps)) <==> a == BundleAtom(hi, lo, items)
  {
    hide AtomArgs, TidyArgs, TidyTimetag, TidyItems, AtomPackets, Timetag, TimetagAtom;
    BundleBack(h, hi, lo, items);
    TimetagForm(TimetagAtom(hi, lo), hi, lo);
    if a.AObject? && a.otype == OscBundle && TwoKeys(a.props, BundleTimetag, BundleItems) {
      assert Lookup(a.props, BundleTimetag) == Some(a.props.value);
      assert Lookup(a.props.rest, BundleItems) == Some(a.props.rest.value);
      TimetagForm(a.props.value, hi, lo);
    }
  }

  /**
   The forged atom is the only one in this form that stands for the packet: the form and the
   packet together determine it.
   */
  lemma {:induction false} ForgedExactly(h: Host, p: Packet, a: Atom)
    requires OkPacket(p) && Known(h, p)
    ensures Tidy(h, a) && AtomPacket(h, a) == Some(Canon(p)) <==> a == PacketAtom(h, p)
    decreases p
  {
    hide AtomPacket, MessageAtom, BundleAtom, Tidy, CanonArgs, TidyItems, OkArgs, KnownArgs;
    match p
    case Message(path, args) => MessageForm(h, path, args, a);
    case Bundle(hi, lo, items) =>
      forall atoms
        ensures TidyItems(h, atoms) && AtomPackets(h, atoms) == Some(CanonItems(items)) <==>
                atoms == ItemAtoms(h, items)
      {
        ItemsForm(h, items, atoms);
      }
      BundleForm(h, hi, lo, CanonItems(items), ItemAtoms(h, items), a);
  }

  lemma {:induction false} ItemsForm(h: Host, ps: Packets, atoms: Atoms)
    requires OkPackets(ps) && ItemsKnown(h, ps)
    ensures TidyItems(h, atoms) && AtomPackets(h, atoms) == Some(CanonItems(ps)) <==> atoms == ItemAtoms(h, ps)
    decreases ps
  {
    hide AtomPacket, PacketAtom, Size, Tidy;
    if ps.More? && atoms.ACons? {
      ForgedExactly(h, ps.head, atoms.head);
      ItemsForm(h, ps.tail, atoms.tail);
    }
  }
}
