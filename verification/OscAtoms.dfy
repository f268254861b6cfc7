/**
 Packets and the atoms that carry them: turning one into the other and back, and how much room
 a packet takes compared with its atom.
 */
module OscAtoms {
  import opened Bytes
  import opened OscPacket
  import opened Urid

  // ---- there and back ----

  /** The port of a MIDI argument has no place in an atom; the writer always sends 0. */
  function CanonArg(a: Arg): Arg {
    match a
    case Midi(_, b1, b2, b3) => Midi(0, b1, b2, b3)
    case _ => a
  }

  function CanonArgs(args: seq<Arg>): (r: seq<Arg>)
    ensures |r| == |args| && forall i :: 0 <= i < |args| ==> r[i] == CanonArg(args[i])
  {
    if args == [] then [] else [CanonArg(args[0])] + CanonArgs(args[1..])
  }

  function Canon(p: Packet): Packet
    decreases p
  {
    match p
    case Message(path, args) => Message(path, CanonArgs(args))
    case Bundle(hi, lo, items) => Bundle(hi, lo, CanonItems(items))
  }

  function CanonItems(ps: Packets): Packets
    decreases ps
  {
    match ps
    case NoMore => NoMore
    case More(p, rest) => More(Canon(p), CanonItems(rest))
  }

  predicate ZeroPort(a: Arg) {
    a.Midi? ==> a.port == 0
  }

  predicate ZeroPorts(p: Packet)
    decreases p
  {
    match p
    case Message(_, args) => forall i :: 0 <= i < |args| ==> ZeroPort(args[i])
    case Bundle(_, _, items) => ItemsZeroPorts(items)
  }

  predicate ItemsZeroPorts(ps: Packets)
    decreases ps
  {
    match ps
    case NoMore => true
    case More(p, rest) => ZeroPorts(p) && ItemsZeroPorts(rest)
  }

  /** The host gives a symbol a number that it knows the symbol by. */
  predicate KnownArg(h: Host, a: Arg) {
    a.Sym? ==> h.unmap(h.map_(a.s)).Some? && CText(h.unmap(h.map_(a.s)).value) == a.s
  }

  predicate KnownArgs(h: Host, args: seq<Arg>) {
    forall i :: 0 <= i < |args| ==> KnownArg(h, args[i])
  }

  predicate Known(h: Host, p: Packet)
    decreases p
  {
    match p
    case Message(_, args) => KnownArgs(h, args)
    case Bundle(_, _, items) => ItemsKnown(h, items)
  }

  predicate ItemsKnown(h: Host, ps: Packets)
    decreases ps
  {
    match ps
    case NoMore => true
    case More(p, rest) => Known(h, p) && ItemsKnown(h, rest)
  }

  lemma HexBack(b: byte)
    ensures UnHex2(Hex2(b)[0], Hex2(b)[1]) == Some(b)
  {
    var x, y := b / 16, b % 16;
    HexDigitBack(x);
    HexDigitBack(y);
    assert 16 * x + y == b;
  }

  lemma HexDigitBack(n: nat)
    requires n < 16
    ensures UnHex(HexDigit(n)) == Some(n)
  {
  }

  lemma RgbaBack(h: Host, r: byte, g: byte, b: byte, a: byte)
    ensures AtomArg(h, ArgAtom(h, Rgba(r, g, b, a))) == Some(Rgba(r, g, b, a))
  {
    hide HexDigit, UnHex2;
    HexBack(r);
    HexBack(g);
    HexBack(b);
    HexBack(a);
    var t := Hex2(r) + Hex2(g) + Hex2(b) + Hex2(a);
    assert t[0] == Hex2(r)[0] && t[1] == Hex2(r)[1] && t[2] == Hex2(g)[0] && t[3] == Hex2(g)[1];
    assert t[4] == Hex2(b)[0] && t[5] == Hex2(b)[1] && t[6] == Hex2(a)[0] && t[7] == Hex2(a)[1];
  }

  lemma TimetagBack(hi: word, lo: word)
    ensures Timetag(TimetagAtom(hi, lo).props) == (hi, lo)
  {
    var props := TimetagAtom(hi, lo).props;
    assert Lookup(props, TimetagIntegral) == Some(ALong(0, hi));
    assert Lookup(props.rest, TimetagFraction) == Some(ALong(0, lo));
  }

  /** An argument comes back from its atom, but for the port of a MIDI message. */
  lemma ArgBack(h: Host, a: Arg)
    requires OkArg(a) && KnownArg(h, a)
    ensures AtomArg(h, ArgAtom(h, a)) == Some(CanonArg(a))
  {
    hide Hex2, UnHex2, CharWord, SignedChar;
    match a
    case Rgba(r, g, b, x) => RgbaBack(h, r, g, b, x);
    case Chr(c) => CharBack(c);
    case Time(hi, lo) => TimetagBack(hi, lo);
    case _ =>
  }

  lemma {:induction false} ArgsBack(h: Host, args: seq<Arg>)
    requires OkArgs(args) && KnownArgs(h, args)
    ensures AtomArgs(h, ArgAtoms(h, args)) == Some(CanonArgs(args))
  {
    hide AtomArg, ArgAtom;
    if args != [] {
      ArgBack(h, args[0]);
      ArgsBack(h, args[1..]);
    }
  }

  lemma MessageBack(h: Host, path: Text, args: Atoms)
    requires IsText(path)
    ensures AtomArgs(h, args).Some? ==>
              AtomPacket(h, MessageAtom(path, args)) == Some(Message(path, AtomArgs(h, args).value))
  {
    hide AtomArgs;
    var props := MessageAtom(path, args).props;
    assert Lookup(props, MessagePath) == Some(AString(path));
    assert Lookup(props.rest, MessageArguments) == Some(ATuple(args));
  }

  lemma BundleBack(h: Host, hi: word, lo: word, items: Atoms)
    ensures AtomPackets(h, items).Some? && AtomPackets(h, items).value.More? ==>
              AtomPacket(h, BundleAtom(hi, lo, items)) == Some(Bundle(hi, lo, AtomPackets(h, items).value))
  {
    hide AtomPackets, AtomArgs;
    TimetagBack(hi, lo);
    var props := BundleAtom(hi, lo, items).props;
    assert Lookup(props, BundleTimetag) == Some(TimetagAtom(hi, lo));
    assert Lookup(props.rest, BundleItems) == Some(ATuple(items));
  }

  /** A packet carried as an atom and taken out of it again is the packet, with its MIDI ports cleared. */
  lemma {:induction false} PacketBack(h: Host, p: Packet)
    requires OkPacket(p) && Known(h, p)
    ensures AtomPacket(h, PacketAtom(h, p)) == Some(Canon(p))
    decreases p
  {
    hide AtomPacket, MessageAtom, BundleAtom;
    match p
    case Message(path, args) =>
      ArgsBack(h, args);
      MessageBack(h, path, ArgAtoms(h, args));
    case Bundle(hi, lo, items) =>
      ItemsBack(h, items);
      BundleBack(h, hi, lo, ItemAtoms(h, items));
  }

  lemma {:induction false} ItemsBack(h: Host, ps: Packets)
    requires OkPackets(ps) && ItemsKnown(h, ps)
    ensures AtomPackets(h, ItemAtoms(h, ps)) == Some(CanonItems(ps))
    decreases ps
  {
    hide AtomPacket, PacketAtom, Size;
    match ps
    case NoMore =>
    case More(p, rest) =>
      PacketBack(h, p);
      ItemsBack(h, rest);
  }

  lemma {:induction false} CanonExactly(p: Packet)
    ensures Canon(p) == p <==> ZeroPorts(p)
    decreases p
  {
    match p
    case Message(_, args) =>
      if Canon(p) == p {
        assert forall i :: 0 <= i < |args| ==> CanonArgs(args)[i] == CanonArg(args[i]);
      } else {
        var k :| 0 <= k < |args| && CanonArgs(args)[k] != args[k];
        assert !ZeroPort(args[k]);
      }
    case Bundle(_, _, items) => CanonItemsExactly(items);
  }

  lemma {:induction false} CanonItemsExactly(ps: Packets)
    ensures CanonItems(ps) == ps <==> ItemsZeroPorts(ps)
    decreases ps
  {
    match ps
    case NoMore =>
    case More(p, rest) =>
      CanonExactly(p);
      CanonItemsExactly(rest);
  }

  /** An argument comes back exactly if it is no MIDI message for another port and no unknown symbol. */
  lemma ArgExactly(h: Host, a: Arg)
    requires OkArg(a)
    ensures AtomArg(h, ArgAtom(h, a)) == Some(a) <==> ZeroPort(a) && KnownArg(h, a)
  {
    if KnownArg(h, a) {
      ArgBack(h, a);
      hide AtomArg;
    } else {
      hide CText;
    }
  }

  lemma {:induction false} ArgsExactly(h: Host, args: seq<Arg>)
    requires OkArgs(args)
    ensures AtomArgs(h, ArgAtoms(h, args)) == Some(args)
            <==> forall i :: 0 <= i < |args| ==> ZeroPort(args[i]) && KnownArg(h, args[i])
  {
    hide AtomArg, ArgAtom, ZeroPort, KnownArg;
    if args != [] {
      var a, rest := args[0], args[1..];
      ArgExactly(h, a);
      ArgsExactly(h, rest);
      ArgsOfBoth(h, a, rest);
      assert args == [a] + rest;
      assert forall i :: 0 <= i < |rest| ==> rest[i] == args[i + 1];
    }
  }

  lemma ArgsOfBoth(h: Host, a: Arg, rest: seq<Arg>)
    ensures AtomArgs(h, ArgAtoms(h, [a] + rest)) == Some([a] + rest) <==>
            AtomArg(h, ArgAtom(h, a)) == Some(a) && AtomArgs(h, ArgAtoms(h, rest)) == Some(rest)
  {
    hide AtomArg, ArgAtom;
    assert ([a] + rest)[0] == a && ([a] + rest)[1..] == rest;
    var x, xs := AtomArg(h, ArgAtom(h, a)), AtomArgs(h, ArgAtoms(h, rest));
    if x.Some? && xs.Some? {
      assert ([x.value] + xs.value)[0] == x.value && ([x.value] + xs.value)[1..] == xs.value;
    }
  }

  lemma MessageExactly(h: Host, path: Text, args: Atoms, xs: seq<Arg>)
    requires IsText(path)
    ensures AtomPacket(h, MessageAtom(path, args)) == Some(Message(path, xs)) <==> AtomArgs(h, args) == Some(xs)
  {
    hide AtomArgs;
    MessageBack(h, path, args);
    var props := MessageAtom(path, args).props;
    assert Lookup(props, MessagePath) == Some(AString(path));
    assert Lookup(props.rest, MessageArguments) == Some(ATuple(args));
  }

  lemma BundleExactly(h: Host, hi: word, lo: word, items: Atoms, ps: Packets)
    requires ps.More?
    ensures AtomPacket(h, BundleAtom(hi, lo, items)) == Some(Bundle(hi, lo, ps)) <==> AtomPackets(h, items) == Some(ps)
  {
    hide AtomPackets, AtomArgs;
    TimetagBack(hi, lo);
    var props := BundleAtom(hi, lo, items).props;
    assert Lookup(props, BundleTimetag) == Some(TimetagAtom(hi, lo));
    assert Lookup(props.rest, BundleItems) == Some(ATuple(items));
  }

  /** The trip through an atom loses nothing exactly if every MIDI port is 0 and the host knows every symbol. */
  lemma {:induction false} RoundTripExactly(h: Host, p: Packet)
    requires OkPacket(p)
    ensures AtomPacket(h, PacketAtom(h, p)) == Some(p) <==> ZeroPorts(p) && Known(h, p)
    decreases p
  {
    hide AtomPacket, MessageAtom, BundleAtom, ZeroPort, KnownArg;
    match p
    case Message(path, args) =>
      ArgsExactly(h, args);
      MessageExactly(h, path, ArgAtoms(h, args), args);
    case Bundle(hi, lo, items) =>
      ItemsExactly(h, items);
      BundleExactly(h, hi, lo, ItemAtoms(h, items), items);
  }

  lemma {:induction false} ItemsExactly(h: Host, ps: Packets)
    requires OkPackets(ps)
    ensures AtomPackets(h, ItemAtoms(h, ps)) == Some(ps) <==> ItemsZeroPorts(ps) && ItemsKnown(h, ps)
    decreases ps
  {
    hide AtomPacket, PacketAtom, Size;
    match ps
    case NoMore =>
    case More(p, rest) =>
      RoundTripExactly(h, p);
      ItemsExactly(h, rest);
  }

  // ---- clearing the ports keeps sizes and validity ----

  lemma {:induction false} CanonArgsKeep(args: seq<Arg>)
    ensures ArgsSize(CanonArgs(args)) == ArgsSize(args)
    ensures OkArgs(args) ==> OkArgs(CanonArgs(args))
  {
    hide TextSize;
    if args != [] {
      CanonArgsKeep(args[1..]);
      assert CanonArgs(args)[1..] == CanonArgs(args[1..]);
      assert ArgSize(CanonArg(args[0])) == ArgSize(args[0]);
    }
    forall i | 0 <= i < |args| && OkArgs(args) ensures OkArg(CanonArgs(args)[i]) {
      assert OkArg(args[i]);
    }
  }

  lemma {:induction false} CanonKeeps(p: Packet)
    ensures Size(Canon(p)) == Size(p)
    ensures OkPacket(p) ==> OkPacket(Canon(p))
    decreases p
  {
    hide TextSize, CanonArgs, OkArgs, ArgsSize;
    match p
    case Message(_, args) => CanonArgsKeep(args);
    case Bundle(_, _, items) => CanonItemsKeep(items);
  }

  lemma {:induction false} CanonItemsKeep(ps: Packets)
    ensures ItemsSize(CanonItems(ps)) == ItemsSize(ps)
    ensures OkPackets(ps) ==> OkPackets(CanonItems(ps))
    decreases ps
  {
    match ps
    case NoMore =>
    case More(p, rest) =>
      CanonKeeps(p);
      CanonItemsKeep(rest);
  }

  // ---- the reserve ----

  /** The size field of an atom: what lies behind its header. */
  function BodySize(a: Atom): nat
    decreases a
  {
    match a
    case AInt(_) | AFloat(_) | ABool(_) | AUrid(_) => 4
    case ALong(_, _) | ADouble(_, _) => 8
    case AString(s) => |s| + 1
    case AChunk(data) => |data|
    case AMidi(data) => |data|
    case ALiteral(_, text) => 8 + |text| + 1
    case AObject(_, props) => 8 + PropsSize(props)
    case ATuple(items) => TupleSize(items)
    case AOther(size) => size
  }

  /** Every property is a key, a context and a padded atom. */
  function PropsSize(props: Props): nat
    decreases props
  {
    match props
    case PNil => 0
    case PCons(_, v, rest) => 16 + Pad8(BodySize(v)) + PropsSize(rest)
  }

  function TupleSize(items: Atoms): nat
    decreases items
  {
    match items
    case ANil => 0
    case ACons(a, rest) => 8 + Pad8(BodySize(a)) + TupleSize(rest)
  }

  const SHORT: nat := 11

  predicate ShortSymbol(a: Arg, n: nat) {
    a.Sym? ==> |a.s| <= n
  }

  /** No symbol is longer than n characters; there may be none at all. */
  predicate ShortSymbols(p: Packet, n: nat)
    decreases p
  {
    match p
    case Message(_, args) => forall i :: 0 <= i < |args| ==> ShortSymbol(args[i], n)
    case Bundle(_, _, items) => ItemsShortSymbols(items, n)
  }

  predicate ItemsShortSymbols(ps: Packets, n: nat)
    decreases ps
  {
    match ps
    case NoMore => true
    case More(p, rest) => ShortSymbols(p, n) && ItemsShortSymbols(rest, n)
  }

  lemma PadLeast(n: nat, k: nat)
    requires n <= 4 * k
    ensures Pad4(n) <= 4 * k
  {
  }

  lemma PadOrder(n: nat)
    ensures TextSize(n) <= Pad8(n + 1) && Pad4(n) <= Pad8(n)
    ensures n <= SHORT ==> TextSize(n) <= 12
    ensures TextSize(n) <= n + 4
  {
    hide Pad4;
    PadLeast(n, 2 * ((n + 7) / 8));
    PadLeast(n + 1, 2 * ((n + 8) / 8));
    if n <= SHORT {
      PadLeast(n + 1, 3);
    }
  }

  lemma TextGrows(m: nat, n: nat)
    requires m <= n
    ensures TextSize(m) <= TextSize(n)
  {
  }

  lemma ArgFits(h: Host, a: Atom)
    requires AtomArg(h, a).Some? && ShortSymbol(AtomArg(h, a).value, SHORT)
    ensures ArgSize(AtomArg(h, a).value) + 1 <= 8 + Pad8(BodySize(a))
  {
    hide TextSize, Pad4, UnHex2, SignedChar, Lookup, PropsSize, TupleSize;
    match a
    case AString(s) =>
      PadOrder(|s|);
      TextGrows(|CText(s)|, |s|);
    case AChunk(data) => PadOrder(|data|);
    case AUrid(u) => PadOrder(|CText(h.unmap(u).value)|);
    case _ =>
  }

  lemma {:induction false} ArgsFit(h: Host, atoms: Atoms)
    requires AtomArgs(h, atoms).Some?
    requires forall i :: 0 <= i < |AtomArgs(h, atoms).value| ==> ShortSymbol(AtomArgs(h, atoms).value[i], SHORT)
    ensures ArgsSize(AtomArgs(h, atoms).value) + |AtomArgs(h, atoms).value| <= TupleSize(atoms)
  {
    hide AtomArg, ArgSize, BodySize, Pad8;
    match atoms
    case ANil =>
    case ACons(a, rest) =>
      var xs := AtomArgs(h, atoms).value;
      assert xs[0] == AtomArg(h, a).value && xs[1..] == AtomArgs(h, rest).value;
      ArgFits(h, a);
      ArgsFit(h, rest);
  }

  /** Two different properties are in two different places. */
  lemma {:induction false} TwoProps(props: Props, j: Key, k: Key)
    requires Lookup(props, j).Some?
    ensures PropsSize(props) >= 16 + Pad8(BodySize(Lookup(props, j).value))
    ensures j != k && Lookup(props, k).Some? ==>
              PropsSize(props) >= 32 + Pad8(BodySize(Lookup(props, j).value)) + Pad8(BodySize(Lookup(props, k).value))
  {
    hide BodySize, Pad8;
    if props.key != j {
      TwoProps(props.rest, j, k);
    } else if j != k && Lookup(props, k).Some? {
      TwoProps(props.rest, k, k);
    }
  }

  lemma MessageParts(h: Host, props: Props)
    requires AtomPacket(h, AObject(OscMessage, props)).Some?
    ensures Lookup(props, MessagePath).Some? && Lookup(props, MessagePath).value.AString?
    ensures Lookup(props, MessageArguments).Some? && Lookup(props, MessageArguments).value.ATuple?
    ensures AtomArgs(h, Lookup(props, MessageArguments).value.items).Some?
    ensures AtomPacket(h, AObject(OscMessage, props)).value ==
            Message(CText(Lookup(props, MessagePath).value.s),
                    AtomArgs(h, Lookup(props, MessageArguments).value.items).value)
  {
    hide Lookup, AtomArgs, CText;
  }

  lemma MessageFits(h: Host, props: Props)
    requires AtomPacket(h, AObject(OscMessage, props)).Some?
    requires ShortSymbols(AtomPacket(h, AObject(OscMessage, props)).value, SHORT)
    ensures Size(AtomPacket(h, AObject(OscMessage, props)).value) + 20 < 8 + PropsSize(props)
  {
    hide Lookup, TextSize, PropsSize, TupleSize, AtomArgs, ArgsSize, Pad8, CText, AtomPacket;
    MessageParts(h, props);
    var path := Lookup(props, MessagePath).value;
    var args := Lookup(props, MessageArguments).value;
    TwoProps(props, MessagePath, MessageArguments);
    ArgsFit(h, args.items);
    PadOrder(|path.s|);
    TextGrows(|CText(path.s)|, |path.s|);
    PadOrder(1 + |AtomArgs(h, args.items).value|);
  }

  lemma BundleParts(h: Host, props: Props)
    requires AtomPacket(h, AObject(OscBundle, props)).Some?
    ensures Lookup(props, BundleTimetag).Some? && Lookup(props, BundleTimetag).value.AObject?
    ensures Lookup(props, BundleItems).Some? && Lookup(props, BundleItems).value.ATuple?
    ensures AtomPackets(h, Lookup(props, BundleItems).value.items).Some?
    ensures AtomPacket(h, AObject(OscBundle, props)).value.Bundle?
    ensures AtomPacket(h, AObject(OscBundle, props)).value.items ==
            AtomPackets(h, Lookup(props, BundleItems).value.items).value
  {
    hide Lookup, AtomPackets;
  }

  /**
   The plugin reserves the body size of the object for its packet. That is always enough, with
   room for the writer's strict overflow test, as long as symbols are short.
   */
  lemma {:induction false} ReserveSuffices(h: Host, a: Atom)
    requires AtomPacket(h, a).Some? && ShortSymbols(AtomPacket(h, a).value, SHORT)
    ensures Size(AtomPacket(h, a).value) < BodySize(a)
    decreases a
  {
    hide Lookup, PropsSize, TupleSize, AtomPackets, AtomPacket, Pad8;
    assert a.AObject? && (a.otype == OscMessage || a.otype == OscBundle) by { OnlyPackets(h, a); }
    if a.otype == OscMessage {
      MessageFits(h, a.props);
    } else {
      BundleParts(h, a.props);
      var items := Lookup(a.props, BundleItems).value;
      TwoProps(a.props, BundleItems, BundleTimetag);
      LookupSmaller(a.props, BundleItems);
      ItemsFit(h, items.items);
    }
  }

  lemma OnlyPackets(h: Host, a: Atom)
    requires AtomPacket(h, a).Some?
    ensures a.AObject? && (a.otype == OscMessage || a.otype == OscBundle)
  {
  }

  lemma {:induction false} ItemsFit(h: Host, atoms: Atoms)
    requires AtomPackets(h, atoms).Some? && ItemsShortSymbols(AtomPackets(h, atoms).value, SHORT)
    ensures ItemsSize(AtomPackets(h, atoms).value) <= TupleSize(atoms)
    decreases atoms
  {
    hide AtomPacket, BodySize, Pad8;
    match atoms
    case ANil =>
    case ACons(a, rest) =>
      ReserveSuffices(h, a);
      ItemsFit(h, rest);
  }

  /** A symbol travels as its name but is carried as a number: 52 characters overflow the reserve. */
  lemma LongSymbol(h: Host, u: word, s: Text)
    requires h.unmap(u) == Some(s) && IsText(s)
    ensures var a := MessageAtom(['/' as int], ACons(AUrid(u), ANil));
            && AtomPacket(h, a) == Some(Message(['/' as int], [Sym(s)]))
            && (Size(AtomPacket(h, a).value) < BodySize(a) <==> |s| < 52)
  {
    var args := ACons(AUrid(u), ANil);
    assert AtomArgs(h, ANil) == Some([]);
    assert AtomArg(h, AUrid(u)) == Some(Sym(s));
    assert [Sym(s)] + [] == [Sym(s)];
    MessageBack(h, ['/' as int], args);
    assert ArgsSize([Sym(s)]) == TextSize(|s|);
    var tuple := PCons(MessageArguments, ATuple(args), PNil);
    assert TupleSize(ANil) == 0 && PropsSize(PNil) == 0;
    assert TupleSize(args) == 16;
    assert PropsSize(tuple) == 32;
    assert PropsSize(PCons(MessagePath, AString(['/' as int]), tuple)) == 56;
  }

  // ---- the bound on symbols is exact ----

  function Symbols(k: nat, s: Text): (r: seq<Arg>)
    ensures |r| == k && forall i :: 0 <= i < k ==> r[i] == Sym(s)
  {
    if k == 0 then [] else [Sym(s)] + Symbols(k - 1, s)
  }

  function Urids(k: nat, u: word): Atoms {
    if k == 0 then ANil else ACons(AUrid(u), Urids(k - 1, u))
  }

  /** A symbol takes 16 bytes of a tuple, whatever it is called. */
  lemma {:induction false} SymbolSizes(h: Host, k: nat, u: word, s: Text)
    requires h.unmap(u) == Some(s) && IsText(s)
    ensures AtomArgs(h, Urids(k, u)) == Some(Symbols(k, s))
    ensures TupleSize(Urids(k, u)) == 16 * k
    ensures ArgsSize(Symbols(k, s)) == k * TextSize(|s|)
  {
    hide TextSize, CText;
    if k > 0 {
      SymbolSizes(h, k - 1, u, s);
      assert AtomArg(h, AUrid(u)) == Some(Sym(s)) by { CTextOfText(s); }
      assert Symbols(k, s)[1..] == Symbols(k - 1, s);
      assert k * TextSize(|s|) == TextSize(|s|) + (k - 1) * TextSize(|s|);
    }
  }

  lemma CTextOfText(s: Text)
    requires IsText(s)
    ensures CText(s) == s
  {
  }

  const ROOT: Text := ['/' as int]

  /** A message of k symbols takes what its path, types and symbols take; its object grows by 16 bytes a symbol. */
  lemma SymbolsMessage(h: Host, k: nat, u: word, s: Text)
    requires h.unmap(u) == Some(s) && IsText(s)
    ensures var a := MessageAtom(ROOT, Urids(k, u));
            && AtomPacket(h, a) == Some(Message(ROOT, Symbols(k, s)))
            && Size(Message(ROOT, Symbols(k, s))) == 4 + TextSize(1 + k) + k * TextSize(|s|)
            && BodySize(a) == 48 + 16 * k
  {
    hide AtomArgs, ArgsSize, TupleSize, TextSize, AtomPacket, MessageAtom, BodySize, Symbols, Urids, IsText, Size;
    SymbolSizes(h, k, u, s);
    RootSizes(k);
    MessageBack(h, ROOT, Urids(k, u));
    MessageBody(k, u);
    MessageSize(Symbols(k, s));
  }

  lemma MessageSize(args: seq<Arg>)
    ensures Size(Message(ROOT, args)) == 4 + TextSize(1 + |args|) + ArgsSize(args)
  {
    hide ArgsSize;
    RootSizes(0);
  }

  lemma MessageBody(k: nat, u: word)
    requires TupleSize(Urids(k, u)) == 16 * k
    ensures BodySize(MessageAtom(ROOT, Urids(k, u))) == 48 + 16 * k
  {
    hide TupleSize, Urids, Pad8;
    RootSizes(k);
    var tuple := PCons(MessageArguments, ATuple(Urids(k, u)), PNil);
    assert BodySize(ATuple(Urids(k, u))) == 16 * k && BodySize(AString(ROOT)) == 2;
    assert PropsSize(PNil) == 0;
    assert PropsSize(tuple) == 16 + 16 * k;
    assert PropsSize(PCons(MessagePath, AString(ROOT), tuple)) == 16 + 8 + PropsSize(tuple);
  }

  lemma RootSizes(k: nat)
    ensures IsText(ROOT) && TextSize(|ROOT|) == 4 && Pad8(|ROOT| + 1) == 8 && Pad8(16 * k) == 16 * k
  {
  }

  ghost predicate Fits(h: Host, a: Atom, n: nat) {
    AtomPacket(h, a).Some? && ShortSymbols(AtomPacket(h, a).value, n) ==> Size(AtomPacket(h, a).value) < BodySize(a)
  }

  /** 39 symbols of 12 characters already need as much as the whole object takes. */
  lemma TooManySymbols(h: Host, u: word, s: Text)
    requires h.unmap(u) == Some(s) && IsText(s) && |s| > SHORT
    ensures !Fits(h, MessageAtom(ROOT, Urids(39, u)), |s|)
  {
    hide AtomPacket, MessageAtom, BodySize, Size, TextSize;
    SymbolsMessage(h, 39, u, s);
    LongText(|s|);
    assert ShortSymbols(Message(ROOT, Symbols(39, s)), |s|);
  }

  lemma LongText(n: nat)
    requires n > SHORT
    ensures TextSize(n) >= 16 && TextSize(40) == 44
  {
  }

  lemma {:induction false} StillShort(p: Packet, m: nat, n: nat)
    requires m <= n && ShortSymbols(p, m)
    ensures ShortSymbols(p, n)
    decreases p
  {
    match p
    case Message(_, args) =>
      forall i | 0 <= i < |args| ensures ShortSymbol(args[i], n) {
        assert ShortSymbol(args[i], m);
      }
    case Bundle(_, _, items) => ItemsStillShort(items, m, n);
  }

  lemma {:induction false} ItemsStillShort(ps: Packets, m: nat, n: nat)
    requires m <= n && ItemsShortSymbols(ps, m)
    ensures ItemsShortSymbols(ps, n)
    decreases ps
  {
    match ps
    case NoMore =>
    case More(p, rest) =>
      StillShort(p, m, n);
      ItemsStillShort(rest, m, n);
  }

  /** The reserve is enough for every object with symbols of at most n characters exactly if n is at most 11. */
  lemma ReserveBoundExactly(n: nat)
    ensures (forall h: Host, a: Atom :: Fits(h, a, n)) <==> n <= SHORT
  {
    hide AtomPacket, ShortSymbols, Size, BodySize;
    if n <= SHORT {
      forall h: Host, a: Atom ensures Fits(h, a, n) {
        if AtomPacket(h, a).Some? && ShortSymbols(AtomPacket(h, a).value, n) {
          StillShort(AtomPacket(h, a).value, n, SHORT);
          ReserveSuffices(h, a);
        }
      }
    } else {
      var s: Text := seq(n, _ => 'x' as int);
      var h := Host((t: seq<byte>) => 1, (u: word) => Some(s));
      TooManySymbols(h, 1, s);
    }
  }
}
