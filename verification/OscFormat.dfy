/**
 The numbers and characters of OSC 1.0 written out, and what the reader makes of packets that no
 writer produces: unknown types, arguments cut off, bytes left over.
 */
module OscFormat {
  import opened Bytes
  import opened OscDecode
  import opened OscPacket
  import opened Urid

  // ---- characters ----

  /** i f s b T F N I h d t S c m r in ASCII. */
  lemma TypeTagIs(a: Arg)
    ensures TypeTag(a) as int ==
            match a
            case I32(_) => 0x69
            case F32(_) => 0x66
            case Str(_) => 0x73
            case Blob(_) => 0x62
            case True => 0x54
            case False => 0x46
            case Nil => 0x4E
            case Impulse => 0x49
            case I64(_, _) => 0x68
            case F64(_, _) => 0x64
            case Time(_, _) => 0x74
            case Sym(_) => 0x53
            case Chr(_) => 0x63
            case Midi(_, _, _, _) => 0x6D
            case Rgba(_, _, _, _) => 0x72
  {
  }

  const TYPES: seq<byte> :=
    [0x69, 0x66, 0x73, 0x62, 0x54, 0x46, 0x4E, 0x49, 0x68, 0x64, 0x74, 0x53, 0x63, 0x6D, 0x72]

  /** Exactly the other types are skipped. */
  lemma UnknownType(tag: byte, s: seq<byte>)
    ensures tag !in TYPES ==> ReadArg(tag, s) == Got(None, s)
    ensures tag in TYPES ==> ReadArg(tag, s).Fail? || ReadArg(tag, s).value.Some?
  {
    hide ReadText, ReadBlob, FromBe32, SignedChar;
  }

  const HASH_BUNDLE: seq<byte> := [0x23, 0x62, 0x75, 0x6E, 0x64, 0x6C, 0x65, 0x00]

  /** A buffer is a bundle exactly if it starts with #bundle and a NUL, a message exactly if it starts with a slash. */
  lemma KindOf(b: seq<byte>)
    ensures IsBundle(b) <==> |b| >= 8 && b[..8] == HASH_BUNDLE
    ensures IsMessage(b) <==> |b| >= 1 && b[0] == 0x2F
    ensures !(IsBundle(b) && IsMessage(b))
  {
    assert |b| >= 8 ==> b[..8][0] == b[0];
  }

  /** Seconds and fraction lie behind the name, each in network byte order, then the items. */
  lemma BundleStarts(hi: word, lo: word, items: Packets, was: seq<byte>)
    requires EncodableItems(items) && |was| == 16 + ItemsSize(items)
    ensures var b := Enc(Bundle(hi, lo, items), was);
            && b[..8] == HASH_BUNDLE
            && b[8..12] == Be32(hi) && b[12..16] == Be32(lo) && b[16..] == EncItems(items, was[16..])
  {
    hide Be32, EncItems;
  }

  /** The path, a comma and one character for each argument, and the arguments. */
  lemma MessageStarts(path: Text, args: seq<Arg>, was: seq<byte>)
    requires IsText(path) && OkArgs(args) && |was| == Size(Message(path, args))
    ensures var b, n, k := Enc(Message(path, args), was), TextSize(|path|), TextSize(1 + |args|);
            && n + k <= |b| && b[..n] == EncText(path) && b[n..n + k] == EncText([0x2C] + Tags(args))
            && b[n + k..] == EncArgs(args, was[n + k..])
  {
    hide EncArgs, TextSize, OkArgs, EncText, Tags;
    var n, k := TextSize(|path|), TextSize(1 + |args|);
    assert |COMMA + Tags(args)| == 1 + |args|;
    var x, y, z := EncText(path), EncText(COMMA + Tags(args)), EncArgs(args, was[n + k..]);
    assert Enc(Message(path, args), was) == x + y + z;
    assert (x + y + z)[..n] == x && (x + y + z)[n..n + k] == y && (x + y + z)[n + k..] == z;
  }

  /** A string is followed by one to four NULs. */
  lemma TextParts(s: Text)
    ensures var b := EncText(s);
            |s| < |b| <= |s| + 4 && b[..|s|] == s && forall i :: |s| <= i < |b| ==> b[i] == 0
  {
  }

  // ---- values ----

  const LOWER: seq<byte> :=
    [0x30, 0x31, 0x32, 0x33, 0x34, 0x35, 0x36, 0x37, 0x38, 0x39, 0x61, 0x62, 0x63, 0x64, 0x65, 0x66]

  const UPPER: seq<byte> :=
    [0x30, 0x31, 0x32, 0x33, 0x34, 0x35, 0x36, 0x37, 0x38, 0x39, 0x41, 0x42, 0x43, 0x44, 0x45, 0x46]

  /** A hexadecimal digit is read in either case, and nothing else is. */
  lemma UnHexIs(b: byte, n: nat)
    ensures UnHex(b) == Some(n) <==> n < 16 && (b == LOWER[n] || b == UPPER[n])
  {
  }

  lemma HexDigitIs(n: nat)
    requires n < 16
    ensures HexDigit(n) == LOWER[n]
  {
  }

  /** A char is widened with its sign, and cut off again. */
  lemma CharIs(c: int, b: byte)
    requires -128 <= c < 128
    ensures CharWord(c) as int == c || CharWord(c) as int == c + 0x1_0000_0000
    ensures -128 <= SignedChar(b) < 128 && (SignedChar(b) == b || SignedChar(b) == b - 256)
  {
  }

  /** The i-th property. */
  function PropAt(props: Props, i: nat): Option<(Key, Atom)> {
    match props
    case PNil => None
    case PCons(k, v, rest) => if i == 0 then Some((k, v)) else PropAt(rest, i - 1)
  }

  /** The value of a key is that of its first property. */
  lemma {:induction false} LookupIs(props: Props, key: Key, v: Atom)
    ensures Lookup(props, key) == Some(v) <==> exists i: nat :: FirstAt(props, i, key, v)
    decreases props
  {
    if props.PCons? {
      LookupIs(props.rest, key, v);
      if props.key == key {
        assert HasKey(props, 0, key);
        assert FirstAt(props, 0, key, props.value);
      } else {
        LaterFirst(props, key, v);
      }
    }
  }

  lemma LaterFirst(props: Props, key: Key, v: Atom)
    requires props.PCons? && props.key != key
    ensures (exists i: nat :: FirstAt(props.rest, i, key, v)) <==> (exists i: nat :: FirstAt(props, i, key, v))
  {
    hide FirstAt;
    var rest := props.rest;
    if i: nat :| FirstAt(rest, i, key, v) {
      FirstShifts(props, i, key, v);
    }
    if i: nat :| FirstAt(props, i, key, v) {
      NotTheFirst(props, i, key, v);
      FirstShifts(props, i - 1, key, v);
    }
  }

  lemma NotTheFirst(props: Props, i: nat, key: Key, v: Atom)
    requires props.PCons? && props.key != key && FirstAt(props, i, key, v)
    ensures i > 0
  {
  }

  lemma FirstShifts(props: Props, i: nat, key: Key, v: Atom)
    requires props.PCons? && props.key != key
    ensures FirstAt(props.rest, i, key, v) <==> FirstAt(props, i + 1, key, v)
  {
    var rest := props.rest;
    if FirstAt(rest, i, key, v) {
      forall j: nat | j < i + 1 ensures !HasKey(props, j, key) {
        assert j > 0 ==> !HasKey(rest, j - 1, key);
      }
    }
    if FirstAt(props, i + 1, key, v) {
      forall j: nat | j < i ensures !HasKey(rest, j, key) {
        assert !HasKey(props, j + 1, key);
      }
    }
  }

  predicate FirstAt(props: Props, i: nat, key: Key, v: Atom) {
    PropAt(props, i) == Some((key, v)) && forall j: nat :: j < i ==> !HasKey(props, j, key)
  }

  predicate HasKey(props: Props, i: nat, key: Key) {
    PropAt(props, i).Some? && PropAt(props, i).value.0 == key
  }

  /** A timetag object whose halves are not both there, as longs, means immediately. */
  lemma TimetagIs(props: Props)
    ensures var i, f := Lookup(props, TimetagIntegral), Lookup(props, TimetagFraction);
            && (i.Some? && i.value.ALong? && f.Some? && f.value.ALong? ==> Timetag(props) == (i.value.lo, f.value.lo))
            && (i.None? || f.None? || !i.value.ALong? || !f.value.ALong? ==> Timetag(props) == (0, 1))
  {
    hide Lookup;
  }

  /** Any number but 0 is true. */
  lemma BoolIs(h: Host, w: word)
    ensures AtomArg(h, ABool(w)) == Some(False) && ArgType(ABool(w)) == 0x46 <==> w == 0
    ensures AtomArg(h, ABool(w)) == Some(True) && ArgType(ABool(w)) == 0x54 <==> w != 0
  {
  }

  /** Atoms that no forge makes but the writer takes: texts that do not matter, and none where one should be. */
  lemma OtherAtoms(h: Host, t: Text, data: seq<byte>, u: word)
    ensures AtomArg(h, ALiteral(OscNil, t)) == Some(Nil) && AtomArg(h, ALiteral(OscImpulse, t)) == Some(Impulse)
    ensures AtomArg(h, ALiteral(OscChar, t)) == Some(Chr(if t == [] then 0 else SignedChar(t[0])))
    ensures AtomArg(h, AChunk(data)) == if |data| < 0x8000_0000 then Some(Blob(data)) else None
    ensures AtomArg(h, AUrid(u)).Some? <==> h.unmap(u).Some?
    ensures AtomArg(h, AMidi(data)) == if |data| == 3 then Some(Midi(0, data[0], data[1], data[2])) else None
  {
    hide SignedChar, CText;
  }

  predicate IsHexDigit(b: byte) {
    exists n :: 0 <= n < 16 && (b == LOWER[n] || b == UPPER[n])
  }

  /** A colour is eight hexadecimal digits, two for each part, in either case. */
  lemma ColourIs(h: Host, t: Text)
    ensures AtomArg(h, ALiteral(OscRgba, t)).Some? <==> |t| == 8 && forall i :: 0 <= i < 8 ==> IsHexDigit(t[i])
    ensures AtomArg(h, ALiteral(OscRgba, t)).Some? ==>
              var c := AtomArg(h, ALiteral(OscRgba, t)).value;
              && c.Rgba? && UnHex2(t[0], t[1]) == Some(c.r) && UnHex2(t[2], t[3]) == Some(c.g)
              && UnHex2(t[4], t[5]) == Some(c.b) && UnHex2(t[6], t[7]) == Some(c.a)
  {
    hide UnHex2, IsHexDigit;
    if |t| == 8 {
      TwoDigits(t[0], t[1]);
      TwoDigits(t[2], t[3]);
      TwoDigits(t[4], t[5]);
      TwoDigits(t[6], t[7]);
    }
  }

  /** The first digit counts sixteen. */
  lemma TwoDigits(x: byte, y: byte)
    ensures UnHex2(x, y).Some? <==> IsHexDigit(x) && IsHexDigit(y)
    ensures UnHex2(x, y).Some? ==>
              UnHex(x).Some? && UnHex(y).Some? && UnHex2(x, y).value == 16 * UnHex(x).value + UnHex(y).value
  {
    hide UnHex;
    OneDigit(x);
    OneDigit(y);
  }

  lemma OneDigit(b: byte)
    ensures IsHexDigit(b) <==> UnHex(b).Some?
    ensures UnHex(b).Some? ==> UnHex(b).value < 16
  {
    if UnHex(b).Some? {
      UnHexIs(b, UnHex(b).value);
    }
    if n :| 0 <= n < 16 && (b == LOWER[n] || b == UPPER[n]) {
      UnHexIs(b, n);
    }
  }

  /** An object is a message exactly if it has a path and arguments that all stand for one, wherever they are. */
  lemma MessageIs(h: Host, props: Props)
    ensures var path, args := Lookup(props, MessagePath), Lookup(props, MessageArguments);
            && (AtomPacket(h, AObject(OscMessage, props)).Some? <==>
                  && path.Some? && path.value.AString? && args.Some? && args.value.ATuple?
                  && AtomArgs(h, args.value.items).Some?)
            && (AtomPacket(h, AObject(OscMessage, props)).Some? ==>
                  AtomPacket(h, AObject(OscMessage, props)).value ==
                  Message(CText(path.value.s), AtomArgs(h, args.value.items).value))
  {
    hide Lookup, AtomArgs, CText;
  }

  /** A bundle exactly if it has a timetag and items that all stand for a packet, and one at least. */
  lemma BundleIs(h: Host, props: Props)
    ensures var tag, items := Lookup(props, BundleTimetag), Lookup(props, BundleItems);
            && (AtomPacket(h, AObject(OscBundle, props)).Some? <==>
                  && tag.Some? && tag.value.AObject? && tag.value.otype == OscTimetag
                  && items.Some? && items.value.ATuple? && items.value.items.ACons?
                  && AtomPackets(h, items.value.items).Some?)
            && (AtomPacket(h, AObject(OscBundle, props)).Some? ==>
                  var (hi, lo) := Timetag(tag.value.props);
                  AtomPacket(h, AObject(OscBundle, props)).value ==
                  Bundle(hi, lo, AtomPackets(h, items.value.items).value))
  {
    hide Lookup, Timetag;
    LookupSmaller(props, BundleItems);
    hide AtomPacket;
    BundleUnfolds(h, props);
  }

  lemma BundleUnfolds(h: Host, props: Props)
    ensures var tag, items := Lookup(props, BundleTimetag), Lookup(props, BundleItems);
            AtomPacket(h, AObject(OscBundle, props)) ==
            if tag.Some? && tag.value.AObject? && tag.value.otype == OscTimetag && items.Some? && items.value.ATuple?
               && AtomPackets(h, items.value.items).Some? && AtomPackets(h, items.value.items).value.More?
            then Some(Bundle(Timetag(tag.value.props).0, Timetag(tag.value.props).1,
                             AtomPackets(h, items.value.items).value))
            else None
  {
    hide Lookup, Timetag, AtomPackets;
    LookupSmaller(props, BundleItems);
  }

  // ---- packets that no writer produces ----

  /** The known ones among the types are those of the arguments, in order. */
  predicate Interleaved(types: Text, args: seq<Arg>) {
    if types == [] then args == []
    else if types[0] !in TYPES then Interleaved(types[1..], args)
    else args != [] && types[0] == TypeTag(args[0]) && Interleaved(types[1..], args[1..])
  }

  /** Unknown types are passed over without touching the bytes. */
  lemma {:induction false} UnknownTypesSkipped(types: Text, args: seq<Arg>, was: seq<byte>, tail: seq<byte>)
    requires OkArgs(args) && |was| == ArgsSize(args) && Interleaved(types, args)
    ensures ReadArgs(types, EncArgs(args, was) + tail) == (args, tail)
    decreases |types|
  {
    hide ArgSize, EncArg, ReadArg, TypeTag;
    if types == [] {
      assert EncArgs(args, was) + tail == tail;
    } else if types[0] !in TYPES {
      UnknownType(types[0], EncArgs(args, was) + tail);
      UnknownTypesSkipped(types[1..], args, was, tail);
    } else {
      var n := ArgSize(args[0]);
      var more := EncArgs(args[1..], was[n..]) + tail;
      ArgReads(args[0], was[..n], more);
      UnknownTypesSkipped(types[1..], args[1..], was[n..], tail);
      assert EncArgs(args, was) + tail == EncArg(args[0], was[..n]) + more;
      OneRead(types, EncArgs(args, was) + tail, args[0], more);
      assert [args[0]] + args[1..] == args;
    }
  }

  /** Where the next argument cannot be read, the arguments before it are the whole list. */
  lemma {:induction false} CutOff(args: seq<Arg>, was: seq<byte>, types: Text, part: seq<byte>)
    requires OkArgs(args) && |was| == ArgsSize(args) && types != [] && ReadArg(types[0], part).Fail?
    ensures ReadArgs(Tags(args) + types, EncArgs(args, was) + part) == (args, part)
    decreases |args|
  {
    hide ArgSize, EncArg, ReadArg, TypeTag, OkArg;
    if args == [] {
      assert EncArgs(args, was) + part == part && Tags(args) + types == types;
    } else {
      var n := ArgSize(args[0]);
      var more := EncArgs(args[1..], was[n..]) + part;
      ArgReads(args[0], was[..n], more);
      CutOff(args[1..], was[n..], types, part);
      assert EncArgs(args, was) + part == EncArg(args[0], was[..n]) + more;
      assert (Tags(args) + types)[0] == TypeTag(args[0]) && (Tags(args) + types)[1..] == Tags(args[1..]) + types;
      OneRead(Tags(args) + types, EncArgs(args, was) + part, args[0], more);
      assert [args[0]] + args[1..] == args;
    }
  }

  lemma OneRead(types: Text, s: seq<byte>, a: Arg, rest: seq<byte>)
    requires types != [] && ReadArg(types[0], s) == Got(Some(a), rest)
    ensures ReadArgs(types, s) == ([a] + ReadArgs(types[1..], rest).0, ReadArgs(types[1..], rest).1)
  {
    hide ReadArg;
  }

  /** An argument of which bytes are missing cannot be read. */
  lemma MissingBytes(a: Arg, was: seq<byte>, n: nat)
    requires OkArg(a) && |was| == ArgSize(a) && n < ArgSize(a)
    ensures ReadArg(TypeTag(a), EncArg(a, was)[..n]).Fail?
  {
    hide TextSize, Be32, FromBe32, EncText, CharWord, SignedChar, Pad4;
    match a
    case Str(s) => MissingText(s, n);
    case Sym(s) => MissingText(s, n);
    case Blob(data) =>
      var s := EncArg(a, was)[..n];
      if n >= 4 {
        Be32RoundTrip(|data|);
        assert s[..4] == Be32(|data|);
      }
    case _ =>
  }

  lemma MissingText(s: Text, n: nat)
    requires IsText(s) && n < TextSize(|s|)
    ensures ReadText(EncText(s)[..n]).Fail?
  {
    hide TextSize, TextEnd;
    TextRoom(|s|);
    var part := EncText(s)[..n];
    if n > |s| {
      assert part[..|s|] == s;
      TextEndAt(s, part);
    } else {
      assert part == s[..n] && IsText(part);
    }
  }

  /** What follows the last whole item of a bundle is passed over. */
  lemma {:induction false} LeftOver(ps: Packets, was: seq<byte>, tail: seq<byte>)
    requires OkPackets(ps) && |was| == ItemsSize(ps) && ReadSize(tail).Fail?
    ensures ReadItems(EncItems(ps, was) + tail) == Some(ps)
    ensures ps.More? ==> ReadSize(EncItems(ps, was) + tail).Got?
    decreases ps
  {
    hide Decode, Enc, Be32, FromBe32, ReadSize, Size;
    match ps
    case NoMore => assert EncItems(ps, was) + tail == tail;
    case More(p, rest) =>
      var n := Size(p);
      var x, y := Enc(p, was[4..4 + n]), EncItems(rest, was[4 + n..]) + tail;
      Decodes(p, was[4..4 + n]);
      LeftOver(rest, was[4 + n..], tail);
      ItemReads(n, x, y);
      assert EncItems(ps, was) + tail == Be32(n) + x + y;
  }

  /** Behind the last item that can be read another one that is no packet spoils the whole bundle. */
  lemma {:induction false} BadItem(ps: Packets, was: seq<byte>, x: seq<byte>, tail: seq<byte>)
    requires OkPackets(ps) && |was| == ItemsSize(ps) && |x| < 0x8000_0000 && Decode(x).None?
    ensures ReadItems(EncItems(ps, was) + (Be32(|x|) + x + tail)).None?
    ensures ReadSize(EncItems(ps, was) + (Be32(|x|) + x + tail)).Got?
    decreases ps
  {
    hide Decode, Enc, Be32, FromBe32, ReadSize, Size;
    match ps
    case NoMore =>
      assert EncItems(ps, was) + (Be32(|x|) + x + tail) == Be32(|x|) + x + tail;
      ItemReads(|x|, x, tail);
    case More(p, rest) =>
      var n := Size(p);
      var e, more := Enc(p, was[4..4 + n]), EncItems(rest, was[4 + n..]) + (Be32(|x|) + x + tail);
      Decodes(p, was[4..4 + n]);
      BadItem(rest, was[4 + n..], x, tail);
      ItemReads(n, e, more);
      assert EncItems(ps, was) + (Be32(|x|) + x + tail) == Be32(n) + e + more;
  }

  /** A bundle is what its items are: bytes left over are ignored, a bad item or none at all makes it fail. */
  lemma BundleOf(hi: word, lo: word, s: seq<byte>)
    ensures Decode(HASH_BUNDLE + (Be32(hi) + Be32(lo)) + s) ==
            if ReadSize(s).Fail? || ReadItems(s).None? then None else Some(Bundle(hi, lo, ReadItems(s).value))
  {
    hide ReadSize, ReadItems, Be32, FromBe32;
    BundleHead(hi, lo, s);
  }

  /**
   A message is its path and the arguments that can be read. It fails when its types do not start
   with a comma or its first argument cannot be read.
   */
  lemma MessageOf(path: Text, types: Text, body: seq<byte>)
    requires IsText(path) && IsText(types) && path != [] && path[0] == 0x2F
    ensures Decode(EncText(path) + (EncText(types) + body)) ==
            if types == [] || types[0] != 0x2C || (|types| > 1 && ReadArg(types[1], body).Fail?) then None
            else Some(Message(path, ReadArgs(types[1..], body).0))
  {
    hide ReadArg, ReadArgs, ReadText, EncText, TextSize, IsBundle;
    TextReads(path, EncText(types) + body);
    TextReads(types, body);
    PathFirst(path, EncText(types) + body);
    KindOf(EncText(path) + (EncText(types) + body));
  }

  lemma PathFirst(path: Text, more: seq<byte>)
    requires path != []
    ensures EncText(path) + more != [] && (EncText(path) + more)[0] == path[0]
  {
    hide TextSize;
  }
}
