/**
 What the OSC reader and the forge make of any sequence of bytes, and that they recover every
 packet from its encoding.
 */
module OscDecode {
  import opened Bytes
  import opened OscPacket
  import opened Urid

  datatype Read<+T> = Fail | Got(value: T, rest: seq<byte>)

  // ---- reading one field off the front ----

  function ReadText(s: seq<byte>): Read<Text> {
    var n := TextEnd(s);
    if n < |s| && TextSize(n) <= |s| then Got(s[..n], s[TextSize(n)..]) else Fail
  }

  function ReadBlob(s: seq<byte>): Read<seq<byte>> {
    if |s| < 4 then Fail
    else
      var n := FromBe32(s[..4]);
      if n < 0x8000_0000 && 4 + Pad4(n) <= |s| then Got(s[4..4 + n], s[4 + Pad4(n)..]) else Fail
  }

  /** An item's size, with that many bytes behind it. */
  function ReadSize(s: seq<byte>): (r: Read<nat>)
    ensures r.Got? ==> |r.rest| == |s| - 4 && r.value <= |r.rest| && r.value < 0x8000_0000
  {
    if |s| < 4 then Fail
    else
      var n := FromBe32(s[..4]);
      if n < 0x8000_0000 && n <= |s| - 4 then Got(n, s[4..]) else Fail
  }

  /** One argument of the given type; None for a type the reader does not know, which it skips. */
  function ReadArg(tag: byte, s: seq<byte>): Read<Option<Arg>> {
    if tag == 'i' as int then
      if |s| < 4 then Fail else Got(Some(I32(FromBe32(s[..4]))), s[4..])
    else if tag == 'f' as int then
      if |s| < 4 then Fail else Got(Some(F32(FromBe32(s[..4]))), s[4..])
    else if tag == 's' as int then
      (match ReadText(s) case Fail => Fail case Got(t, r) => Got(Some(Str(t)), r))
    else if tag == 'b' as int then
      (match ReadBlob(s) case Fail => Fail case Got(d, r) => Got(Some(Blob(d)), r))
    else if tag == 'T' as int then Got(Some(True), s)
    else if tag == 'F' as int then Got(Some(False), s)
    else if tag == 'N' as int then Got(Some(Nil), s)
    else if tag == 'I' as int then Got(Some(Impulse), s)
    else if tag == 'h' as int then
      if |s| < 8 then Fail else Got(Some(I64(FromBe32(s[..4]), FromBe32(s[4..8]))), s[8..])
    else if tag == 'd' as int then
      if |s| < 8 then Fail else Got(Some(F64(FromBe32(s[..4]), FromBe32(s[4..8]))), s[8..])
    else if tag == 't' as int then
      if |s| < 8 then Fail else Got(Some(Time(FromBe32(s[..4]), FromBe32(s[4..8]))), s[8..])
    else if tag == 'S' as int then
      (match ReadText(s) case Fail => Fail case Got(t, r) => Got(Some(Sym(t)), r))
    else if tag == 'c' as int then
      if |s| < 4 then Fail else Got(Some(Chr(SignedChar(FromBe32(s[..4]) % 256))), s[4..])
    else if tag == 'm' as int then
      if |s| < 4 then Fail else Got(Some(Midi(s[0], s[1], s[2], s[3])), s[4..])
    else if tag == 'r' as int then
      if |s| < 4 then Fail else Got(Some(Rgba(s[0], s[1], s[2], s[3])), s[4..])
    else Got(None, s)
  }

  /** The arguments up to the first that cannot be read, and the bytes behind them. */
  function ReadArgs(tags: Text, s: seq<byte>): (seq<Arg>, seq<byte>) {
    if tags == [] then ([], s)
    else
      match ReadArg(tags[0], s)
      case Fail => ([], s)
      case Got(a, r) =>
        var more := ReadArgs(tags[1..], r);
        (if a.Some? then [a.value] + more.0 else more.0, more.1)
  }

  // ---- packets ----

  predicate IsBundle(b: seq<byte>) {
    |b| >= 8 && b[..8] == BUNDLE
  }

  predicate IsMessage(b: seq<byte>) {
    b != [] && b[0] == '/' as int
  }

  /** A message fails without a path, without a type string, or when its first argument cannot be read. */
  function ReadMessage(b: seq<byte>): Option<Packet> {
    match ReadText(b)
    case Fail => None
    case Got(path, r) =>
      match ReadText(r)
      case Fail => None
      case Got(types, body) =>
        if types == [] || types[0] != ',' as int then None
        else if |types| > 1 && ReadArg(types[1], body).Fail? then None
        else Some(Message(path, ReadArgs(types[1..], body).0))
  }

  /** The packet that lv2_osc_forge_packet finds in a buffer. */
  function Decode(b: seq<byte>): Option<Packet>
    decreases |b|
  {
    if IsBundle(b) then
      if |b| < 16 || ReadSize(b[16..]).Fail? then None
      else
        (match ReadItems(b[16..])
         case None => None
         case Some(items) => Some(Bundle(FromBe32(b[8..12]), FromBe32(b[12..16]), items)))
    else if IsMessage(b) then ReadMessage(b)
    else None
  }

  /** All items must be packets; the list ends where no whole item is left. */
  function ReadItems(s: seq<byte>): Option<Packets>
    decreases |s|
  {
    match ReadSize(s)
    case Fail => Some(NoMore)
    case Got(n, r) =>
      match Decode(r[..n])
      case None => None
      case Some(p) =>
        match ReadItems(r[n..])
        case None => None
        case Some(rest) => Some(More(p, rest))
  }

  // ---- encodings decode ----

  lemma {:induction false} TextEndAt(t: Text, s: seq<byte>)
    requires IsText(t) && t <= s && |t| < |s| && s[|t|] == 0
    ensures TextEnd(s) == |t|
  {
    if t != [] {
      assert s[0] == t[0];
      TextEndAt(t[1..], s[1..]);
    }
  }

  lemma TextRoom(n: nat)
    ensures TextSize(n) > n
  {
  }

  lemma TextReads(t: Text, tail: seq<byte>)
    requires IsText(t)
    ensures ReadText(EncText(t) + tail) == Got(t, tail)
  {
    hide TextSize, TextEnd;
    TextRoom(|t|);
    var s := EncText(t) + tail;
    assert s[..|t|] == t;
    TextEndAt(t, s);
    assert s[TextSize(|t|)..] == tail;
  }

  lemma WordReads(w: word, tail: seq<byte>)
    ensures (Be32(w) + tail)[..4] == Be32(w) && (Be32(w) + tail)[4..] == tail
    ensures FromBe32(Be32(w)) == w
  {
    Be32RoundTrip(w);
  }

  lemma PairReads(hi: word, lo: word, tail: seq<byte>)
    ensures var s := Be32(hi) + Be32(lo) + tail;
            s[..4] == Be32(hi) && s[4..8] == Be32(lo) && s[8..] == tail
    ensures FromBe32(Be32(hi)) == hi && FromBe32(Be32(lo)) == lo
  {
    hide Be32, FromBe32;
    Be32RoundTrip(hi);
    Be32RoundTrip(lo);
  }

  lemma BlobReads(data: seq<byte>, pad: seq<byte>, tail: seq<byte>)
    requires |data| < 0x8000_0000 && |pad| == Pad4(|data|) - |data|
    ensures ReadBlob(Be32(|data|) + data + pad + tail) == Got(data, tail)
  {
    hide Pad4, Be32, FromBe32;
    var s := Be32(|data|) + data + pad + tail;
    Be32RoundTrip(|data|);
    assert s[..4] == Be32(|data|);
    assert s[4..4 + |data|] == data;
    assert s[4 + Pad4(|data|)..] == tail;
  }

  /** An argument is read back whatever the padding of a blob and whatever follows. */
  lemma ArgReads(a: Arg, was: seq<byte>, tail: seq<byte>)
    requires OkArg(a) && |was| == ArgSize(a)
    ensures ReadArg(TypeTag(a), EncArg(a, was) + tail) == Got(Some(a), tail)
  {
    hide TextSize, Pad4, Be32, FromBe32, ReadText, ReadBlob, EncText, CharWord, SignedChar;
    match a
    case I32(w) => WordReads(w, tail);
    case F32(w) => WordReads(w, tail);
    case Str(s) => TextReads(s, tail);
    case Sym(s) => TextReads(s, tail);
    case Blob(data) => BlobReads(data, was[4 + |data|..], tail);
    case I64(hi, lo) => PairReads(hi, lo, tail);
    case F64(hi, lo) => PairReads(hi, lo, tail);
    case Time(hi, lo) => PairReads(hi, lo, tail);
    case Chr(c) =>
      CharBack(c);
      WordReads(CharWord(c), tail);
    case True | False | Nil | Impulse => assert EncArg(a, was) + tail == tail;
    case Midi(x, y, z, w) => assert ([x, y, z, w] + tail)[4..] == tail;
    case Rgba(x, y, z, w) => assert ([x, y, z, w] + tail)[4..] == tail;
  }

  lemma {:induction false} ArgsRead(args: seq<Arg>, was: seq<byte>, tail: seq<byte>)
    requires OkArgs(args) && |was| == ArgsSize(args)
    ensures ReadArgs(Tags(args), EncArgs(args, was) + tail) == (args, tail)
    ensures args != [] ==> ReadArg(Tags(args)[0], EncArgs(args, was) + tail).Got?
  {
    hide ArgSize, EncArg, ReadArg, TypeTag;
    if args == [] {
      assert EncArgs(args, was) + tail == tail;
    } else {
      var n := ArgSize(args[0]);
      var more := EncArgs(args[1..], was[n..]) + tail;
      ArgReads(args[0], was[..n], more);
      ArgsRead(args[1..], was[n..], tail);
      assert EncArgs(args, was) + tail == EncArg(args[0], was[..n]) + more;
      assert Tags(args)[1..] == Tags(args[1..]);
      assert [args[0]] + args[1..] == args;
    }
  }

  lemma MessageReads(path: Text, args: seq<Arg>, was: seq<byte>)
    requires OkPacket(Message(path, args)) && |was| == ArgsSize(args)
    ensures ReadMessage(EncHead(path, args) + EncArgs(args, was)) == Some(Message(path, args))
  {
    hide TextSize, EncText, ReadText, EncArgs, ReadArgs, ReadArg, OkArg, Tags;
    var types: Text := COMMA + Tags(args);
    var body := EncArgs(args, was);
    TextReads(path, EncText(types) + body);
    TextReads(types, body);
    assert EncHead(path, args) + body == EncText(path) + (EncText(types) + body);
    ArgsRead(args, was, []);
    assert body + [] == body;
    assert types[1..] == Tags(args);
  }

  lemma HeadIsPath(path: Text, args: seq<Arg>, body: seq<byte>)
    requires path != [] && path[0] == '/' as int
    ensures IsMessage(EncHead(path, args) + body) && !IsBundle(EncHead(path, args) + body)
  {
    hide TextSize;
    var b := EncHead(path, args) + body;
    assert b[0] == path[0];
    assert |b| >= 8 ==> b[..8][0] == path[0];
  }

  lemma ItemReads(n: nat, x: seq<byte>, y: seq<byte>)
    requires |x| == n < 0x8000_0000
    ensures ReadSize(Be32(n) + x + y) == Got(n, x + y)
    ensures (x + y)[..n] == x && (x + y)[n..] == y
  {
    hide Be32, FromBe32;
    var s := Be32(n) + x + y;
    Be32RoundTrip(n);
    assert s[..4] == Be32(n) && s[4..] == x + y;
  }

  lemma BundleHead(hi: word, lo: word, items: seq<byte>)
    ensures var b := BUNDLE + (Be32(hi) + Be32(lo)) + items;
            && IsBundle(b) && |b| == 16 + |items| && b[16..] == items
            && FromBe32(b[8..12]) == hi && FromBe32(b[12..16]) == lo
  {
    hide Be32, FromBe32;
    Be32RoundTrip(hi);
    Be32RoundTrip(lo);
    var b := BUNDLE + (Be32(hi) + Be32(lo)) + items;
    assert b[..8] == BUNDLE;
    assert b[8..12] == Be32(hi) && b[12..16] == Be32(lo);
    assert b[16..] == items;
  }

  /** Reading an encoded packet gives the packet, whatever the padding of its blobs. */
  lemma {:induction false} Decodes(p: Packet, was: seq<byte>)
    requires OkPacket(p) && |was| == Size(p)
    ensures Decode(Enc(p, was)) == Some(p)
    decreases p
  {
    hide TextSize, ReadMessage, EncArgs, EncHead, IsBundle, IsMessage, ReadSize, Be32, FromBe32, OkArgs;
    match p
    case Message(path, args) =>
      var rest := was[TextSize(|path|) + TextSize(1 + |args|)..];
      MessageReads(path, args, rest);
      HeadIsPath(path, args, EncArgs(args, rest));
    case Bundle(hi, lo, items) =>
      ItemsDecode(items, was[16..]);
      BundleHead(hi, lo, EncItems(items, was[16..]));
  }

  lemma {:induction false} ItemsDecode(ps: Packets, was: seq<byte>)
    requires OkPackets(ps) && |was| == ItemsSize(ps)
    ensures ReadItems(EncItems(ps, was)) == Some(ps)
    ensures ps.More? ==> ReadSize(EncItems(ps, was)).Got?
    decreases ps
  {
    hide Decode, Enc, Be32, FromBe32;
    match ps
    case NoMore =>
    case More(p, rest) =>
      var n := Size(p);
      Decodes(p, was[4..4 + n]);
      ItemsDecode(rest, was[4 + n..]);
      ItemReads(n, Enc(p, was[4..4 + n]), EncItems(rest, was[4 + n..]));
  }

  // ---- whatever is decoded is a packet ----

  lemma PadGrows(m: nat, n: nat)
    requires m <= n
    ensures Pad4(m) <= Pad4(n)
  {
  }

  lemma FieldOk(tag: byte, s: seq<byte>)
    requires ReadArg(tag, s).Got? && ReadArg(tag, s).value.Some?
    ensures OkArg(ReadArg(tag, s).value.value)
    ensures ArgSize(ReadArg(tag, s).value.value) + |ReadArg(tag, s).rest| == |s|
  {
    hide TextSize, Pad4, FromBe32, TextEnd;
  }

  lemma SkipOk(tag: byte, s: seq<byte>)
    ensures ReadArg(tag, s).Got? ==> |ReadArg(tag, s).rest| <= |s|
  {
    hide TextSize, Pad4, FromBe32, TextEnd;
  }

  lemma {:induction false} ArgsOk(tags: Text, s: seq<byte>)
    ensures var r := ReadArgs(tags, s);
            OkArgs(r.0) && |r.0| <= |tags| && ArgsSize(r.0) + |r.1| <= |s|
    decreases |tags|
  {
    hide OkArg, ArgSize, ReadArg;
    if tags != [] && ReadArg(tags[0], s).Got? {
      var (a, rest) := (ReadArg(tags[0], s).value, ReadArg(tags[0], s).rest);
      ArgsOk(tags[1..], rest);
      SkipOk(tags[0], s);
      if a.Some? {
        FieldOk(tags[0], s);
        var more := ReadArgs(tags[1..], rest).0;
        assert ([a.value] + more)[1..] == more;
      }
    }
  }

  lemma MessageOk(b: seq<byte>)
    requires IsMessage(b) && ReadMessage(b).Some?
    ensures OkPacket(ReadMessage(b).value) && Size(ReadMessage(b).value) <= |b|
  {
    hide TextEnd, ReadArgs, ArgsSize, OkArgs, Pad4;
    var path, r := ReadText(b).value, ReadText(b).rest;
    var types, body := ReadText(r).value, ReadText(r).rest;
    ArgsOk(types[1..], body);
    PadGrows(1 + |ReadArgs(types[1..], body).0| + 1, |types| + 1);
    PathStarts(b);
  }

  lemma PathStarts(b: seq<byte>)
    requires IsMessage(b) && ReadText(b).Got?
    ensures ReadText(b).value != [] && ReadText(b).value[0] == '/' as int
  {
  }

  /** Every packet read from any bytes is well formed, and its own encoding is no longer than they were. */
  lemma {:induction false} DecodedIsOk(b: seq<byte>)
    requires Decode(b).Some?
    ensures OkPacket(Decode(b).value) && Size(Decode(b).value) <= |b|
    decreases |b|
  {
    hide ReadMessage, IsBundle, IsMessage, ReadSize, FromBe32;
    if IsBundle(b) {
      ItemsOk(b[16..]);
      assert ReadSize(b[16..]).Got?;
    } else {
      MessageOk(b);
    }
  }

  lemma {:induction false} ItemsOk(s: seq<byte>)
    requires ReadItems(s).Some?
    ensures OkPackets(ReadItems(s).value) && ItemsSize(ReadItems(s).value) <= |s|
    ensures ReadSize(s).Got? ==> ReadItems(s).value.More?
    decreases |s|
  {
    hide Decode, ReadSize;
    if ReadSize(s).Got? {
      var n, r := ReadSize(s).value, ReadSize(s).rest;
      DecodedIsOk(r[..n]);
      ItemsOk(r[n..]);
    }
  }

  /** So encoding what was read and reading it again changes nothing. */
  lemma DecodeIsStable(b: seq<byte>, was: seq<byte>)
    requires Decode(b).Some? && |was| == Size(Decode(b).value)
    ensures OkPacket(Decode(b).value) && Decode(Enc(Decode(b).value, was)) == Decode(b)
  {
    hide *;
    DecodedIsOk(b);
    Decodes(Decode(b).value, was);
  }

  // ---- the padding of blobs ----

  lemma {:induction false} ArgsKeepPadding(args: seq<Arg>, was: seq<byte>)
    requires OkArgs(args) && |was| == ArgsSize(args)
    ensures EncArgs(args, EncArgs(args, was)) == EncArgs(args, was)
  {
    hide ArgSize, OkArg, EncArg;
    if args != [] {
      var n := ArgSize(args[0]);
      var x, y := EncArg(args[0], was[..n]), EncArgs(args[1..], was[n..]);
      ArgKeepsPadding(args[0], was[..n]);
      ArgsKeepPadding(args[1..], was[n..]);
      assert (x + y)[..n] == x && (x + y)[n..] == y;
    }
  }

  lemma ArgKeepsPadding(a: Arg, was: seq<byte>)
    requires OkArg(a) && |was| == ArgSize(a)
    ensures EncArg(a, EncArg(a, was)) == EncArg(a, was)
  {
    hide TextSize, Pad4, Be32, EncText, CharWord;
    if a.Blob? {
      var e := EncArg(a, was);
      assert e[4 + |a.data|..] == was[4 + |a.data|..];
    }
  }

  /** Written over an encoding of itself, a packet reproduces it to the byte. */
  lemma {:induction false} EncIsStable(p: Packet, was: seq<byte>)
    requires OkPacket(p) && |was| == Size(p)
    ensures Enc(p, Enc(p, was)) == Enc(p, was)
    decreases p
  {
    hide TextSize, EncArgs, EncHead, Be32, OkArgs;
    var e := Enc(p, was);
    match p
    case Message(path, args) =>
      var n := TextSize(|path|) + TextSize(1 + |args|);
      assert e[n..] == EncArgs(args, was[n..]);
      ArgsKeepPadding(args, was[n..]);
    case Bundle(hi, lo, items) =>
      assert e[16..] == EncItems(items, was[16..]);
      ItemsAreStable(items, was[16..]);
  }

  lemma {:induction false} ItemsAreStable(ps: Packets, was: seq<byte>)
    requires OkPackets(ps) && |was| == ItemsSize(ps)
    ensures EncItems(ps, EncItems(ps, was)) == EncItems(ps, was)
    decreases ps
  {
    hide Enc, Be32;
    match ps
    case NoMore =>
    case More(p, rest) =>
      var n := Size(p);
      var x, y := Enc(p, was[4..4 + n]), EncItems(rest, was[4 + n..]);
      EncIsStable(p, was[4..4 + n]);
      ItemsAreStable(rest, was[4 + n..]);
      var e := Be32(n) + x + y;
      assert e[4..4 + n] == x && e[4 + n..] == y;
  }
}
