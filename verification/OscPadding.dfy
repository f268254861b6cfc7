/** The padding of blobs: the only bytes of an encoding that the packet does not decide. */
module OscPadding {
  import opened Bytes
  import opened OscAtoms
  import opened OscDecode
  import opened OscPacket

  /** Two prior contents agree behind the data of a blob. */
  predicate ArgPadding(a: Arg, x: seq<byte>, y: seq<byte>)
    requires |x| == |y| == ArgSize(a)
  {
    a.Blob? ==> x[4 + |a.data|..] == y[4 + |a.data|..]
  }

  predicate ArgsPadding(args: seq<Arg>, x: seq<byte>, y: seq<byte>)
    requires |x| == |y| == ArgsSize(args)
  {
    args == [] ||
    var n := ArgSize(args[0]);
    ArgPadding(args[0], x[..n], y[..n]) && ArgsPadding(args[1..], x[n..], y[n..])
  }

  /** Two prior contents agree wherever a blob of the packet leaves its padding. */
  predicate PaddingAgrees(p: Packet, x: seq<byte>, y: seq<byte>)
    requires |x| == |y| == Size(p)
    decreases p
  {
    match p
    case Message(path, args) =>
      var n := TextSize(|path|) + TextSize(1 + |args|);
      ArgsPadding(args, x[n..], y[n..])
    case Bundle(_, _, items) => ItemsPadding(items, x[16..], y[16..])
  }

  predicate ItemsPadding(ps: Packets, x: seq<byte>, y: seq<byte>)
    requires |x| == |y| == ItemsSize(ps)
    decreases ps
  {
    match ps
    case NoMore => true
    case More(p, rest) =>
      var n := 4 + Size(p);
      PaddingAgrees(p, x[4..n], y[4..n]) && ItemsPadding(rest, x[n..], y[n..])
  }

  /** No blob needs padding. */
  predicate Unpadded(p: Packet)
    decreases p
  {
    match p
    case Message(_, args) => forall i :: 0 <= i < |args| ==> Flush(args[i])
    case Bundle(_, _, items) => ItemsUnpadded(items)
  }

  predicate ItemsUnpadded(ps: Packets)
    decreases ps
  {
    match ps
    case NoMore => true
    case More(p, rest) => Unpadded(p) && ItemsUnpadded(rest)
  }

  predicate Flush(a: Arg) {
    a.Blob? ==> Quad(|a.data|)
  }

  lemma {:induction false} NoArgsPadding(args: seq<Arg>, x: seq<byte>, y: seq<byte>)
    requires |x| == |y| == ArgsSize(args) && forall i :: 0 <= i < |args| ==> Flush(args[i])
    ensures ArgsPadding(args, x, y)
    decreases |args|
  {
    hide ArgSize, ArgPadding, Flush;
    if args != [] {
      var n := ArgSize(args[0]);
      FlushArg(args[0], x[..n], y[..n]);
      NoArgsPadding(args[1..], x[n..], y[n..]);
    }
  }

  lemma FlushArg(a: Arg, x: seq<byte>, y: seq<byte>)
    requires |x| == |y| == ArgSize(a) && Flush(a)
    ensures ArgPadding(a, x, y)
  {
    hide TextSize;
    if a.Blob? {
      assert Pad4(|a.data|) == |a.data|;
    }
  }

  lemma {:induction false} NoPadding(p: Packet, x: seq<byte>, y: seq<byte>)
    requires |x| == |y| == Size(p) && Unpadded(p)
    ensures PaddingAgrees(p, x, y)
    decreases p
  {
    hide TextSize, ArgsPadding, Flush, ArgsSize;
    match p
    case Message(path, args) =>
      var n := TextSize(|path|) + TextSize(1 + |args|);
      NoArgsPadding(args, x[n..], y[n..]);
    case Bundle(_, _, items) => NoItemsPadding(items, x[16..], y[16..]);
  }

  lemma {:induction false} NoItemsPadding(ps: Packets, x: seq<byte>, y: seq<byte>)
    requires |x| == |y| == ItemsSize(ps) && ItemsUnpadded(ps)
    ensures ItemsPadding(ps, x, y)
    decreases ps
  {
    hide PaddingAgrees;
    match ps
    case NoMore =>
    case More(p, rest) =>
      var n := 4 + Size(p);
      NoPadding(p, x[4..n], y[4..n]);
      NoItemsPadding(rest, x[n..], y[n..]);
  }

  lemma Halves(a: seq<byte>, b: seq<byte>, c: seq<byte>, d: seq<byte>)
    requires |a| == |c|
    ensures a + b == c + d <==> a == c && b == d
  {
    if a + b == c + d {
      assert (a + b)[..|a|] == (c + d)[..|c|] && (a + b)[|a|..] == (c + d)[|c|..];
    }
  }

  lemma ArgExactlyPadding(a: Arg, x: seq<byte>, y: seq<byte>)
    requires OkArg(a) && |x| == |y| == ArgSize(a)
    ensures EncArg(a, x) == EncArg(a, y) <==> ArgPadding(a, x, y)
  {
    hide TextSize, Pad4, Be32, EncText, CharWord;
    if a.Blob? {
      var n := 4 + |a.data|;
      Halves(Be32(|a.data|) + a.data, x[n..], Be32(|a.data|) + a.data, y[n..]);
    }
  }

  lemma {:induction false} ArgsExactlyPadding(args: seq<Arg>, x: seq<byte>, y: seq<byte>)
    requires OkArgs(args) && |x| == |y| == ArgsSize(args)
    ensures EncArgs(args, x) == EncArgs(args, y) <==> ArgsPadding(args, x, y)
    decreases |args|
  {
    hide ArgSize, OkArg, EncArg, ArgPadding;
    if args != [] {
      var n := ArgSize(args[0]);
      ArgExactlyPadding(args[0], x[..n], y[..n]);
      ArgsExactlyPadding(args[1..], x[n..], y[n..]);
      Halves(EncArg(args[0], x[..n]), EncArgs(args[1..], x[n..]), EncArg(args[0], y[..n]), EncArgs(args[1..], y[n..]));
    }
  }

  /** Two encodings of a packet are the same bytes exactly if they were written over the same padding. */
  lemma {:induction false} ExactlyPadding(p: Packet, x: seq<byte>, y: seq<byte>)
    requires Encodable(p) && |x| == |y| == Size(p)
    ensures Enc(p, x) == Enc(p, y) <==> PaddingAgrees(p, x, y)
    decreases p
  {
    hide TextSize, EncArgs, EncHead, Be32, OkArgs, ArgsPadding;
    match p
    case Message(path, args) =>
      var n := TextSize(|path|) + TextSize(1 + |args|);
      ArgsExactlyPadding(args, x[n..], y[n..]);
      Halves(EncHead(path, args), EncArgs(args, x[n..]), EncHead(path, args), EncArgs(args, y[n..]));
    case Bundle(hi, lo, items) =>
      var head := BUNDLE + (Be32(hi) + Be32(lo));
      ItemsExactlyPadding(items, x[16..], y[16..]);
      Halves(head, EncItems(items, x[16..]), head, EncItems(items, y[16..]));
  }

  lemma {:induction false} ItemsExactlyPadding(ps: Packets, x: seq<byte>, y: seq<byte>)
    requires EncodableItems(ps) && |x| == |y| == ItemsSize(ps)
    ensures EncItems(ps, x) == EncItems(ps, y) <==> ItemsPadding(ps, x, y)
    decreases ps
  {
    hide Enc, Be32, PaddingAgrees;
    match ps
    case NoMore =>
    case More(p, rest) =>
      var n := 4 + Size(p);
      ExactlyPadding(p, x[4..n], y[4..n]);
      ItemsExactlyPadding(rest, x[n..], y[n..]);
      var size := Be32(Size(p));
      Halves(size + Enc(p, x[4..n]), EncItems(rest, x[n..]), size + Enc(p, y[4..n]), EncItems(rest, y[n..]));
      Halves(size, Enc(p, x[4..n]), size, Enc(p, y[4..n]));
  }

  /** The bytes are an encoding of the packet: with its items' own sizes, clean string padding and known types only. */
  predicate Canonical(p: Packet, b: seq<byte>)
    requires Encodable(p)
  {
    |b| == Size(p) && Enc(p, b) == b
  }

  /** Every encoding is canonical, whatever it was written over, and it has the padding it was written over. */
  lemma EncIsCanonical(p: Packet, was: seq<byte>)
    requires OkPacket(p) && |was| == Size(p)
    ensures Canonical(p, Enc(p, was)) && PaddingAgrees(p, Enc(p, was), was)
  {
    hide Enc, Encodable, Size, PaddingAgrees;
    EncIsStable(p, was);
    ExactlyPadding(p, Enc(p, was), was);
  }

  /**
   The copy of received bytes b is b itself exactly if they are an encoding of their packet, all
   MIDI ports are 0, and there was the same padding where the copy went.
   */
  lemma CopyExactly(b: seq<byte>, there: seq<byte>)
    requires Decode(b).Some? && |there| == Size(Canon(Decode(b).value))
    ensures var p := Decode(b).value;
            && OkPacket(p) && OkPacket(Canon(p)) && Size(Canon(p)) == Size(p)
            && (Enc(Canon(p), there) == b <==> ZeroPorts(p) && Canonical(p, b) && PaddingAgrees(p, b, there))
  {
    hide Decode, Enc, Size, PaddingAgrees, Canon, ZeroPorts, Encodable, Proper;
    var p := Decode(b).value;
    DecodedIsOk(b);
    CanonKeeps(p);
    CanonExactly(p);
    Decodes(Canon(p), there);
    if ZeroPorts(p) {
      EncIsCanonical(p, there);
      if Canonical(p, b) {
        ExactlyPadding(p, b, there);
      }
    }
  }
}
