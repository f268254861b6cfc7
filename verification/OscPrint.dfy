/** What the OSC writer must leave in memory, step by step. */
module OscPrint {
  import opened Bytes
  import opened OscAtoms
  import opened OscPacket
  import opened Splice
  import opened Urid

  type Memory = seq<byte>

  /** What a successful step does: the bytes appear at the cursor, which moves behind them. */
  ghost predicate Put(m: Memory, p: nat, m': Memory, p': nat, data: seq<byte>) {
    p + |data| <= |m| && p' == p + |data| && m' == Over(m, p, data)
  }

  lemma PutPut(m: Memory, p: nat, m1: Memory, p1: nat, m2: Memory, p2: nat, x: seq<byte>, y: seq<byte>)
    requires Put(m, p, m1, p1, x) && Put(m1, p1, m2, p2, y)
    ensures Put(m, p, m2, p2, x + y)
  {
    OverThen(m, p, x, y);
  }

  /** A step leaves what lies behind it as it was. */
  lemma PutBehind(m: Memory, p: nat, m': Memory, p': nat, data: seq<byte>, n: nat)
    requires Put(m, p, m', p', data) && p' + n <= |m|
    ensures |m'| == |m| && m'[p'..p' + n] == m[p'..p' + n]
  {
  }

  /** A word in front of what was written. */
  lemma PutFront(m: Memory, p: nat, m1: Memory, p1: nat, x: seq<byte>, y: seq<byte>)
    requires Put(m, p + |x|, m1, p1, y)
    ensures Put(m, p, Over(m1, p, x), p1, x + y)
  {
    OverThen(m, p, x, y);
  }

  lemma TextCovered(m: Memory, p: nat, s: Text)
    requires p + TextSize(|s|) <= |m|
    ensures |s| + 1 <= TextSize(|s|) <= |s| + 4
    ensures Over(Over(m, p + TextSize(|s|) - 4, Zeros(4)), p, s + [0]) == Over(m, p, EncText(s))
  {
    hide TextSize;
    TextBounds(|s|);
    assert Zeros(4) == [0, 0, 0, 0];
    assert s + [0] + Zeros(TextSize(|s|) - |s| - 1) == EncText(s);
  }

  lemma TextBounds(n: nat)
    ensures n + 1 <= TextSize(n) <= n + 4
    ensures TextSize(n) >= 4
  {
  }

  lemma FormatCovered(m: Memory, p: nat, s: Text)
    requires p + TextSize(1 + |s|) <= |m|
    ensures |s| + 2 <= TextSize(1 + |s|) <= |s| + 5
    ensures Over(Over(Over(m, p + TextSize(1 + |s|) - 4, Zeros(4)), p, COMMA), p + 1, s + [0])
         == Over(m, p, EncText(COMMA + s))
  {
    hide TextSize, EncText, Over;
    TextBounds(1 + |s|);
    var t: Text := COMMA + s;
    var m1 := Over(m, p + TextSize(1 + |s|) - 4, Zeros(4));
    OverThen(m1, p, COMMA, s + [0]);
    assert COMMA + (s + [0]) == t + [0];
    assert |t| == 1 + |s|;
    TextCovered(m, p, t);
  }

  lemma BlobPadding(m: Memory, p: nat, x: seq<byte>, pad: seq<byte>)
    requires p + |x| + |pad| <= |m| && m[p + |x|..p + |x| + |pad|] == pad
    ensures Over(m, p, x) == Over(m, p, x + pad)
  {
  }

  lemma BlobPut(m: Memory, p: nat, x: seq<byte>, data: seq<byte>, q: nat)
    requires p + |x| + |data| <= q <= |m|
    ensures Put(m, p, Over(Over(m, p, x), p + |x|, data), q, x + data + m[p + |x| + |data|..q])
  {
    OverThen(m, p, x, data);
    BlobPadding(m, p, x + data, m[p + |x| + |data|..q]);
  }

  // ---- what the writer must print ----

  /** The part of memory that a step may touch. */
  ghost predicate Within(m: Memory, m': Memory, p: nat, e: nat) {
    p <= e <= |m| && |m'| == |m| && m'[..p] == m[..p] && m'[e..] == m[e..]
  }

  lemma WithinTwice(m: Memory, m1: Memory, m2: Memory, p: nat, q: nat, e: nat)
    requires Within(m, m1, p, e) && Within(m1, m2, q, e) && p <= q
    ensures Within(m, m2, p, e)
  {
    assert m2[..q][..p] == m1[..q][..p];
  }

  lemma PutWithin(m: Memory, p: nat, m': Memory, p': nat, data: seq<byte>, e: nat)
    requires Put(m, p, m', p', data) && p' <= e <= |m|
    ensures Within(m, m', p, e)
  {
  }

  ghost predicate PrintsArg(x: Option<Arg>, m: Memory, p: nat, m': Memory, p': nat, e: nat, ok: bool) {
    x.Some? ==>
      && (ok <==> p + ArgSize(x.value) < e)
      && (ok ==> OkArg(x.value) && p + ArgSize(x.value) <= |m|
                 && Put(m, p, m', p', EncArg(x.value, m[p..p + ArgSize(x.value)])))
  }

  ghost predicate PrintsArgs(xs: Option<seq<Arg>>, m: Memory, p: nat, m': Memory, p': nat, e: nat, ok: bool) {
    xs.Some? ==>
      && (ok <==> p + ArgsSize(xs.value) < e)
      && (ok ==> OkArgs(xs.value) && p + ArgsSize(xs.value) <= |m|
                 && Put(m, p, m', p', EncArgs(xs.value, m[p..p + ArgsSize(xs.value)])))
  }

  /** Succeeds exactly when the packet and one more byte fit; then the packet lies at the cursor. */
  ghost predicate Prints(q: Option<Packet>, m: Memory, p: nat, m': Memory, p': nat, e: nat, ok: bool) {
    q.Some? ==>
      && (ok <==> p + Size(q.value) < e)
      && (ok ==> Encodable(q.value) && p + Size(q.value) <= |m|
                 && Put(m, p, m', p', Enc(q.value, m[p..p + Size(q.value)])))
  }

  ghost predicate PrintsItems(qs: Option<Packets>, m: Memory, p: nat, m': Memory, p': nat, e: nat, ok: bool) {
    qs.Some? ==>
      && (ok <==> p + ItemsSize(qs.value) < e)
      && (ok ==> EncodableItems(qs.value) && p + ItemsSize(qs.value) <= |m|
                 && Put(m, p, m', p', EncItems(qs.value, m[p..p + ItemsSize(qs.value)])))
  }

  lemma AtomArgOk(h: Host, a: Atom)
    ensures AtomArg(h, a).Some? ==> OkArg(AtomArg(h, a).value) && ArgType(a) == TypeTag(AtomArg(h, a).value)
  {
    hide CText, UnHex2, Timetag;
  }

  function Count(atoms: Atoms): nat {
    match atoms
    case ANil => 0
    case ACons(_, rest) => 1 + Count(rest)
  }

  // ---- one argument ----

  lemma ArgDone(x: Arg, m: Memory, p: nat, m': Memory, p': nat, e: nat, ok: bool)
    requires OkArg(x) && !x.Blob? && p <= e <= |m|
    requires ok <==> p + ArgSize(x) < e
    requires ok ==> Put(m, p, m', p', EncArg(x, Zeros(ArgSize(x))))
    requires !ok ==> p' == p && m' == m
    ensures PrintsArg(Some(x), m, p, m', p', e, ok)
    ensures Within(m, m', p, e) && p' >= p && (ok || p < e ==> p' < e)
  {
    hide TextSize, Be32, EncText, CharWord, Over;
    if ok {
      PutWithin(m, p, m', p', EncArg(x, Zeros(ArgSize(x))), e);
    }
  }

  lemma BlobDone(data: seq<byte>, m: Memory, p: nat, m': Memory, p': nat, e: nat, ok: bool)
    requires |data| < 0x8000_0000 && p <= e <= |m|
    requires ok <==> p + 4 + Pad4(|data|) < e
    requires ok ==> Put(m, p, m', p', Be32(|data|) + data + m[p + 4 + |data|..p + 4 + Pad4(|data|)])
    requires !ok ==> p' == p && m' == m
    ensures PrintsArg(Some(Blob(data)), m, p, m', p', e, ok)
    ensures Within(m, m', p, e) && p' >= p && (ok || p < e ==> p' < e)
  {
    hide Be32, Pad4, Over;
    if ok {
      var was := m[p..p + 4 + Pad4(|data|)];
      assert was[4 + |data|..] == m[p + 4 + |data|..p + 4 + Pad4(|data|)];
      PutWithin(m, p, m', p', EncArg(Blob(data), was), e);
    }
  }

  lemma NotAnArg(m: Memory, p: nat, e: nat)
    requires p <= e <= |m|
    ensures PrintsArg(None, m, p, m, p, e, false) && Within(m, m, p, e)
  {
  }

  lemma MidiRefused(h: Host, data: seq<byte>, m: Memory, p: nat, e: nat)
    requires p <= e <= |m| && (|data| > 3 || p + 4 >= e)
    ensures PrintsArg(AtomArg(h, AMidi(data)), m, p, m, p, e, false) && Within(m, m, p, e)
  {
  }

  lemma MidiDone(h: Host, data: seq<byte>, m: Memory, p: nat, e: nat)
    requires |data| <= 3 && p + 4 < e <= |m|
    ensures PrintsArg(AtomArg(h, AMidi(data)), m, p, Over(Over(m, p, [0]), p + 1, data), p + 4, e, true)
    ensures Within(m, Over(Over(m, p, [0]), p + 1, data), p, e)
  {
    hide Over;
    OverThen(m, p, [0], data);
    PutWithin(m, p, Over(m, p, [0] + data), p + 1 + |data|, [0] + data, e);
    if |data| == 3 {
      var x := Midi(0, data[0], data[1], data[2]);
      assert [0] + data == EncArg(x, Zeros(4));
      ArgDone(x, m, p, Over(m, p, [0] + data), p + 4, e, true);
    }
  }

  lemma NothingPrinted(h: Host, a: Atom, m: Memory, p: nat, e: nat)
    requires p < e <= |m|
    requires a.ABool? || (a.ALiteral? && !a.datatyp.OscChar? && !a.datatyp.OscRgba?)
          || (a.AObject? && !a.otype.OscTimetag?) || a.ATuple? || a.AOther?
    ensures PrintsArg(AtomArg(h, a), m, p, m, p, e, true)
    ensures Within(m, m, p, e)
  {
    assert Put(m, p, m, p, []) by { OverNothing(m, p); }
  }

  // ---- the arguments that are left ----

  /** Chunks are announced with a signed length. */
  predicate Sized(args: Atoms) {
    match args
    case ANil => true
    case ACons(a, rest) => (a.AChunk? ==> |a.data| < 0x8000_0000) && Sized(rest)
  }

  /** `done` lies before q, the encoding of `rest` belongs behind it. */
  ghost predicate ArgsLeft(xs: seq<Arg>, m: Memory, p: nat, done: seq<byte>, q: nat, rest: seq<Arg>) {
    && q == p + |done| && q + ArgsSize(rest) == p + ArgsSize(xs) && OkArgs(xs) && OkArgs(rest)
    && (p + ArgsSize(xs) <= |m| ==>
          done + EncArgs(rest, m[q..q + ArgsSize(rest)]) == EncArgs(xs, m[p..p + ArgsSize(xs)]))
  }

  lemma ArgsBegin(xs: seq<Arg>, m: Memory, p: nat)
    requires OkArgs(xs) && p <= |m|
    ensures ArgsLeft(xs, m, p, [], p, xs) && Put(m, p, m, p, [])
  {
    hide EncArgs, ArgsSize;
    OverNothing(m, p);
    if p + ArgsSize(xs) <= |m| {
      assert [] + EncArgs(xs, m[p..p + ArgsSize(xs)]) == EncArgs(xs, m[p..p + ArgsSize(xs)]);
    }
  }

  lemma Cut(m: Memory, q: nat, n: nat, k: nat)
    requires q + n + k <= |m|
    ensures m[q..q + (n + k)][..n] == m[q..q + n] && m[q..q + (n + k)][n..] == m[q + n..q + n + k]
  {
    SliceOfSlice(m, q, q + n + k, 0, n);
    SliceOfSlice(m, q, q + n + k, n, n + k);
  }

  lemma ArgsUnfold(rest: seq<Arg>, w: seq<byte>)
    requires rest != [] && OkArgs(rest) && |w| == ArgsSize(rest)
    ensures ArgsSize(rest) == ArgSize(rest[0]) + ArgsSize(rest[1..]) && OkArg(rest[0]) && OkArgs(rest[1..])
    ensures EncArgs(rest, w) == EncArg(rest[0], w[..ArgSize(rest[0])]) + EncArgs(rest[1..], w[ArgSize(rest[0])..])
  {
    hide EncArg, ArgSize, OkArg;
  }

  lemma ArgsSplit(rest: seq<Arg>, m: Memory, q: nat)
    requires rest != [] && OkArgs(rest) && q + ArgsSize(rest) <= |m|
    ensures ArgsSize(rest) == ArgSize(rest[0]) + ArgsSize(rest[1..])
    ensures EncArgs(rest, m[q..q + ArgsSize(rest)])
         == EncArg(rest[0], m[q..q + ArgSize(rest[0])])
            + EncArgs(rest[1..], m[q + ArgSize(rest[0])..q + ArgSize(rest[0]) + ArgsSize(rest[1..])])
  {
    hide EncArg, ArgSize, OkArg, EncArgs;
    var n, k := ArgSize(rest[0]), ArgsSize(rest[1..]);
    ArgsUnfold(rest, m[q..q + ArgsSize(rest)]);
    Cut(m, q, n, k);
  }

  lemma ArgsNext(xs: seq<Arg>, m: Memory, p: nat, done: seq<byte>, q: nat, rest: seq<Arg>)
      returns (done': seq<byte>)
    requires rest != [] && ArgsLeft(xs, m, p, done, q, rest) && q + ArgSize(rest[0]) <= |m|
    ensures OkArg(rest[0]) && done' == EncArg(rest[0], m[q..q + ArgSize(rest[0])])
    ensures ArgsLeft(xs, m, p, done + done', q + |done'|, rest[1..])
  {
    hide EncArg, ArgSize, OkArg, EncArgs;
    var n := ArgSize(rest[0]);
    assert OkArg(rest[0]);
    done' := EncArg(rest[0], m[q..q + n]);
    if p + ArgsSize(xs) <= |m| {
      ArgsSplit(rest, m, q);
      var more := EncArgs(rest[1..], m[q + n..q + n + ArgsSize(rest[1..])]);
      assert (done + done') + more == done + (done' + more);
    }
  }

  /** One argument was printed behind those that are done. */
  lemma ArgsStep(xs: seq<Arg>, m: Memory, p: nat, done: seq<byte>, m1: Memory, q: nat, rest: seq<Arg>,
                 m2: Memory, q2: nat, e: nat)
      returns (done': seq<byte>)
    requires rest != [] && ArgsLeft(xs, m, p, done, q, rest) && Put(m, p, m1, q, done)
    requires PrintsArg(Some(rest[0]), m1, q, m2, q2, e, true)
    ensures ArgsLeft(xs, m, p, done', q2, rest[1..]) && Put(m, p, m2, q2, done')
  {
    hide EncArg, ArgSize, ArgsLeft, OkArg, Over;
    var x := ArgsNext(xs, m, p, done, q, rest);
    PutBehind(m, p, m1, q, done, ArgSize(rest[0]));
    PutPut(m, p, m1, q, m2, q2, done, x);
    done' := done + x;
  }

  lemma ArgsStuck(xs: seq<Arg>, m: Memory, p: nat, done: seq<byte>, m1: Memory, q: nat, rest: seq<Arg>,
                  m2: Memory, q2: nat, e: nat)
    requires rest != [] && ArgsLeft(xs, m, p, done, q, rest)
    requires PrintsArg(Some(rest[0]), m1, q, m2, q2, e, false)
    ensures p + ArgsSize(xs) >= e
  {
    hide EncArg, ArgSize, OkArg, EncArgs;
  }

  lemma ArgsFinish(xs: seq<Arg>, m: Memory, p: nat, done: seq<byte>, m1: Memory, q: nat, e: nat)
    requires ArgsLeft(xs, m, p, done, q, []) && Put(m, p, m1, q, done) && q < e
    ensures PrintsArgs(Some(xs), m, p, m1, q, e, true)
  {
    hide ArgSize, OkArg;
    assert done + EncArgs([], m[q..q]) == done;
  }

  lemma {:induction false} AtomArgsOk(h: Host, atoms: Atoms)
    ensures AtomArgs(h, atoms).Some? ==> OkArgs(AtomArgs(h, atoms).value) && |AtomArgs(h, atoms).value| == Count(atoms)
  {
    hide AtomArg, OkArg, ArgType, TypeTag;
    match atoms
    case ANil =>
    case ACons(a, rest) =>
      AtomArgOk(h, a);
      AtomArgsOk(h, rest);
  }

  lemma ArgsEmpty(h: Host)
    ensures AtomArgs(h, ANil) == Some([])
  {
  }

  lemma ArgsUnknown(m: Memory, p: nat, m1: Memory, q: nat, e: nat)
    ensures PrintsArgs(None, m, p, m1, q, e, true)
  {
  }

  lemma ArgsRefused(xs: Option<seq<Arg>>, m: Memory, p: nat, m1: Memory, q: nat, e: nat)
    requires xs.Some? ==> p + ArgsSize(xs.value) >= e
    ensures PrintsArgs(xs, m, p, m1, q, e, false)
  {
  }

  lemma Untouched(m: Memory, p: nat, e: nat)
    requires p <= e <= |m|
    ensures Within(m, m, p, e)
  {
  }

  lemma ArgsHead(h: Host, atoms: Atoms)
    requires atoms.ACons? && AtomArgs(h, atoms).Some?
    ensures AtomArg(h, atoms.head).Some? && AtomArgs(h, atoms.tail).Some?
    ensures AtomArgs(h, atoms).value != []
    ensures AtomArgs(h, atoms).value[0] == AtomArg(h, atoms.head).value
    ensures AtomArgs(h, atoms).value[1..] == AtomArgs(h, atoms.tail).value
  {
    hide AtomArg;
  }

  // ---- messages ----

  lemma TagsOf(h: Host, args: Atoms, fmt: Text)
    requires AtomArgs(h, args).Some? && |fmt| == Count(args)
    requires |AtomArgs(h, args).value| == Count(args)
    requires forall i :: 0 <= i < |fmt| ==> fmt[i] == TypeTag(AtomArgs(h, args).value[i])
    ensures fmt == Tags(AtomArgs(h, args).value) && IsText(fmt)
  {
    hide AtomArgs, Count, TypeTag;
  }

  lemma MessageDone(path: Text, xs: seq<Arg>, m: Memory, p: nat, m1: Memory, p1: nat, m2: Memory, p2: nat,
                    m3: Memory, p3: nat, e: nat)
    requires IsText(path) && OkArgs(xs) && e <= |m|
    requires Put(m, p, m1, p1, EncText(path))
    requires Put(m1, p1, m2, p2, EncText(COMMA + Tags(xs)))
    requires PrintsArgs(Some(xs), m2, p2, m3, p3, e, true)
    ensures Prints(Some(Message(path, xs)), m, p, m3, p3, e, true)
  {
    hide EncText, TextSize, Tags, ArgsSize, OkArgs, EncArgs, Over, IsText;
    var head := EncHead(path, xs);
    var n, k := TextSize(|path|) + TextSize(1 + |xs|), ArgsSize(xs);
    assert |COMMA + Tags(xs)| == 1 + |xs|;
    PutPut(m, p, m1, p1, m2, p2, EncText(path), EncText(COMMA + Tags(xs)));
    PutBehind(m, p, m2, p2, head, k);
    var w := m[p..p + n + k];
    assert w[n..] == m[p2..p2 + k];
    PutPut(m, p, m2, p2, m3, p3, head, EncArgs(xs, m[p2..p2 + k]));
  }

  /** A message that stops at its path, its types or its arguments would not have fitted. */
  lemma MessageRefused(path: Text, xs: seq<Arg>, m: Memory, p: nat, m': Memory, p': nat, e: nat)
    requires p + TextSize(|path|) + TextSize(1 + |xs|) + ArgsSize(xs) >= e
    ensures Prints(Some(Message(path, xs)), m, p, m', p', e, false)
  {
    hide TextSize, ArgsSize;
  }

  // ---- bundles ----

  ghost predicate PrintsItem(x: Option<Packet>, m: Memory, p: nat, m': Memory, p': nat, e: nat, ok: bool) {
    x.Some? ==>
      && (ok <==> p + 4 + Size(x.value) < e)
      && (ok ==> Encodable(x.value) && p + 4 + Size(x.value) <= |m| && Size(x.value) < 0x8000_0000
                 && Put(m, p, m', p', Be32(Size(x.value)) + Enc(x.value, m[p + 4..p + 4 + Size(x.value)])))
  }

  lemma ItemDone(x: Packet, m: Memory, p: nat, m1: Memory, p1: nat, e: nat)
    requires Prints(Some(x), m, p + 4, m1, p1, e, true) && e <= |m| < 0x8000_0000
    ensures p1 == p + 4 + Size(x) && Size(x) > 0 && Size(x) < 0x8000_0000
    ensures PrintsItem(Some(x), m, p, Over(m1, p, Be32(Size(x))), p1, e, true)
  {
    hide Size, Enc, Encodable, Be32, Over;
    SizeQuad(x);
    PutFront(m, p, m1, p1, Be32(Size(x)), Enc(x, m[p + 4..p + 4 + Size(x)]));
  }

  lemma ItemRefused(x: Option<Packet>, m: Memory, p: nat, m': Memory, p': nat, e: nat)
    requires x.Some? ==> p + 4 + Size(x.value) >= e
    ensures PrintsItem(x, m, p, m', p', e, false)
  {
    hide Size;
  }

  /** Bundles whose encoding is small enough can be encoded. */
  lemma {:induction false} PacketEncodable(h: Host, a: Atom)
    ensures AtomPacket(h, a).Some? && Size(AtomPacket(h, a).value) < 0x8000_0000 ==> Encodable(AtomPacket(h, a).value)
    decreases a
  {
    hide Lookup, AtomPackets, AtomPacket, AtomArgs, OkArgs, TextSize, ArgsSize;
    if AtomPacket(h, a).Some? {
      OnlyPackets(h, a);
      if a.otype == OscMessage {
        MessageParts(h, a.props);
        AtomArgsOk(h, Lookup(a.props, MessageArguments).value.items);
      } else {
        BundleParts(h, a.props);
        LookupSmaller(a.props, BundleItems);
        ItemsEncodable(h, Lookup(a.props, BundleItems).value.items);
      }
    }
  }

  lemma {:induction false} ItemsEncodable(h: Host, atoms: Atoms)
    ensures AtomPackets(h, atoms).Some? && ItemsSize(AtomPackets(h, atoms).value) < 0x8000_0000 ==>
              EncodableItems(AtomPackets(h, atoms).value)
    decreases atoms
  {
    hide AtomPacket;
    match atoms
    case ANil =>
    case ACons(a, rest) =>
      PacketEncodable(h, a);
      ItemsEncodable(h, rest);
  }

  /** `done` lies before q, the encoding of `rest` belongs behind it. */
  ghost predicate ItemsLeft(qs: Packets, m: Memory, p: nat, done: seq<byte>, q: nat, rest: Packets) {
    && q == p + |done| && q + ItemsSize(rest) == p + ItemsSize(qs)
    && (p + ItemsSize(qs) <= |m| ==>
          && EncodableItems(qs) && EncodableItems(rest)
          && done + EncItems(rest, m[q..q + ItemsSize(rest)]) == EncItems(qs, m[p..p + ItemsSize(qs)]))
  }

  lemma ItemsBegin(qs: Packets, m: Memory, p: nat)
    requires p + ItemsSize(qs) <= |m| ==> EncodableItems(qs)
    requires p <= |m|
    ensures ItemsLeft(qs, m, p, [], p, qs) && Put(m, p, m, p, [])
  {
    hide EncItems, ItemsSize, EncodableItems;
    OverNothing(m, p);
    if p + ItemsSize(qs) <= |m| {
      assert [] + EncItems(qs, m[p..p + ItemsSize(qs)]) == EncItems(qs, m[p..p + ItemsSize(qs)]);
    }
  }

  lemma ItemsSplit(rest: Packets, m: Memory, q: nat)
    requires rest.More? && EncodableItems(rest) && q + ItemsSize(rest) <= |m|
    ensures var n := Size(rest.head);
            && ItemsSize(rest) == 4 + n + ItemsSize(rest.tail)
            && EncItems(rest, m[q..q + ItemsSize(rest)])
               == Be32(n) + Enc(rest.head, m[q + 4..q + 4 + n])
                  + EncItems(rest.tail, m[q + 4 + n..q + 4 + n + ItemsSize(rest.tail)])
  {
    hide Enc, Size, Encodable, Be32;
    var n, k := Size(rest.head), ItemsSize(rest.tail);
    SliceOfSlice(m, q, q + 4 + n + k, 4, 4 + n);
    SliceOfSlice(m, q, q + 4 + n + k, 4 + n, 4 + n + k);
  }

  /** One item was printed behind those that are done. */
  lemma ItemsStep(qs: Packets, m: Memory, p: nat, done: seq<byte>, m1: Memory, q: nat, rest: Packets,
                  m2: Memory, q2: nat, e: nat)
      returns (done': seq<byte>)
    requires rest.More? && ItemsLeft(qs, m, p, done, q, rest) && Put(m, p, m1, q, done)
    requires PrintsItem(Some(rest.head), m1, q, m2, q2, e, true)
    ensures ItemsLeft(qs, m, p, done', q2, rest.tail) && Put(m, p, m2, q2, done')
  {
    hide Enc, Size, Encodable, Be32, Over, EncItems;
    var n := Size(rest.head);
    PutBehind(m, p, m1, q, done, 4 + n);
    assert m1[q + 4..q + 4 + n] == m[q + 4..q + 4 + n] by {
      assert m1[q..q + 4 + n][4..] == m[q..q + 4 + n][4..];
    }
    var x := Be32(n) + Enc(rest.head, m[q + 4..q + 4 + n]);
    done' := done + x;
    PutPut(m, p, m1, q, m2, q2, done, x);
    if p + ItemsSize(qs) <= |m| {
      ItemsSplit(rest, m, q);
      var more := EncItems(rest.tail, m[q + 4 + n..q + 4 + n + ItemsSize(rest.tail)]);
      assert (done + x) + more == done + (x + more);
    }
  }

  lemma ItemsStuck(qs: Packets, m: Memory, p: nat, done: seq<byte>, m1: Memory, q: nat, rest: Packets,
                   m2: Memory, q2: nat, e: nat)
    requires rest.More? && ItemsLeft(qs, m, p, done, q, rest)
    requires PrintsItem(Some(rest.head), m1, q, m2, q2, e, false)
    ensures p + ItemsSize(qs) >= e
  {
    hide Enc, Size, Encodable, EncItems, EncodableItems;
  }

  lemma ItemsFinish(qs: Packets, m: Memory, p: nat, done: seq<byte>, m1: Memory, q: nat, e: nat)
    requires ItemsLeft(qs, m, p, done, q, NoMore) && Put(m, p, m1, q, done) && q < e <= |m|
    ensures PrintsItems(Some(qs), m, p, m1, q, e, true)
  {
    hide Enc, Size, Encodable;
    assert done + EncItems(NoMore, m[q..q]) == done;
  }

  lemma ItemsUnknown(m: Memory, p: nat, m1: Memory, q: nat, e: nat, ok: bool)
    ensures PrintsItems(None, m, p, m1, q, e, ok)
  {
  }

  lemma ItemsRefused(qs: Option<Packets>, m: Memory, p: nat, m1: Memory, q: nat, e: nat)
    requires qs.Some? ==> p + ItemsSize(qs.value) >= e
    ensures PrintsItems(qs, m, p, m1, q, e, false)
  {
    hide ItemsSize;
  }

  lemma ItemsHead(h: Host, atoms: Atoms)
    requires atoms.ACons? && AtomPackets(h, atoms).Some?
    ensures AtomPacket(h, atoms.head).Some? && AtomPackets(h, atoms.tail).Some?
    ensures AtomPackets(h, atoms).value == More(AtomPacket(h, atoms.head).value, AtomPackets(h, atoms.tail).value)
  {
    hide AtomPacket;
  }

  lemma ItemsEmpty(h: Host)
    ensures AtomPackets(h, ANil) == Some(NoMore)
  {
  }

  lemma BundleDone(hi: word, lo: word, qs: Packets, m: Memory, p: nat, m1: Memory, p1: nat, m2: Memory, p2: nat, e: nat)
    requires Put(m, p, m1, p1, BUNDLE + (Be32(hi) + Be32(lo))) && e <= |m|
    requires PrintsItems(Some(qs), m1, p1, m2, p2, e, true)
    ensures Prints(Some(Bundle(hi, lo, qs)), m, p, m2, p2, e, true)
    ensures p2 == p + 16 + ItemsSize(qs)
  {
    hide EncItems, ItemsSize, EncodableItems, Over, Be32;
    var head := BUNDLE + (Be32(hi) + Be32(lo));
    var k := ItemsSize(qs);
    PutBehind(m, p, m1, p1, head, k);
    var w := m[p..p + 16 + k];
    assert w[16..] == m[p1..p1 + k];
    PutPut(m, p, m1, p1, m2, p2, head, EncItems(qs, m[p1..p1 + k]));
  }

  lemma PacketRefused(x: Option<Packet>, m: Memory, p: nat, m': Memory, p': nat, e: nat)
    requires x.Some? ==> p + Size(x.value) >= e
    ensures Prints(x, m, p, m', p', e, false)
  {
    hide Size;
  }

  lemma PacketUnknown(m: Memory, p: nat, m': Memory, p': nat, e: nat, ok: bool)
    ensures Prints(None, m, p, m', p', e, ok)
  {
  }

  lemma PutMoves(m: Memory, p: nat, m': Memory, p': nat, data: seq<byte>)
    requires Put(m, p, m', p', data)
    ensures p' == p + |data| && p' <= |m'| && |m'| == |m|
  {
    hide Over;
  }

  lemma ArgsFull(xs: seq<Arg>, m: Memory, p: nat, m': Memory, p': nat, e: nat)
    requires PrintsArgs(Some(xs), m, p, m', p', e, false)
    ensures p + ArgsSize(xs) >= e
  {
    hide ArgsSize;
  }

  lemma PacketFull(x: Option<Packet>, m: Memory, p: nat, m': Memory, p': nat, e: nat)
    requires Prints(x, m, p, m', p', e, false)
    ensures x.Some? ==> p + Size(x.value) >= e
  {
    hide Size;
  }

  lemma ItemUnknown(m: Memory, p: nat, m': Memory, p': nat, e: nat, ok: bool)
    ensures PrintsItem(None, m, p, m', p', e, ok)
  {
  }

  lemma SizeWithin(m: Memory, m1: Memory, p: nat, x: seq<byte>, e: nat)
    requires Within(m, m1, p, e) && p + |x| <= e
    ensures Within(m, Over(m1, p, x), p, e)
  {
  }

  /** A bundle succeeds with its items, which it must have. */
  lemma BundleSizes(hi: word, lo: word, qs: Packets, m: Memory, p: nat, m1: Memory, p1: nat, m2: Memory, p2: nat,
                    e: nat, ok: bool)
    requires Put(m, p, m1, p1, BUNDLE + (Be32(hi) + Be32(lo))) && e <= |m|
    requires PrintsItems(Some(qs), m1, p1, m2, p2, e, ok)
    ensures Prints(Some(Bundle(hi, lo, qs)), m, p, m2, p2, e, ok)
    ensures ok ==> p2 == p + 16 + ItemsSize(qs) && (ItemsSize(qs) > 0 <==> qs.More?)
    ensures !ok ==> p1 + ItemsSize(qs) >= e
  {
    hide Be32, Over, EncItems, EncodableItems;
    if ok {
      BundleDone(hi, lo, qs, m, p, m1, p1, m2, p2, e);
    } else {
      PutMoves(m, p, m1, p1, BUNDLE + (Be32(hi) + Be32(lo)));
      PacketRefused(Some(Bundle(hi, lo, qs)), m, p, m2, p2, e) by {
        assert Size(Bundle(hi, lo, qs)) == 16 + ItemsSize(qs);
      }
    }
  }

  lemma NotAPacket(h: Host, a: Atom, m: Memory, p: nat, e: nat, ok: bool)
    requires AtomPacket(h, a).None? && p <= e <= |m|
    ensures Prints(AtomPacket(h, a), m, p, m, p, e, ok) && Within(m, m, p, e)
  {
  }

  // ---- what the writer may be given ----

  /**
   Objects the writer can walk: a message has its arguments, fewer than its 128-byte format can
   name, and the items of a bundle are objects.
   */
  predicate Walkable(a: Atom)
    decreases a
  {
    match a
    case AObject(OscMessage, props) =>
      (match (Lookup(props, MessagePath), Lookup(props, MessageArguments))
       case (Some(AString(_)), Some(ATuple(args))) => Count(args) < 128 && Sized(args)
       case (Some(AString(_)), None) => false
       case _ => true)
    case AObject(OscBundle, props) =>
      LookupSmaller(props, BundleItems);
      (match Lookup(props, BundleItems)
       case Some(ATuple(items)) => WalkableItems(items)
       case _ => true)
    case _ => true
  }

  predicate WalkableItems(items: Atoms)
    decreases items
  {
    match items
    case ANil => true
    case ACons(a, rest) => a.AObject? && Walkable(a) && WalkableItems(rest)
  }
}
