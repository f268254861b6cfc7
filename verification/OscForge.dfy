/** The OSC reader, which walks a buffer, and the forge, which turns what it finds into atoms. */
module OscForge {
  import opened Bytes
  import opened OscAtoms
  import opened OscDecode
  import opened OscForm
  import opened OscPacket
  import opened Splice
  import opened Urid

  /** The item a bundle iterator stands at. */
  class Item {
    var size: nat
    var body: nat
    var hi: word
    var lo: word

    constructor ()
      ensures size == 0 && body == 0 && hi == 0 && lo == 1
    {
      size, body := 0, 0;
      hi, lo := 0, 1;
    }
  }

  /** The argument a message iterator stands at; `value` is None when its type is unknown. */
  class Argument {
    var types: Text
    var value: Option<Arg>
    var path: Text

    constructor ()
      ensures types == [] && value.None? && path == []
    {
      types, path := [], [];
      value := None;
    }
  }

  class Reader {
    const mem: array<byte>
    const end: nat
    var ptr: nat

    ghost predicate Valid()
      reads this
    {
      ptr <= end <= mem.Length
    }

    /** What has not been read yet. */
    function Rest(): seq<byte>
      requires Valid()
      reads this, mem
    {
      mem[ptr..end]
    }

    constructor (mem: array<byte>, start: nat, size: nat)
      requires start + size <= mem.Length
      ensures Valid() && this.mem == mem && end == start + size && ptr == start
      ensures Rest() == mem[start..start + size]
    {
      this.mem := mem;
      this.end := start + size;
      this.ptr := start;
    }

    predicate Overflow(size: nat)
      reads this
    {
      ptr + size > end
    }

    method GetWord() returns (ok: bool, w: word)
      requires Valid()
      modifies this`ptr
      ensures Valid()
      ensures ok <==> |old(Rest())| >= 4
      ensures ok ==> w == FromBe32(old(Rest())[..4]) && Rest() == old(Rest())[4..] && ptr == old(ptr) + 4
      ensures !ok ==> ptr == old(ptr)
    {
      hide FromBe32;
      if Overflow(4) {
        return false, 0;
      }
      w := FromBe32(mem[ptr..ptr + 4]);
      assert Rest()[..4] == mem[ptr..ptr + 4];
      ptr := ptr + 4;
      ok := true;
    }

    method GetPair() returns (ok: bool, hi: word, lo: word)
      requires Valid()
      modifies this`ptr
      ensures Valid()
      ensures ok <==> |old(Rest())| >= 8
      ensures ok ==> hi == FromBe32(old(Rest())[..4]) && lo == FromBe32(old(Rest())[4..8])
      ensures ok ==> Rest() == old(Rest())[8..] && ptr == old(ptr) + 8
      ensures !ok ==> ptr == old(ptr)
    {
      hide FromBe32;
      if Overflow(8) {
        return false, 0, 0;
      }
      SliceOfSlice(mem[..], ptr, end, 0, 4);
      SliceOfSlice(mem[..], ptr, end, 4, 8);
      assert Rest() == mem[..][ptr..end] && Rest()[..4] == Rest()[0..4];
      hi := FromBe32(mem[ptr..ptr + 4]);
      lo := FromBe32(mem[ptr + 4..ptr + 8]);
      ptr := ptr + 8;
      ok := true;
    }

    /** strlen, which may run beyond the buffer when nothing ends the string before. */
    method Length() returns (n: nat)
      requires Valid()
      ensures n == TextEnd(Rest())
    {
      n := 0;
      while ptr + n < end && mem[ptr + n] != 0
        invariant ptr + n <= end
        invariant IsText(mem[ptr..ptr + n])
      {
        assert mem[ptr..ptr + n + 1] == mem[ptr..ptr + n] + [mem[ptr + n]];
        n := n + 1;
      }
      assert Rest()[..n] == mem[ptr..ptr + n];
      TextEndIs(Rest(), n);
    }

    method GetText() returns (ok: bool, s: Text)
      requires Valid()
      modifies this`ptr
      ensures Valid()
      ensures ok <==> ReadText(old(Rest())).Got?
      ensures ok ==> s == ReadText(old(Rest())).value && Rest() == ReadText(old(Rest())).rest
      ensures !ok ==> ptr == old(ptr)
    {
      hide TextSize, TextEnd;
      s := [];
      var n := Length();
      TextRoom(n);
      if Overflow(TextSize(n)) {
        return false, s;
      }
      assert Rest()[..n] == mem[ptr..ptr + n];
      s := mem[ptr..ptr + n];
      ptr := ptr + TextSize(n);
      ok := true;
    }

    method GetBlob() returns (ok: bool, data: seq<byte>)
      requires Valid()
      modifies this`ptr
      ensures Valid()
      ensures ok <==> ReadBlob(old(Rest())).Got?
      ensures ok ==> data == ReadBlob(old(Rest())).value && Rest() == ReadBlob(old(Rest())).rest
    {
      hide Pad4, FromBe32;
      var n;
      data := [];
      ok, n := GetWord();
      if !ok || n >= 0x8000_0000 || Overflow(Pad4(n)) {
        return false, data;
      }
      assert mem[ptr..ptr + n] == Rest()[..n];
      data := mem[ptr..ptr + n];
      ptr := ptr + Pad4(n);
    }

    method GetBytes() returns (ok: bool, b0: byte, b1: byte, b2: byte, b3: byte)
      requires Valid()
      modifies this`ptr
      ensures Valid()
      ensures ok <==> |old(Rest())| >= 4
      ensures ok ==> Rest() == old(Rest())[4..]
      ensures ok ==> b0 == old(Rest())[0] && b1 == old(Rest())[1] && b2 == old(Rest())[2] && b3 == old(Rest())[3]
    {
      if Overflow(4) {
        return false, 0, 0, 0, 0;
      }
      b0, b1, b2, b3 := mem[ptr], mem[ptr + 1], mem[ptr + 2], mem[ptr + 3];
      ptr := ptr + 4;
      ok := true;
    }

    // ---- bundle items ----

    method ItemRaw(itm: Item) returns (ok: bool)
      requires Valid()
      modifies this`ptr, itm`size, itm`body
      ensures Valid() && ptr >= old(ptr)
      ensures ok <==> ReadSize(old(Rest())).Got?
      ensures ok ==> itm.size == ReadSize(old(Rest())).value && Rest() == ReadSize(old(Rest())).rest && itm.body == ptr
    {
      hide FromBe32;
      var size;
      ok, size := GetWord();
      if !ok {
        return;
      }
      itm.size := size;
      if size >= 0x8000_0000 || Overflow(size) {
        return false;
      }
      itm.body := ptr;
    }

    method ItemBegin(itm: Item, len: nat) returns (ok: bool)
      requires Valid()
      modifies this`ptr, itm
      ensures Valid() && ptr >= old(ptr)
      ensures ok <==> var s := old(Rest()); len <= |s| && |s| >= 16 && IsBundle(s) && ReadSize(s[16..]).Got?
      ensures ok ==> var s := old(Rest());
                     && itm.hi == FromBe32(s[8..12]) && itm.lo == FromBe32(s[12..16])
                     && itm.size == ReadSize(s[16..]).value && Rest() == ReadSize(s[16..]).rest && itm.body == ptr
    {
      hide FromBe32, ReadSize;
      ghost var s := Rest();
      if Overflow(len) || Overflow(16) {
        return false;
      }
      assert mem[ptr..ptr + 8] == s[..8];
      if mem[ptr..ptr + 8] != BUNDLE {
        return false;
      }
      ptr := ptr + 8;
      assert Rest() == s[8..] && s[8..][..4] == s[8..12] && s[8..][4..8] == s[12..16] && s[8..][8..] == s[16..];
      ok, itm.hi, itm.lo := GetPair();
      ok := ItemRaw(itm);
    }

    method ItemNext(itm: Item) returns (ok: bool)
      requires Valid() && itm.size <= |Rest()|
      modifies this`ptr, itm`size, itm`body
      ensures Valid() && ptr >= old(ptr)
      ensures ok <==> ReadSize(old(Rest()[itm.size..])).Got?
      ensures ok ==> itm.size == ReadSize(old(Rest()[itm.size..])).value
                     && Rest() == ReadSize(old(Rest()[itm.size..])).rest && itm.body == ptr
    {
      hide ReadSize;
      assert mem[ptr + itm.size..end] == Rest()[itm.size..];
      ptr := ptr + itm.size;
      ok := ItemRaw(itm);
    }

    // ---- message arguments ----

    /** Reads the argument that the iterator's type string announces; at its end there is nothing to read. */
    method ArgRaw(arg: Argument) returns (ok: bool)
      requires Valid()
      modifies this`ptr, arg`value
      ensures Valid()
      ensures old(arg.types) == [] ==> ok && Rest() == old(Rest())
      ensures old(arg.types) != [] ==>
                var r := ReadArg(old(arg.types)[0], old(Rest()));
                (ok <==> r.Got?) && (ok ==> arg.value == r.value && Rest() == r.rest)
    {
      hide FromBe32, TextSize, Pad4, ReadText, ReadBlob, SignedChar;
      arg.value := None;
      ok := true;
      if arg.types == [] {
        return;
      }
      var tag := arg.types[0];
      if tag == 'i' as int {
        var w;
        ok, w := GetWord();
        arg.value := Some(I32(w));
      } else if tag == 'f' as int {
        var w;
        ok, w := GetWord();
        arg.value := Some(F32(w));
      } else if tag == 's' as int {
        var s;
        ok, s := GetText();
        arg.value := Some(Str(s));
      } else if tag == 'b' as int {
        var data;
        ok, data := GetBlob();
        arg.value := Some(Blob(data));
      } else if tag == 'T' as int {
        arg.value := Some(True);
      } else if tag == 'F' as int {
        arg.value := Some(False);
      } else if tag == 'N' as int {
        arg.value := Some(Nil);
      } else if tag == 'I' as int {
        arg.value := Some(Impulse);
      } else if tag == 'h' as int {
        var hi, lo;
        ok, hi, lo := GetPair();
        arg.value := Some(I64(hi, lo));
      } else if tag == 'd' as int {
        var hi, lo;
        ok, hi, lo := GetPair();
        arg.value := Some(F64(hi, lo));
      } else if tag == 't' as int {
        var hi, lo;
        ok, hi, lo := GetPair();
        arg.value := Some(Time(hi, lo));
      } else if tag == 'S' as int {
        var s;
        ok, s := GetText();
        arg.value := Some(Sym(s));
      } else if tag == 'c' as int {
        var w;
        ok, w := GetWord();
        arg.value := Some(Chr(SignedChar(w % 256)));
      } else if tag == 'm' as int {
        var b0, b1, b2, b3;
        ok, b0, b1, b2, b3 := GetBytes();
        arg.value := Some(Midi(b0, b1, b2, b3));
      } else if tag == 'r' as int {
        var b0, b1, b2, b3;
        ok, b0, b1, b2, b3 := GetBytes();
        arg.value := Some(Rgba(b0, b1, b2, b3));
      }
    }
  }

  lemma {:induction false} TextEndIs(s: seq<byte>, n: nat)
    requires n <= |s| && IsText(s[..n]) && (n < |s| ==> s[n] == 0)
    ensures TextEnd(s) == n
  {
    if n > 0 {
      assert s[0] == s[..n][0];
      assert s[1..][..n - 1] == s[..n][1..];
      TextEndIs(s[1..], n - 1);
    }
  }

  // ---- tuples ----

  /** The tuple that a frame holds once it is popped. */
  function ListOf(s: seq<Atom>): Atoms {
    if s == [] then ANil else ACons(s[0], ListOf(s[1..]))
  }

  function ArgSeq(h: Host, args: seq<Arg>): (r: seq<Atom>) {
    if args == [] then [] else [ArgAtom(h, args[0])] + ArgSeq(h, args[1..])
  }

  function PacketSeq(h: Host, ps: Packets): (r: seq<Atom>) {
    match ps
    case NoMore => []
    case More(p, rest) => [PacketAtom(h, p)] + PacketSeq(h, rest)
  }

  lemma {:induction false} ArgList(h: Host, args: seq<Arg>)
    ensures ListOf(ArgSeq(h, args)) == ArgAtoms(h, args)
  {
    hide ArgAtom;
    if args != [] {
      ArgList(h, args[1..]);
      assert ArgSeq(h, args)[1..] == ArgSeq(h, args[1..]);
    }
  }

  lemma {:induction false} PacketList(h: Host, ps: Packets)
    ensures ListOf(PacketSeq(h, ps)) == ItemAtoms(h, ps)
  {
    hide PacketAtom;
    match ps
    case NoMore =>
    case More(p, rest) =>
      PacketList(h, rest);
      assert PacketSeq(h, ps)[1..] == PacketSeq(h, rest);
  }

  // ---- what is still to be forged ----

  /** The arguments from the one just read. */
  ghost function ArgsFrom(types: Text, ok: bool, value: Option<Arg>, rest: seq<byte>): seq<Arg> {
    if !ok || types == [] then []
    else (if value.Some? then [value.value] else []) + ReadArgs(types[1..], rest).0
  }

  lemma ArgsFromRead(types: Text, s: seq<byte>)
    ensures types != [] ==>
              var r := ReadArg(types[0], s);
              ReadArgs(types, s).0 == if r.Fail? then [] else ArgsFrom(types, true, r.value, r.rest)
    ensures types == [] ==> ReadArgs(types, s).0 == []
  {
    hide ReadArg;
  }

  /** The items from the one whose size was just read. */
  ghost function ItemsFrom(n: nat, rest: seq<byte>): Option<Packets>
    requires n <= |rest|
  {
    match Decode(rest[..n])
    case None => None
    case Some(p) =>
      match ReadItems(rest[n..])
      case None => None
      case Some(ps) => Some(More(p, ps))
  }

  lemma ItemsFromRead(s: seq<byte>)
    ensures ReadItems(s) == if ReadSize(s).Fail? then Some(NoMore) else ItemsFrom(ReadSize(s).value, ReadSize(s).rest)
  {
    hide ReadSize, Decode;
  }

  /** What was forged so far and what is left make up the whole. */
  ghost predicate SoFar(h: Host, whole: Option<Packets>, items: seq<Atom>, left: Option<Packets>) {
    && (whole.Some? <==> left.Some?)
    && (whole.Some? ==> PacketSeq(h, whole.value) == items + PacketSeq(h, left.value))
  }

  lemma SoFarStep(h: Host, whole: Option<Packets>, items: seq<Atom>, n: nat, rest: seq<byte>)
    requires n <= |rest| && SoFar(h, whole, items, ItemsFrom(n, rest))
    ensures Decode(rest[..n]).None? ==> whole.None?
    ensures Decode(rest[..n]).Some? ==>
              SoFar(h, whole, items + [PacketAtom(h, Decode(rest[..n]).value)], ReadItems(rest[n..]))
  {
    hide Decode, ReadItems, PacketAtom;
    if Decode(rest[..n]).Some? && ReadItems(rest[n..]).Some? {
      var p, ps := Decode(rest[..n]).value, ReadItems(rest[n..]).value;
      assert items + ([PacketAtom(h, p)] + PacketSeq(h, ps)) == items + [PacketAtom(h, p)] + PacketSeq(h, ps);
    }
  }

  ghost function Forged(h: Host, p: Option<Packet>): Option<Atom> {
    if p.None? then None else Some(PacketAtom(h, p.value))
  }

  // ---- the forge ----

  method ForgeMessage(h: Host, mem: array<byte>, start: nat, size: nat) returns (ref: Option<Atom>)
    requires start + size <= mem.Length && IsMessage(mem[start..start + size])
    ensures ref == Forged(h, ReadMessage(mem[start..start + size]))
  {
    hide ReadText, ReadArg, ReadArgs, ArgsFrom, ArgAtom, ArgAtoms, Decode, MessageAtom, ListOf;
    var reader := new Reader(mem, start, size);
    var arg := new Argument();
    var path: Text;
    var ok, types;
    ok, path := reader.GetText();
    if !ok {
      return None;
    }
    arg.path := path;
    ok, types := reader.GetText();
    if !ok || types == [] || types[0] != ',' as int {
      return None;
    }
    arg.types := types[1..];
    ghost var body := reader.Rest();
    ArgsFromRead(arg.types, body);
    ok := reader.ArgRaw(arg);
    if !ok {
      return None;
    }
    NoArgsFrom(arg.types, true, arg.value, reader.Rest());
    var args := ForgeArgs(h, reader, arg);
    ref := Some(MessageAtom(arg.path, args));
  }

  /** All arguments from the one that was just read. */
  method ForgeArgs(h: Host, reader: Reader, arg: Argument) returns (args: Atoms)
    requires reader.Valid()
    modifies reader`ptr, arg`types, arg`value
    ensures args == ArgAtoms(h, old(ArgsFrom(arg.types, true, arg.value, reader.Rest())))
  {
    hide ReadArg, ReadArgs, ArgsFrom, ArgAtom, ArgSeq, ArgAtoms, ListOf, Decode;
    ghost var whole := ArgsFrom(arg.types, true, arg.value, reader.Rest());
    ghost var left := whole;
    var ok := true;
    var atoms: seq<Atom> := [];
    assert [] + ArgSeq(h, whole) == ArgSeq(h, whole);
    while ok && arg.types != [] && reader.ptr <= reader.end
      invariant reader.Valid()
      invariant left == ArgsFrom(arg.types, ok, arg.value, reader.Rest())
      invariant ArgSeq(h, whole) == atoms + ArgSeq(h, left)
      decreases |arg.types|
    {
      ghost var value, rest := arg.value, reader.Rest();
      ArgsFromNext(h, arg.types, value, rest);
      if arg.value.Some? {
        atoms := atoms + [ArgAtom(h, arg.value.value)];
      }
      arg.types := arg.types[1..];
      ArgsFromRead(arg.types, rest);
      ok := reader.ArgRaw(arg);
      left := ArgsFrom(arg.types, ok, arg.value, reader.Rest());
      NoArgsFrom(arg.types, ok, arg.value, reader.Rest());
    }
    NoArgsFrom(arg.types, ok, arg.value, reader.Rest());
    AllForged(h, whole, atoms);
    args := ListOf(atoms);
  }

  lemma AllForged(h: Host, whole: seq<Arg>, atoms: seq<Atom>)
    requires ArgSeq(h, whole) == atoms + ArgSeq(h, [])
    ensures ListOf(atoms) == ArgAtoms(h, whole)
  {
    hide ArgAtom;
    ArgList(h, whole);
    assert atoms + [] == atoms;
  }

  lemma NoArgsFrom(types: Text, ok: bool, value: Option<Arg>, rest: seq<byte>)
    ensures !ok || types == [] ==> ArgsFrom(types, ok, value, rest) == []
  {
  }

  lemma ArgsFromNext(h: Host, types: Text, value: Option<Arg>, rest: seq<byte>)
    requires types != []
    ensures var more := ArgSeq(h, ReadArgs(types[1..], rest).0);
            ArgSeq(h, ArgsFrom(types, true, value, rest))
            == if value.Some? then [ArgAtom(h, value.value)] + more else more
  {
    hide ReadArgs, ArgAtom;
    var more := ReadArgs(types[1..], rest).0;
    if value.Some? {
      assert ([value.value] + more)[1..] == more;
    } else {
      assert [] + more == more;
    }
  }

  method ForgeBundle(h: Host, mem: array<byte>, start: nat, size: nat) returns (ref: Option<Atom>)
    requires start + size <= mem.Length && IsBundle(mem[start..start + size])
    ensures ref == Forged(h, Decode(mem[start..start + size]))
    decreases size, 0
  {
    hide ReadItems, ReadSize, FromBe32, PacketAtom, ItemsFrom, SoFar, Decode, PacketSeq, IsBundle, Stands, ListOf;
    hide BundleAtom, ItemAtoms, ReadMessage;
    ghost var buf: seq<byte> := mem[start..start + size];
    var reader := new Reader(mem, start, size);
    var itm := new Item();
    BundleCases(h, buf);
    var ok := reader.ItemBegin(itm, size);
    if !ok {
      return None;
    }
    ghost var whole := ReadItems(buf[16..]);
    ghost var left := whole;
    ItemsFromRead(buf[16..]);
    SoFarBegin(h, whole);
    var items: seq<Atom> := [];
    var hi, lo := itm.hi, itm.lo;
    while ok && reader.ptr <= start + size
      invariant reader.Valid() && reader.mem == mem && reader.end == start + size && reader.ptr >= start + 16
      invariant fresh(reader) && fresh(itm)
      invariant ok ==> itm.body == reader.ptr && itm.size <= |reader.Rest()|
      invariant ok ==> left == ItemsFrom(itm.size, reader.Rest())
      invariant !ok ==> left == Some(NoMore)
      invariant SoFar(h, whole, items, left)
      decreases ok, |reader.Rest()|
    {
      ghost var rest := reader.Rest();
      FrontOf(mem[..], itm.body, itm.size, start + size);
      assert mem[itm.body..itm.body + itm.size] == rest[..itm.size];
      var atom := ForgePacket(h, mem, itm.body, itm.size);
      SoFarStep(h, whole, items, itm.size, rest);
      if atom.None? {
        return None;
      }
      items := items + [atom.value];
      ItemsFromRead(rest[itm.size..]);
      left := ReadItems(rest[itm.size..]);
      ok := reader.ItemNext(itm);
    }
    SoFarEnd(h, whole, items);
    ref := Some(BundleAtom(hi, lo, ListOf(items)));
  }

  lemma FrontOf(m: seq<byte>, p: nat, n: nat, e: nat)
    requires p + n <= e <= |m|
    ensures m[p..p + n] == m[p..e][..n]
  {
  }

  lemma BundleCases(h: Host, b: seq<byte>)
    requires IsBundle(b)
    ensures |b| < 16 || ReadSize(b[16..]).Fail? || ReadItems(b[16..]).None? ==> Decode(b).None?
    ensures |b| >= 16 && ReadSize(b[16..]).Got? && ReadItems(b[16..]).Some? ==>
              Forged(h, Decode(b)) ==
              Some(BundleAtom(FromBe32(b[8..12]), FromBe32(b[12..16]), ItemAtoms(h, ReadItems(b[16..]).value)))
  {
    hide ReadSize, ReadItems, FromBe32, BundleAtom;
  }

  lemma SoFarBegin(h: Host, whole: Option<Packets>)
    ensures SoFar(h, whole, [], whole)
  {
  }

  lemma SoFarEnd(h: Host, whole: Option<Packets>, items: seq<Atom>)
    requires SoFar(h, whole, items, Some(NoMore))
    ensures whole.Some? && ListOf(items) == ItemAtoms(h, whole.value)
  {
    hide ListOf, ItemAtoms;
    PacketList(h, whole.value);
    assert items + [] == items;
  }

  /**
   What the forge is for: there is an atom exactly if there is a packet, it is in the form of forged
   atoms, and it stands for that packet. This leaves one atom only.
   */
  ghost predicate Stands(h: Host, p: Option<Packet>, ref: Option<Atom>) {
    && (ref.Some? <==> p.Some?)
    && (p.Some? && Known(h, p.value) ==> Tidy(h, ref.value) && AtomPacket(h, ref.value) == Some(Canon(p.value)))
  }

  lemma ForgedStands(h: Host, b: seq<byte>)
    ensures Stands(h, Decode(b), Forged(h, Decode(b)))
    ensures Decode(b).Some? && Known(h, Decode(b).value) ==>
              forall ref :: Stands(h, Decode(b), ref) ==> ref == Forged(h, Decode(b))
  {
    hide Decode, Tidy, AtomPacket, PacketAtom, Canon, Known, Encodable, Proper;
    if Decode(b).Some? && Known(h, Decode(b).value) {
      var p := Decode(b).value;
      DecodedIsOk(b);
      ForgedExactly(h, p, PacketAtom(h, p));
      forall ref | Stands(h, Decode(b), ref) ensures ref == Forged(h, Decode(b)) {
        ForgedExactly(h, p, ref.value);
      }
    }
  }

  /** The forge appends the atom that stands for the packet found in the buffer, or fails when there is none. */
  method ForgePacket(h: Host, mem: array<byte>, start: nat, size: nat) returns (ref: Option<Atom>)
    requires start + size <= mem.Length
    ensures ref == Forged(h, Decode(mem[start..start + size]))
    ensures Stands(h, Decode(mem[start..start + size]), ref)
    decreases size
  {
    hide ReadMessage, ReadItems, ReadSize, FromBe32, PacketAtom, ItemsFrom, SoFar, Stands;
    ForgedStands(h, mem[start..start + size]);
    ghost var buf: seq<byte> := mem[start..start + size];
    assert size >= 8 ==> mem[start..start + 8] == buf[..8];
    if size >= 8 && mem[start..start + 8] == BUNDLE {
      ref := ForgeBundle(h, mem, start, size);
    } else if size > 0 && mem[start] == '/' as int {
      ref := ForgeMessage(h, mem, start, size);
    } else {
      ref := None;
    }
  }
}
