/** Writer and forge together: what one prints the other reads, and the other way round. */
module OscRoundTrip {
  import opened Bytes
  import opened OscAtoms
  import opened OscDecode
  import opened OscForge
  import opened OscPacket
  import opened OscPadding
  import opened OscPrint
  import opened OscWriter
  import opened Splice
  import opened Urid

  /** The writer collects the types of a message in 128 bytes. */
  predicate FewArgs(p: Packet)
    decreases p
  {
    match p
    case Message(_, args) => |args| < 128
    case Bundle(_, _, items) => ItemsFewArgs(items)
  }

  predicate ItemsFewArgs(ps: Packets)
    decreases ps
  {
    match ps
    case NoMore => true
    case More(p, rest) => FewArgs(p) && ItemsFewArgs(rest)
  }

  lemma {:induction false} ArgsWalkable(h: Host, args: seq<Arg>)
    requires OkArgs(args)
    ensures Count(ArgAtoms(h, args)) == |args| && Sized(ArgAtoms(h, args))
  {
    hide Hex2, CharWord;
    if args != [] {
      ArgsWalkable(h, args[1..]);
      assert OkArg(args[0]);
    }
  }

  lemma MessageWalkable(path: Text, args: Atoms)
    requires Count(args) < 128 && Sized(args)
    ensures Walkable(MessageAtom(path, args))
  {
    hide Count, Sized;
    var props := MessageAtom(path, args).props;
    assert Lookup(props, MessagePath) == Some(AString(path));
    assert Lookup(props.rest, MessageArguments) == Some(ATuple(args));
  }

  lemma BundleWalkable(hi: word, lo: word, items: Atoms)
    requires WalkableItems(items)
    ensures Walkable(BundleAtom(hi, lo, items))
  {
    hide WalkableItems, TimetagAtom;
    var props := BundleAtom(hi, lo, items).props;
    assert Lookup(props.rest, BundleItems) == Some(ATuple(items));
  }

  lemma {:induction false} ForgedWalkable(h: Host, p: Packet)
    requires Encodable(p) && FewArgs(p)
    ensures PacketAtom(h, p).AObject? && Walkable(PacketAtom(h, p))
    decreases p
  {
    hide Walkable, OkArgs;
    match p
    case Message(path, args) =>
      ArgsWalkable(h, args);
      MessageWalkable(path, ArgAtoms(h, args));
    case Bundle(hi, lo, items) =>
      ItemsWalkable(h, items);
      BundleWalkable(hi, lo, ItemAtoms(h, items));
  }

  lemma {:induction false} ItemsWalkable(h: Host, ps: Packets)
    requires EncodableItems(ps) && ItemsFewArgs(ps)
    ensures WalkableItems(ItemAtoms(h, ps))
    decreases ps
  {
    hide Walkable, PacketAtom, Size;
    match ps
    case NoMore =>
    case More(p, rest) =>
      ForgedWalkable(h, p);
      ItemsWalkable(h, rest);
  }

  /**
   An object is written and read again: the forge finds the packet the object stands for, in
   exactly the bytes that were written.
   */
  method WriteThenForge(h: Host, w: Writer, a: Atom) returns (ok: bool, back: Option<Atom>)
    requires w.Valid() && a.AObject? && Walkable(a)
    requires AtomPacket(h, a).Some? && Proper(AtomPacket(h, a).value)
    modifies w`ptr, w.mem
    ensures w.Valid()
    ensures ok <==> old(w.ptr) + Size(AtomPacket(h, a).value) < w.end
    ensures ok ==> w.ptr == old(w.ptr) + Size(AtomPacket(h, a).value)
    ensures ok ==> back == Some(PacketAtom(h, AtomPacket(h, a).value))
  {
    hide AtomPacket, Walkable, Enc, Size, Encodable, Proper, Decode, PacketAtom, Over;
    ghost var p := AtomPacket(h, a).value;
    ghost var m: Memory := w.mem[..];
    back := None;
    var start := w.ptr;
    ok := w.PutPacket(h, a);
    if !ok {
      return;
    }
    ghost var was := m[start..start + Size(p)];
    Decodes(p, was);
    OverParts(m, start, Enc(p, was));
    assert w.mem[start..w.ptr] == w.mem[..][start..w.ptr];
    back := ForgePacket(h, w.mem, start, w.ptr - start);
  }

  /**
   A received packet is forged and written again. The copy decodes to the packet, with its MIDI
   ports cleared; it is the packet's encoding around whatever padding was there. It is the bytes
   received exactly if these were an encoding, every port is 0 and the padding agrees.
   */
  method ForgeThenWrite(h: Host, mem: array<byte>, start: nat, size: nat, w: Writer) returns (ok: bool)
    requires start + size <= mem.Length && w.Valid() && mem != w.mem
    requires Decode(mem[start..start + size]).Some? && FewArgs(Decode(mem[start..start + size]).value)
    requires Known(h, Decode(mem[start..start + size]).value)
    modifies w`ptr, w.mem
    ensures w.Valid()
    ensures var p := Canon(Decode(mem[start..start + size]).value);
            && Size(p) <= size && (ok <==> old(w.ptr) + Size(p) < w.end)
            && (ok ==>
                  && OkPacket(p) && old(w.ptr) + Size(p) <= |old(w.mem[..])|
                  && Put(old(w.mem[..]), old(w.ptr), w.mem[..], w.ptr, Enc(p, old(w.mem[w.ptr..w.ptr + Size(p)])))
                  && Decode(w.mem[old(w.ptr)..w.ptr]) == Some(p))
    ensures ok ==>
              var q := Decode(mem[start..start + size]).value;
              && OkPacket(q) && Size(q) == w.ptr - old(w.ptr) && w.ptr <= |old(w.mem[..])|
              && (w.mem[old(w.ptr)..w.ptr] == mem[start..start + size] <==>
                    && ZeroPorts(q) && Canonical(q, mem[start..start + size])
                    && PaddingAgrees(q, mem[start..start + size], old(w.mem[..])[old(w.ptr)..w.ptr]))
  {
    hide AtomPacket, Walkable, Enc, Size, Encodable, Proper, Decode, PacketAtom, Over, Canon, FewArgs, Known;
    hide PaddingAgrees, ZeroPorts;
    ghost var q := Decode(mem[start..start + size]).value;
    ghost var p := Canon(q);
    DecodedIsOk(mem[start..start + size]);
    CanonKeeps(q);
    PacketBack(h, q);
    ForgedWalkable(h, q);
    var a := ForgePacket(h, mem, start, size);
    ghost var m: Memory := w.mem[..];
    var at := w.ptr;
    ok := w.PutPacket(h, a.value);
    if ok {
      ghost var was := m[at..at + Size(p)];
      assert was == old(w.mem[w.ptr..w.ptr + Size(p)]);
      Decodes(p, was);
      OverParts(m, at, Enc(p, was));
      assert w.mem[at..w.ptr] == w.mem[..][at..w.ptr];
      CopyExactly(mem[start..start + size], was);
    }
  }

  /**
   A canonical packet, received as an encoding over `was` and copied over `there`, comes out as
   it went in exactly if the padding of its blobs agrees.
   */
  lemma CanonicalIsReproduced(p: Packet, was: seq<byte>, there: seq<byte>)
    requires OkPacket(p) && ZeroPorts(p) && |was| == |there| == Size(p)
    ensures Decode(Enc(p, was)) == Some(p) && Canon(p) == p
    ensures Enc(p, there) == Enc(p, was) <==> PaddingAgrees(p, was, there)
    ensures there == Enc(p, was) || Unpadded(p) ==> Enc(p, there) == Enc(p, was)
  {
    assert Encodable(p);
    hide *;
    Decodes(p, was);
    CanonExactly(p);
    ExactlyPadding(p, there, was);
    EncIsStable(p, was);
    PaddingSwaps(p, was, there);
    if Unpadded(p) {
      NoPadding(p, was, there);
    }
  }

  lemma PaddingSwaps(p: Packet, x: seq<byte>, y: seq<byte>)
    requires Encodable(p) && |x| == |y| == Size(p)
    ensures PaddingAgrees(p, x, y) <==> PaddingAgrees(p, y, x)
  {
    hide *;
    ExactlyPadding(p, x, y);
    ExactlyPadding(p, y, x);
  }

  /**
   The plugin's way out: a writer over as many bytes as the object's body takes, and the number
   of bytes to commit. The plugin never asks whether the packet went in, and commits what did: all
   of it exactly if it is smaller than the object, else a part of it.
   */
  method Send(h: Host, a: Atom, mem: array<byte>, dst: nat) returns (ok: bool, written: nat)
    requires a.AObject? && Walkable(a) && dst + BodySize(a) <= mem.Length < 0x8000_0000
    modifies mem
    ensures Within(old(mem[..]), mem[..], dst, dst + BodySize(a)) && written < BodySize(a)
    ensures AtomPacket(h, a).Some? ==>
              var p := AtomPacket(h, a).value;
              && (ok <==> Size(p) < BodySize(a)) && (written == Size(p) <==> ok)
              && (!ok ==> written < BodySize(a) <= Size(p))
              && (ok ==> Encodable(p)
                         && mem[..] == Over(old(mem[..]), dst, Enc(p, old(mem[..])[dst..dst + Size(p)])))
              && (ShortSymbols(p, SHORT) ==> ok)
  {
    hide AtomPacket, Walkable, Enc, Size, Encodable, Over, ShortSymbols, PropsSize;
    var reserve := BodySize(a);
    if AtomPacket(h, a).Some? && ShortSymbols(AtomPacket(h, a).value, SHORT) {
      ReserveSuffices(h, a);
    }
    var w := new Writer(mem, dst, reserve);
    ok := w.PutPacket(h, a);
    written := w.Finalize();
  }
}
