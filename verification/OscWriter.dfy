/** The OSC writer, which prints atoms as a packet into a region of memory. */
module OscWriter {
  import opened Bytes
  import opened OscPacket
  import opened OscPrint
  import opened Splice
  import opened Urid

  class Writer {
    const mem: array<byte>
    const start: nat
    const end: nat
    var ptr: nat

    /** Offsets are 32-bit signed differences of pointers. */
    ghost predicate Valid()
      reads this
    {
      start <= ptr <= end <= mem.Length < 0x8000_0000
    }

    constructor (mem: array<byte>, start: nat, size: nat)
      requires start + size <= mem.Length < 0x8000_0000
      ensures Valid()
      ensures this.mem == mem && this.start == start && this.end == start + size && ptr == start
    {
      this.mem := mem;
      this.start := start;
      this.end := start + size;
      this.ptr := start;
    }

    /** The size of what has been written; 0 is reported as nothing. */
    method Finalize() returns (size: nat)
      requires Valid()
      ensures size == ptr - start
    {
      size := if ptr > start then ptr - start else 0;
    }

    /** Strict: one byte always stays free. */
    predicate Overflow(size: nat)
      reads this
    {
      ptr + size >= end
    }

    /** memcpy */
    method Copy(at: nat, data: seq<byte>)
      requires at + |data| <= mem.Length
      modifies mem
      ensures mem[..] == Over(old(mem[..]), at, data)
    {
      forall i | 0 <= i < |data| {
        mem[at + i] := data[i];
      }
    }

    method AddWord(w: word) returns (ok: bool)
      requires Valid()
      modifies this`ptr, mem
      ensures Valid()
      ensures ok <==> old(ptr) + 4 < end
      ensures ok ==> Put(old(mem[..]), old(ptr), mem[..], ptr, Be32(w))
      ensures !ok ==> ptr == old(ptr) && mem[..] == old(mem[..])
    {
      if Overflow(4) {
        return false;
      }
      Copy(ptr, Be32(w));
      ptr := ptr + 4;
      ok := true;
    }

    method AddPair(hi: word, lo: word) returns (ok: bool)
      requires Valid()
      modifies this`ptr, mem
      ensures Valid()
      ensures ok <==> old(ptr) + 8 < end
      ensures ok ==> Put(old(mem[..]), old(ptr), mem[..], ptr, Be32(hi) + Be32(lo))
      ensures !ok ==> ptr == old(ptr) && mem[..] == old(mem[..])
    {
      if Overflow(8) {
        return false;
      }
      Copy(ptr, Be32(hi) + Be32(lo));
      ptr := ptr + 8;
      ok := true;
    }

    /** The last word is cleared first, then the string goes over it. */
    method AddString(s: Text) returns (ok: bool)
      requires Valid()
      modifies this`ptr, mem
      ensures Valid()
      ensures ok <==> old(ptr) + TextSize(|s|) < end
      ensures ok ==> Put(old(mem[..]), old(ptr), mem[..], ptr, EncText(s))
      ensures !ok ==> ptr == old(ptr) && mem[..] == old(mem[..])
    {
      hide TextSize;
      var padded := TextSize(|s|);
      if Overflow(padded) {
        return false;
      }
      TextBounds(|s|);
      TextCovered(mem[..], ptr, s);
      Copy(ptr + padded - 4, Zeros(4));
      Copy(ptr, s + [0]);
      ptr := ptr + padded;
      ok := true;
    }

    method AddFormat(fmt: Text) returns (ok: bool)
      requires Valid()
      modifies this`ptr, mem
      ensures Valid()
      ensures ok <==> old(ptr) + TextSize(1 + |fmt|) < end
      ensures ok ==> Put(old(mem[..]), old(ptr), mem[..], ptr, EncText(COMMA + fmt))
      ensures !ok ==> ptr == old(ptr) && mem[..] == old(mem[..])
    {
      hide TextSize, EncText, Over;
      var padded := TextSize(1 + |fmt|);
      if Overflow(padded) {
        return false;
      }
      TextBounds(1 + |fmt|);
      FormatCovered(mem[..], ptr, fmt);
      ghost var t: Text := COMMA + fmt;
      assert |t| == 1 + |fmt|;
      Copy(ptr + padded - 4, Zeros(4));
      Copy(ptr, COMMA);
      ptr := ptr + 1;
      Copy(ptr, fmt + [0]);
      ptr := ptr + padded - 1;
      ok := true;
    }

    /** The padding keeps the bytes that were there. */
    method AddBlob(data: seq<byte>) returns (ok: bool)
      requires Valid() && |data| < 0x8000_0000
      modifies this`ptr, mem
      ensures Valid()
      ensures ok <==> old(ptr) + 4 + Pad4(|data|) < end
      ensures ok ==> Put(old(mem[..]), old(ptr), mem[..], ptr,
                         Be32(|data|) + data + old(mem[ptr + 4 + |data|..ptr + 4 + Pad4(|data|)]))
      ensures !ok ==> ptr == old(ptr) && mem[..] == old(mem[..])
    {
      hide Pad4, Be32, Over;
      var padded := Pad4(|data|);
      if Overflow(4 + padded) {
        return false;
      }
      ghost var m: Memory := mem[..];
      ghost var p := ptr;
      ok := AddWord(|data|);
      var dst := ptr;
      ptr := ptr + padded;
      Copy(dst, data);
      BlobPut(m, p, Be32(|data|), data, p + 4 + padded);
    }

    method AddBytes(b0: byte, b1: byte, b2: byte, b3: byte) returns (ok: bool)
      requires Valid()
      modifies this`ptr, mem
      ensures Valid()
      ensures ok <==> old(ptr) + 4 < end
      ensures ok ==> Put(old(mem[..]), old(ptr), mem[..], ptr, [b0, b1, b2, b3])
      ensures !ok ==> ptr == old(ptr) && mem[..] == old(mem[..])
    {
      if Overflow(4) {
        return false;
      }
      mem[ptr] := b0;
      mem[ptr + 1] := b1;
      mem[ptr + 2] := b2;
      mem[ptr + 3] := b3;
      ptr := ptr + 4;
      ok := true;
    }

    /** Always port 0; a shorter message leaves the rest of the four bytes as they were. */
    method AddMidi(h: Host, data: seq<byte>) returns (ok: bool)
      requires Valid() && ptr < end
      modifies this`ptr, mem
      ensures Valid() && old(ptr) <= ptr < end
      ensures Within(old(mem[..]), mem[..], old(ptr), end)
      ensures ok <==> |data| <= 3 && old(ptr) + 4 < end
      ensures ok ==> Put(old(mem[..]), old(ptr), mem[..], ptr,
                         [0] + data + old(mem[ptr + 1 + |data|..ptr + 4]))
      ensures !ok ==> ptr == old(ptr) && mem[..] == old(mem[..])
      ensures PrintsArg(AtomArg(h, AMidi(data)), old(mem[..]), old(ptr), mem[..], ptr, end, ok)
    {
      hide Over, Put, PrintsArg, Within;
      ghost var m: Memory := mem[..];
      ghost var p := ptr;
      if |data| + 1 > 4 || Overflow(4) {
        MidiRefused(h, data, m, p, end);
        return false;
      }
      var at := ptr;
      ptr := ptr + 4;
      Copy(at, [0]);
      Copy(at + 1, data);
      ok := true;
      BlobPut(m, p, [0], data, p + 4);
      MidiDone(h, data, m, p, end);
    }

    method AddInt32(w: word) returns (ok: bool)
      requires Valid() && ptr < end
      modifies this`ptr, mem
      ensures Valid() && old(ptr) <= ptr < end
      ensures Within(old(mem[..]), mem[..], old(ptr), end)
      ensures PrintsArg(Some(I32(w)), old(mem[..]), old(ptr), mem[..], ptr, end, ok)
    {
      hide TextSize, Be32, EncText, CharWord, CText, Over, Put;
      ghost var m: Memory := mem[..];
      ghost var p := ptr;
      ok := AddWord(w);
      ArgDone(I32(w), m, p, mem[..], ptr, end, ok);
    }

    method AddFloat(w: word) returns (ok: bool)
      requires Valid() && ptr < end
      modifies this`ptr, mem
      ensures Valid() && old(ptr) <= ptr < end
      ensures Within(old(mem[..]), mem[..], old(ptr), end)
      ensures PrintsArg(Some(F32(w)), old(mem[..]), old(ptr), mem[..], ptr, end, ok)
    {
      hide TextSize, Be32, EncText, CharWord, CText, Over, Put;
      ghost var m: Memory := mem[..];
      ghost var p := ptr;
      ok := AddWord(w);
      ArgDone(F32(w), m, p, mem[..], ptr, end, ok);
    }

    method AddInt64(hi: word, lo: word) returns (ok: bool)
      requires Valid() && ptr < end
      modifies this`ptr, mem
      ensures Valid() && old(ptr) <= ptr < end
      ensures Within(old(mem[..]), mem[..], old(ptr), end)
      ensures PrintsArg(Some(I64(hi, lo)), old(mem[..]), old(ptr), mem[..], ptr, end, ok)
    {
      hide TextSize, Be32, EncText, CharWord, CText, Over, Put;
      ghost var m: Memory := mem[..];
      ghost var p := ptr;
      ok := AddPair(hi, lo);
      ArgDone(I64(hi, lo), m, p, mem[..], ptr, end, ok);
    }

    method AddDouble(hi: word, lo: word) returns (ok: bool)
      requires Valid() && ptr < end
      modifies this`ptr, mem
      ensures Valid() && old(ptr) <= ptr < end
      ensures Within(old(mem[..]), mem[..], old(ptr), end)
      ensures PrintsArg(Some(F64(hi, lo)), old(mem[..]), old(ptr), mem[..], ptr, end, ok)
    {
      hide TextSize, Be32, EncText, CharWord, CText, Over, Put;
      ghost var m: Memory := mem[..];
      ghost var p := ptr;
      ok := AddPair(hi, lo);
      ArgDone(F64(hi, lo), m, p, mem[..], ptr, end, ok);
    }

    method AddTimetag(hi: word, lo: word) returns (ok: bool)
      requires Valid() && ptr < end
      modifies this`ptr, mem
      ensures Valid() && old(ptr) <= ptr < end
      ensures Within(old(mem[..]), mem[..], old(ptr), end)
      ensures PrintsArg(Some(Time(hi, lo)), old(mem[..]), old(ptr), mem[..], ptr, end, ok)
    {
      hide TextSize, Be32, EncText, CharWord, CText, Over, Put;
      ghost var m: Memory := mem[..];
      ghost var p := ptr;
      ok := AddPair(hi, lo);
      ArgDone(Time(hi, lo), m, p, mem[..], ptr, end, ok);
    }

    method AddText(s: seq<byte>) returns (ok: bool)
      requires Valid() && ptr < end
      modifies this`ptr, mem
      ensures Valid() && old(ptr) <= ptr < end
      ensures Within(old(mem[..]), mem[..], old(ptr), end)
      ensures PrintsArg(Some(Str(CText(s))), old(mem[..]), old(ptr), mem[..], ptr, end, ok)
    {
      hide TextSize, Be32, EncText, CharWord, CText, Over, Put;
      ghost var m: Memory := mem[..];
      ghost var p := ptr;
      ok := AddString(CText(s));
      ArgDone(Str(CText(s)), m, p, mem[..], ptr, end, ok);
    }

    method AddSymbol(s: seq<byte>) returns (ok: bool)
      requires Valid() && ptr < end
      modifies this`ptr, mem
      ensures Valid() && old(ptr) <= ptr < end
      ensures Within(old(mem[..]), mem[..], old(ptr), end)
      ensures PrintsArg(Some(Sym(CText(s))), old(mem[..]), old(ptr), mem[..], ptr, end, ok)
    {
      hide TextSize, Be32, EncText, CharWord, CText, Over, Put;
      ghost var m: Memory := mem[..];
      ghost var p := ptr;
      ok := AddString(CText(s));
      ArgDone(Sym(CText(s)), m, p, mem[..], ptr, end, ok);
    }

    method AddChar(c: int) returns (ok: bool)
      requires Valid() && ptr < end && -128 <= c < 128
      modifies this`ptr, mem
      ensures Valid() && old(ptr) <= ptr < end
      ensures Within(old(mem[..]), mem[..], old(ptr), end)
      ensures PrintsArg(Some(Chr(c)), old(mem[..]), old(ptr), mem[..], ptr, end, ok)
    {
      hide TextSize, Be32, EncText, CharWord, CText, Over, Put;
      ghost var m: Memory := mem[..];
      ghost var p := ptr;
      ok := AddWord(CharWord(c));
      ArgDone(Chr(c), m, p, mem[..], ptr, end, ok);
    }

    method AddRgba(r: byte, g: byte, b: byte, a: byte) returns (ok: bool)
      requires Valid() && ptr < end
      modifies this`ptr, mem
      ensures Valid() && old(ptr) <= ptr < end
      ensures Within(old(mem[..]), mem[..], old(ptr), end)
      ensures PrintsArg(Some(Rgba(r, g, b, a)), old(mem[..]), old(ptr), mem[..], ptr, end, ok)
    {
      hide TextSize, Be32, EncText, CharWord, CText, Over, Put;
      ghost var m: Memory := mem[..];
      ghost var p := ptr;
      ok := AddBytes(r, g, b, a);
      ArgDone(Rgba(r, g, b, a), m, p, mem[..], ptr, end, ok);
    }

    method AddArg(h: Host, a: Atom) returns (ok: bool)
      requires Valid() && ptr < end && (a.AChunk? ==> |a.data| < 0x8000_0000)
      modifies this`ptr, mem
      ensures Valid() && old(ptr) <= ptr < end
      ensures Within(old(mem[..]), mem[..], old(ptr), end)
      ensures PrintsArg(AtomArg(h, a), old(mem[..]), old(ptr), mem[..], ptr, end, ok)
    {
      hide Pad4, Be32, CText, Lookup, UnHex2, Over, TextEnd, PrintsArg, Within, Put, ScanRgba, Timetag;
      ghost var m: Memory := mem[..];
      ghost var p := ptr;
      match a {
        case AInt(w) => ok := AddInt32(w);
        case AFloat(w) => ok := AddFloat(w);
        case AString(s) => ok := AddText(s);
        case AChunk(data) =>
          ok := AddBlob(data);
          BlobDone(data, m, p, mem[..], ptr, end, ok);
        case ALong(hi, lo) => ok := AddInt64(hi, lo);
        case ADouble(hi, lo) => ok := AddDouble(hi, lo);
        case AObject(OscTimetag, props) =>
          var (integral, fraction) := Timetag(props);
          ok := AddTimetag(integral, fraction);
        case AUrid(u) =>
          var symbol := h.unmap(u);
          if symbol.None? {
            ok := false;
            NotAnArg(m, p, end);
          } else {
            ok := AddSymbol(symbol.value);
          }
        case AMidi(data) => ok := AddMidi(h, data);
        case ALiteral(OscChar, t) => ok := AddChar(if t == [] then 0 else SignedChar(t[0]));
        case ALiteral(OscRgba, t) =>
          var color := ScanRgba(t);
          if color.None? {
            ok := false;
            NotAnArg(m, p, end);
          } else {
            ok := AddRgba(color.value.0, color.value.1, color.value.2, color.value.3);
          }
        case _ =>
          ok := true;
          NothingPrinted(h, a, m, p, end);
      }
    }

    method AddArgs(h: Host, args: Atoms) returns (ok: bool)
      requires Valid() && ptr < end && Sized(args)
      modifies this`ptr, mem
      ensures Valid() && old(ptr) <= ptr < end
      ensures Within(old(mem[..]), mem[..], old(ptr), end)
      ensures PrintsArgs(AtomArgs(h, args), old(mem[..]), old(ptr), mem[..], ptr, end, ok)
    {
      hide AtomArg, AtomArgs, ArgsLeft, Put, PrintsArg, PrintsArgs, Within, OkArgs;
      ghost var m: Memory := mem[..];
      ghost var p := ptr;
      ghost var xs := AtomArgs(h, args);
      ghost var done: seq<byte> := [];
      Untouched(m, p, end);
      AtomArgsOk(h, args);
      if xs.Some? {
        ArgsBegin(xs.value, m, p);
      }
      var cur := args;
      while cur.ACons?
        decreases cur
        invariant Valid() && p <= ptr < end && Sized(cur)
        invariant Within(m, mem[..], p, end)
        invariant xs.Some? ==>
                    && AtomArgs(h, cur).Some?
                    && ArgsLeft(xs.value, m, p, done, ptr, AtomArgs(h, cur).value)
                    && Put(m, p, mem[..], ptr, done)
      {
        ghost var m1: Memory := mem[..];
        ghost var q := ptr;
        if xs.Some? {
          ArgsHead(h, cur);
        }
        ok := AddArg(h, cur.head);
        WithinTwice(m, m1, mem[..], p, q, end);
        if !ok {
          if xs.Some? {
            ArgsStuck(xs.value, m, p, done, m1, q, AtomArgs(h, cur).value, mem[..], ptr, end);
          }
          ArgsRefused(xs, m, p, mem[..], ptr, end);
          return false;
        }
        if xs.Some? {
          done := ArgsStep(xs.value, m, p, done, m1, q, AtomArgs(h, cur).value, mem[..], ptr, end);
        }
        cur := cur.tail;
      }
      ok := true;
      if xs.Some? {
        ArgsEmpty(h);
        ArgsFinish(xs.value, m, p, done, mem[..], ptr, end);
      } else {
        ArgsUnknown(m, p, mem[..], ptr, end);
      }
    }

    /** The types of the arguments, cut at the first that has none. */
    method Format(h: Host, args: Atoms) returns (fmt: Text)
      requires Count(args) < 128
      ensures AtomArgs(h, args).Some? ==> fmt == Tags(AtomArgs(h, args).value)
    {
      hide AtomArg, AtomArgs, ArgType, TypeTag, CText, Tags;
      ghost var xs := AtomArgs(h, args);
      AtomArgsOk(h, args);
      fmt := [];
      var cur := args;
      while cur.ACons?
        decreases cur
        invariant |fmt| + Count(cur) == Count(args)
        invariant xs.Some? ==>
                    && AtomArgs(h, cur).Some? && |fmt| <= |xs.value|
                    && AtomArgs(h, cur).value == xs.value[|fmt|..]
                    && forall i :: 0 <= i < |fmt| ==> fmt[i] == TypeTag(xs.value[i])
      {
        if xs.Some? {
          ArgsHead(h, cur);
          AtomArgOk(h, cur.head);
        }
        fmt := fmt + [ArgType(cur.head)];
        cur := cur.tail;
      }
      if xs.Some? {
        TagsOf(h, args, fmt);
      }
      fmt := CText(fmt);
    }

    method PutMessage(h: Host, path: seq<byte>, args: Atoms) returns (ok: bool)
      requires Valid() && Count(args) < 128 && Sized(args)
      modifies this`ptr, mem
      ensures Valid() && ptr >= old(ptr) && (ok || old(ptr) < end ==> ptr < end)
      ensures Within(old(mem[..]), mem[..], old(ptr), end)
      ensures AtomArgs(h, args).Some? ==>
                Prints(Some(Message(CText(path), AtomArgs(h, args).value)),
                       old(mem[..]), old(ptr), mem[..], ptr, end, ok)
    {
      hide AtomArgs, CText, EncText, TextSize, ArgsSize, Over, Put, PrintsArgs, Prints, Within, Tags, OkArgs;
      ghost var m: Memory := mem[..];
      ghost var p := ptr;
      ghost var xs := AtomArgs(h, args);
      Untouched(m, p, end);
      AtomArgsOk(h, args);
      ok := AddString(CText(path));
      if !ok {
        if xs.Some? {
          MessageRefused(CText(path), xs.value, m, p, mem[..], ptr, end);
        }
        return;
      }
      ghost var m1: Memory := mem[..];
      ghost var p1 := ptr;
      PutMoves(m, p, m1, p1, EncText(CText(path)));
      PutWithin(m, p, m1, p1, EncText(CText(path)), end);
      var fmt := Format(h, args);
      ok := AddFormat(fmt);
      if !ok {
        if xs.Some? {
          MessageRefused(CText(path), xs.value, m, p, mem[..], ptr, end);
        }
        return;
      }
      ghost var m2: Memory := mem[..];
      ghost var p2 := ptr;
      PutMoves(m1, p1, m2, p2, EncText(COMMA + fmt));
      PutWithin(m1, p1, m2, p2, EncText(COMMA + fmt), end);
      WithinTwice(m, m1, m2, p, p1, end);
      ok := AddArgs(h, args);
      WithinTwice(m, m2, mem[..], p, p2, end);
      if xs.Some? {
        if ok {
          MessageDone(CText(path), xs.value, m, p, m1, p1, m2, p2, mem[..], ptr, end);
        } else {
          ArgsFull(xs.value, m2, p2, mem[..], ptr, end);
          MessageRefused(CText(path), xs.value, m, p, mem[..], ptr, end);
        }
      }
    }

    method PushBundle(hi: word, lo: word) returns (ok: bool, ref: nat)
      requires Valid()
      modifies this`ptr, mem
      ensures Valid() && ref == old(ptr)
      ensures ok <==> old(ptr) + 16 < end
      ensures ok ==> Put(old(mem[..]), old(ptr), mem[..], ptr, BUNDLE + (Be32(hi) + Be32(lo)))
      ensures !ok ==> ptr == old(ptr) && mem[..] == old(mem[..])
    {
      hide Be32, Over;
      ref := ptr;
      if Overflow(16) {
        return false, ref;
      }
      ghost var m: Memory := mem[..];
      Copy(ptr, BUNDLE);
      ptr := ptr + 8;
      ghost var m1: Memory := mem[..];
      ok := AddPair(hi, lo);
      PutPut(m, ref, m1, ref + 8, mem[..], ptr, BUNDLE, Be32(hi) + Be32(lo));
    }

    /** A bundle without items is taken back. */
    method PopBundle(ref: nat) returns (ok: bool)
      requires Valid() && start <= ref && ref + 16 <= ptr
      modifies this`ptr
      ensures Valid()
      ensures ok <==> old(ptr) > ref + 16
      ensures ptr == if ok then old(ptr) else ref
    {
      if ptr - ref - 16 <= 0 {
        ptr := ref;
        return false;
      }
      ok := true;
    }

    method PushItem() returns (ok: bool, ref: nat)
      requires Valid()
      modifies this`ptr
      ensures Valid() && ref == old(ptr)
      ensures ok <==> old(ptr) + 4 < end
      ensures ptr == if ok then ref + 4 else ref
    {
      ref := ptr;
      if Overflow(4) {
        return false, ref;
      }
      ptr := ptr + 4;
      ok := true;
    }

    /** The size goes in front of the item once it is known. */
    method PopItem(ref: nat) returns (ok: bool)
      requires Valid() && start <= ref && ref + 4 <= ptr
      modifies this`ptr, mem
      ensures Valid()
      ensures ok <==> old(ptr) > ref + 4
      ensures ptr == if ok then old(ptr) else ref
      ensures mem[..] == if ok then Over(old(mem[..]), ref, Be32(ptr - ref - 4)) else old(mem[..])
    {
      hide Be32, Over;
      var size := ptr - ref - 4;
      if size <= 0 {
        ptr := ref;
        return false;
      }
      Copy(ref, Be32(size));
      ok := true;
    }

    method PutItem(h: Host, a: Atom) returns (ok: bool)
      requires Valid() && a.AObject? && Walkable(a)
      modifies this`ptr, mem
      ensures Valid() && ptr >= old(ptr) && (ok || old(ptr) < end ==> ptr < end)
      ensures Within(old(mem[..]), mem[..], old(ptr), end)
      ensures PrintsItem(AtomPacket(h, a), old(mem[..]), old(ptr), mem[..], ptr, end, ok)
      decreases a, 1
    {
      hide AtomPacket, Walkable, Prints, PrintsItem, Within, Be32, Over, Size;
      ghost var m: Memory := mem[..];
      ghost var p := ptr;
      ghost var x := AtomPacket(h, a);
      Untouched(m, p, end);
      var ref;
      ok, ref := PushItem();
      if !ok {
        ItemRefused(x, m, p, mem[..], ptr, end);
        return;
      }
      Untouched(m, p, end);
      ok := PutPacket(h, a);
      ghost var m1: Memory := mem[..];
      ghost var p1 := ptr;
      WithinTwice(m, m, m1, p, p + 4, end);
      if !ok {
        PacketFull(x, m, p + 4, m1, p1, end);
        ItemRefused(x, m, p, m1, p1, end);
        return;
      }
      if x.Some? {
        ItemDone(x.value, m, p, m1, p1, end);
      }
      ok := PopItem(ref);
      SizeWithin(m, m1, p, Be32(if ok then p1 - p - 4 else 0), end);
      if x.None? {
        ItemUnknown(m, p, mem[..], ptr, end, ok);
      }
    }

    method PutItems(h: Host, items: Atoms) returns (ok: bool)
      requires Valid() && ptr < end && WalkableItems(items)
      modifies this`ptr, mem
      ensures Valid() && old(ptr) <= ptr < end
      ensures Within(old(mem[..]), mem[..], old(ptr), end)
      ensures PrintsItems(AtomPackets(h, items), old(mem[..]), old(ptr), mem[..], ptr, end, ok)
      decreases items, 2
    {
      hide AtomPacket, AtomPackets, ItemsLeft, Put, PrintsItem, PrintsItems, Within, Walkable;
      ghost var m: Memory := mem[..];
      ghost var p := ptr;
      ghost var qs := AtomPackets(h, items);
      ghost var done: seq<byte> := [];
      Untouched(m, p, end);
      ItemsEncodable(h, items);
      if qs.Some? {
        ItemsBegin(qs.value, m, p);
      }
      var cur := items;
      while cur.ACons?
        decreases cur
        invariant Valid() && p <= ptr < end && WalkableItems(cur)
        invariant cur == items || cur < items
        invariant Within(m, mem[..], p, end)
        invariant qs.Some? ==>
                    && AtomPackets(h, cur).Some?
                    && ItemsLeft(qs.value, m, p, done, ptr, AtomPackets(h, cur).value)
                    && Put(m, p, mem[..], ptr, done)
      {
        ghost var m1: Memory := mem[..];
        ghost var q := ptr;
        if qs.Some? {
          ItemsHead(h, cur);
        }
        ok := PutItem(h, cur.head);
        WithinTwice(m, m1, mem[..], p, q, end);
        if !ok {
          if qs.Some? {
            ItemsStuck(qs.value, m, p, done, m1, q, AtomPackets(h, cur).value, mem[..], ptr, end);
          }
          ItemsRefused(qs, m, p, mem[..], ptr, end);
          return false;
        }
        if qs.Some? {
          done := ItemsStep(qs.value, m, p, done, m1, q, AtomPackets(h, cur).value, mem[..], ptr, end);
        }
        cur := cur.tail;
      }
      ok := true;
      if qs.Some? {
        ItemsEmpty(h);
        ItemsFinish(qs.value, m, p, done, mem[..], ptr, end);
      } else {
        ItemsUnknown(m, p, mem[..], ptr, end, ok);
      }
    }

    method PutBundle(h: Host, hi: word, lo: word, items: Atoms) returns (ok: bool)
      requires Valid() && WalkableItems(items)
      modifies this`ptr, mem
      ensures Valid() && ptr >= old(ptr) && (ok || old(ptr) < end ==> ptr < end)
      ensures Within(old(mem[..]), mem[..], old(ptr), end)
      ensures AtomPackets(h, items).Some? && AtomPackets(h, items).value.More? ==>
                Prints(Some(Bundle(hi, lo, AtomPackets(h, items).value)), old(mem[..]), old(ptr), mem[..], ptr, end, ok)
      ensures items.ANil? ==> !ok && ptr == old(ptr)
      decreases items, 3
    {
      hide AtomPackets, Put, PrintsItems, Prints, Within, WalkableItems, Be32;
      ghost var m: Memory := mem[..];
      ghost var p := ptr;
      ghost var qs := AtomPackets(h, items);
      Untouched(m, p, end);
      var ref;
      ok, ref := PushBundle(hi, lo);
      if !ok {
        if qs.Some? {
          PacketRefused(Some(Bundle(hi, lo, qs.value)), m, p, mem[..], ptr, end);
        }
        return;
      }
      ghost var m1: Memory := mem[..];
      PutMoves(m, p, m1, ptr, BUNDLE + (Be32(hi) + Be32(lo)));
      PutWithin(m, p, m1, ptr, BUNDLE + (Be32(hi) + Be32(lo)), end);
      ok := PutItems(h, items);
      WithinTwice(m, m1, mem[..], p, p + 16, end);
      ItemsEmpty(h);
      if qs.Some? {
        BundleSizes(hi, lo, qs.value, m, p, m1, p + 16, mem[..], ptr, end, ok);
      }
      if !ok {
        return;
      }
      ok := PopBundle(ref);
    }

    /**
     Prints the packet an object stands for. It succeeds exactly when the packet and one more
     byte fit; nothing outside the free part of the region is touched in any case.
     */
    method PutPacket(h: Host, a: Atom) returns (ok: bool)
      requires Valid() && a.AObject? && Walkable(a)
      modifies this`ptr, mem
      ensures Valid() && ptr >= old(ptr) && (ok ==> ptr < end || ptr == old(ptr))
      ensures old(ptr) < end ==> ptr < end
      ensures Within(old(mem[..]), mem[..], old(ptr), end)
      ensures Prints(AtomPacket(h, a), old(mem[..]), old(ptr), mem[..], ptr, end, ok)
      decreases a, 0
    {
      hide AtomPackets, AtomArgs, Prints, Within, WalkableItems, Timetag, Lookup, CText, Sized, Count, Size;
      ghost var m: Memory := mem[..];
      ghost var p := ptr;
      ok := false;
      match a {
        case AObject(OscBundle, props) =>
          var timetag, items := Lookup(props, BundleTimetag), Lookup(props, BundleItems);
          if timetag.None? || !timetag.value.AObject? || !timetag.value.otype.OscTimetag?
             || items.None? || !items.value.ATuple? {
            NotAPacket(h, a, m, p, end, false);
            return false;
          }
          LookupSmaller(props, BundleItems);
          var (hi, lo) := Timetag(timetag.value.props);
          ok := PutBundle(h, hi, lo, items.value.items);
          if AtomPacket(h, a).None? {
            PacketUnknown(m, p, mem[..], ptr, end, ok);
          }
        case AObject(OscMessage, props) =>
          var path, args := Lookup(props, MessagePath), Lookup(props, MessageArguments);
          if path.None? || !path.value.AString? || (args.Some? && !args.value.ATuple?) {
            NotAPacket(h, a, m, p, end, true);
            return true;
          }
          ok := PutMessage(h, path.value.s, args.value.items);
          if AtomPacket(h, a).None? {
            PacketUnknown(m, p, mem[..], ptr, end, ok);
          }
        case _ =>
          NotAPacket(h, a, m, p, end, false);
      }
    }
  }
}
