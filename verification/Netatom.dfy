/**
 The serialiser of netatom.h, rewriting an atom in place. The buffer holds the atom, then the
 dictionary, then room to spare. Each method is proved to turn the words of a tree into the
 words of the tree that NetatomSpec computes, and to leave every other word alone.
 */
module Netatom {
  import opened Bytes
  import opened Splice
  import opened AtomTree
  import opened NetatomSpec
  import opened NetatomWire
  import opened Urid
  import opened NetatomMeaning
  import opened NetatomMemory

  class Netatom {
    const host: Host
    const swap: bool
    const mem: array<word>
    var base: nat      // word index of dict.buf
    var cur: nat       // word index of dict.cur
    var end: nat       // byte offset of dict.end
    var overflow: bool
    ghost var dict: Dict
    ghost var first: seq<word>   // the memory when serialising began

    constructor (host: Host, swap: bool, mem: array<word>)
      ensures this.host == host && this.swap == swap && this.mem == mem
    {
      this.host, this.swap, this.mem := host, swap, mem;
      base, cur, end, overflow := 0, 0, 0, false;
      dict := Empty(0);
      first := [];
    }

    /** The strncpy of a URI clears 8 bytes more than its entry, so the buffer must reach that far. */
    ghost predicate Valid()
      reads this, mem
    {
      && 4 * mem.Length < WORD_LIMIT
      && end / 4 + 2 <= mem.Length
      && base <= cur <= end / 4
      && dict.cap == end / 4 - base
      && dict.overflow == overflow
      && cur == base + DictLen(dict.entries)
      && SmallEntries(dict.entries)
      && mem[base..cur] == DictWords(AsUrid, false, dict.entries)
      && Spilled(first, mem[..], cur, dict.entries != [])
    }

    /** The words in front of the dictionary, where the atom is. */
    ghost function Low(): (r: seq<word>)
      reads this, mem
      requires base <= mem.Length
      ensures |r| == base
    {
      mem[..base]
    }

    /** Writes a word of the atom; the dictionary and everything behind it stay. */
    method Store(i: nat, w: word)
      requires i < base <= mem.Length
      modifies mem
      ensures mem[base..] == old(mem[base..]) && Low() == old(Low())[i := w]
    {
      mem[i] := w;
    }

    twostate lemma StillValid()
      requires old(Valid()) && unchanged(this) && mem[base..] == old(mem[base..])
      ensures Valid()
    {
      hide DictWords, DictLen, SmallEntries, Spilled;
      assert mem[base..cur] == mem[base..][..cur - base] && old(mem[base..cur]) == old(mem[base..])[..cur - base];
      assert mem[..][base..] == mem[base..] && old(mem[..])[base..] == old(mem[base..]);
      SpillStays(first, old(mem[..]), mem[..], base, cur, dict.entries != []);
    }

    method PutLow(i: nat, w: word)
      requires Valid() && i < base
      modifies mem
      ensures Valid() && Low() == old(Low())[i := w]
    {
      hide Valid;
      InBounds();
      Store(i, w);
      StillValid();
    }

    /** The search of _netatom_ser_uri through the dictionary. */
    method FindRef(urid: word) returns (match_: word)
      requires Valid() && urid != 0
      ensures match Find(dict.entries, urid)
              case Some(i) => match_ == RefTo(dict.entries, i) && match_ != 0
              case None => match_ == 0
    {
      hide EntryWords, DictWords, SmallEntries, RefTo, Find, EntryLen, DictLen;
      var ptr := base;
      match_ := 0;
      ghost var k := 0;
      EmptyPrefix();
      while ptr < cur
        invariant k <= |dict.entries| && ptr == base + DictLen(dict.entries[..k])
        invariant k == |dict.entries| ==> ptr == cur
        invariant k < |dict.entries| ==> ptr < cur
        invariant forall i :: 0 <= i < k ==> dict.entries[i].urid != urid
        decreases cur - ptr
      {
        EntryInMemory(k);
        if mem[ptr + 1] == urid {
          match_ := (4 * (ptr - base) + 1) % WORD_LIMIT;
          FindFirst(dict.entries, urid, k);
          RefIsOffset(dict.entries, k);
          return;
        }
        ptr := ptr + TotalWords(mem[ptr]);
        k := k + 1;
        WholePrefix(k);
      }
      assert k == |dict.entries|;
      var r := Find(dict.entries, urid);
    }

    lemma EmptyPrefix()
      ensures dict.entries[..0] == [] && DictLen([]) == 0
      ensures dict.entries != [] ==> DictLen(dict.entries) > 0
    {
    }

    lemma WholePrefix(k: nat)
      requires k <= |dict.entries|
      ensures k == |dict.entries| ==> dict.entries[..k] == dict.entries
      ensures k < |dict.entries| ==> DictLen(dict.entries[..k]) < DictLen(dict.entries)
    {
      if k == |dict.entries| {
        assert dict.entries[..k] == dict.entries;
      } else {
        DictLenAround(dict.entries, k);
      }
    }

    /** What memory holds where the k-th entry starts. */
    lemma EntryInMemory(k: nat)
      requires Valid() && k < |dict.entries|
      ensures var at := base + DictLen(dict.entries[..k]); var e := dict.entries[k];
              && at + EntryLen(e) <= cur
              && |e.uri| + 1 < WORD_LIMIT
              && mem[at] == |e.uri| + 1 && mem[at + 1] == e.urid
              && TotalWords(mem[at]) == EntryLen(e) >= 2
              && DictLen(dict.entries[..k + 1]) == DictLen(dict.entries[..k]) + EntryLen(e)
    {
      hide DictWords, IsText, PadWords, DictLen, SmallEntries;
      EntryHeader(AsUrid, false, dict.entries, k);
      var at := DictLen(dict.entries[..k]);
      var d := mem[base..cur];
      assert d[at] == mem[base + at] && d[at + 1] == mem[base + at + 1];
    }

    /** The strncpy of an entry's URI: it clears 8 bytes behind the entry as well. */
    method CopyUri(at: nat, uri: Uri)
      requires at + 4 + PadWords(|uri| + 1) <= mem.Length
      modifies mem
      ensures mem[..at + 2] == old(mem[..at + 2])
      ensures mem[at + 2..at + 2 + PadWords(|uri| + 1)] == PackUri(uri)
      ensures mem[at + 2 + PadWords(|uri| + 1)..at + 4 + PadWords(|uri| + 1)] == [0, 0]
      ensures mem[at + 4 + PadWords(|uri| + 1)..] == old(mem[at + 4 + PadWords(|uri| + 1)..])
    {
      hide PadWords, PackWord;
      ghost var top := at + 4 + PadWords(|uri| + 1);
      for j := 0 to 2 + PadWords(|uri| + 1)
        invariant mem[..at + 2] == old(mem[..at + 2]) && mem[top..] == old(mem[top..])
        invariant forall k :: 0 <= k < j ==> mem[at + 2 + k] == PackWord(uri, k)
      {
        mem[at + 2 + j] := PackWord(uri, j);
      }
      NothingPacked(uri, PadWords(|uri| + 1));
      NothingPacked(uri, PadWords(|uri| + 1) + 1);
    }

    method WriteEntry(at: nat, urid: word, uri: Uri)
      requires |uri| + 1 < WORD_LIMIT && at + 4 + PadWords(|uri| + 1) <= mem.Length
      modifies mem
      ensures mem[..at] == old(mem[..at])
      ensures mem[at..at + 2 + PadWords(|uri| + 1)] == EntryWords(AsUrid, false, Entry(urid, uri))
      ensures mem[at + 2 + PadWords(|uri| + 1)..at + 4 + PadWords(|uri| + 1)] == [0, 0]
      ensures mem[at + 4 + PadWords(|uri| + 1)..] == old(mem[at + 4 + PadWords(|uri| + 1)..])
    {
      hide PackUri, PadWords;
      ghost var m, top := mem[..at], at + 4 + PadWords(|uri| + 1);
      mem[at] := |uri| + 1;
      mem[at + 1] := urid;
      assert mem[..at + 2] == m + [|uri| + 1, urid];
      assert mem[top..] == old(mem[top..]);
      CopyUri(at, uri);
      assert mem[..at] == mem[..at + 2][..at] == m;
      assert mem[at..at + 2] == mem[..at + 2][at..] == [|uri| + 1, urid];
      assert mem[at..at + 2 + PadWords(|uri| + 1)] == mem[at..at + 2] + mem[at + 2..at + 2 + PadWords(|uri| + 1)];
    }

    /** Appends an entry: its header and its padded string. */
    method AddEntry(urid: word, uri: Uri)
      requires Valid() && IsText(uri) && 4 * (cur + 2 + PadWords(|uri| + 1)) <= end
      modifies this`cur, this`dict, mem
      ensures Valid() && Low() == old(Low())
      ensures dict == old(dict).(entries := old(dict.entries) + [Entry(urid, uri)])
    {
      hide DictWords, PadWords, PackUri, IsText, SmallEntries, EntryWords, DictLen, Spilled;
      var tot := 2 + PadWords(|uri| + 1);
      SizeFits(|uri| + 1);
      EntryAppended(dict.entries, Entry(urid, uri));
      ghost var m: seq<word> := mem[..];
      WriteEntry(cur, urid, uri);
      EntryWritten(m, mem[..], base, cur, cur + tot, first, dict.entries != []);
      cur := cur + tot;
      dict := dict.(entries := dict.entries + [Entry(urid, uri)]);
    }

    lemma SizeFits(size: nat)
      requires 4 * (cur + 2 + PadWords(size)) <= end && Valid()
      ensures size < WORD_LIMIT && cur + 2 + (2 + PadWords(size)) <= mem.Length
    {
      PadWordsFacts(size, 0);
    }

    lemma EntryAppended(entries: seq<Entry>, e: Entry)
      requires SmallEntries(entries) && |e.uri| + 1 < WORD_LIMIT && IsText(e.uri)
      ensures SmallEntries(entries + [e]) && DictLen(entries + [e]) == DictLen(entries) + EntryLen(e)
      ensures DictWords(AsUrid, false, entries + [e]) ==
              DictWords(AsUrid, false, entries) + EntryWords(AsUrid, false, e)
    {
      hide EntryWords, EntryLen, IsText;
      DictWordsAppend(AsUrid, false, entries, [e]);
      DictLenAppend(entries, [e]);
      assert DictLen([e]) == EntryLen(e);
      assert DictWords(AsUrid, false, [e]) == EntryWords(AsUrid, false, e);
    }

    /** _netatom_ser_uri up to the store: the reference for a URID, entered if it is new. */
    method RefFor(urid: word, uri: Option<Uri>) returns (ref: word)
      requires Valid() && Consistent(host) && urid != 0
      requires uri.Some? ==> host.unmap(urid) == uri
      modifies this`cur, this`overflow, this`dict, mem
      ensures Valid() && Low() == old(Low())
      ensures (ref, dict) == NetatomSpec.SerUri(host, old(dict), urid)
    {
      hide Consistent, Swap32, SmallEntries, DictWords, EntryWords, DictLen, IsText;
      var match_ := FindRef(urid);
      if match_ != 0 {
        ref := match_;
      } else {
        var name := if uri.Some? then uri else host.unmap(urid);
        if name.None? {
          ref := 0;
        } else {
          UnmapIsString(host, urid);
          var tot := 2 + PadWords(|name.value| + 1);
          ref := (4 * (cur - base) + 1) % WORD_LIMIT;
          assert dict.entries[..|dict.entries|] == dict.entries;
          if 4 * (cur + tot) <= end {
            AddEntry(urid, name.value);
          } else {
            ref := 0;
            overflow := true;
            dict := dict.(overflow := true);
          }
        }
      }
    }

    /** _netatom_ser_uri on word i of the atom; `uri` is the URI if the caller knows it. */
    method SerUri(i: nat, uri: Option<Uri>)
      requires Valid() && Consistent(host) && i < base
      requires uri.Some? ==> host.unmap(mem[i]) == uri
      modifies this`cur, this`overflow, this`dict, mem
      ensures Valid()
      ensures var (ref, d) := NetatomSpec.SerUri(host, old(dict), old(mem[i]));
              dict == d && Low() == old(Low())[i := Sw(swap, ref)]
    {
      hide Consistent, Swap32, Valid, NetatomSpec.SerUri;
      assert base <= mem.Length && Low()[i] == mem[i] by { InBounds(); }
      var urid := mem[i];
      SwTwice(swap, 0);
      SerZero(host, dict);
      if urid == 0 {
        return;
      }
      var ref := RefFor(urid, uri);
      PutLow(i, ref);
      if swap {
        PutLow(i, Swap32(ref));
      }
    }

    lemma InBounds()
      requires Valid()
      ensures base <= mem.Length
    {
    }

    lemma SerZero(h: Host, d: Dict)
      ensures NetatomSpec.SerUri(h, d, 0) == (0, d)
    {
    }

    // ---- the atom ----

    ghost predicate At(p: nat, data: seq<word>)
      reads this, mem
      requires base <= mem.Length
    {
      p + |data| <= base && Low()[p..p + |data|] == data
    }

    lemma ReadAt(p: nat, data: seq<word>, k: nat)
      requires base <= mem.Length && At(p, data) && k < |data|
      ensures mem[p + k] == data[k]
    {
      SliceIndex(Low(), p, data, k);
    }

    /** Swaps n 32-bit elements. */
    method SwapWords4(p: nat, n: nat, ghost words: seq<word>)
      requires base <= mem.Length && At(p, words) && n <= |words|
      modifies mem
      ensures mem[base..] == old(mem[base..]) && Low() == Over(old(Low()), p, Swap4(n, words))
    {
      hide Swap32, Over, Swap4, Swapping4;
      ghost var w: seq<word> := words;
      OverSame(Low(), p, words);
      Swap4Start(n, words);
      for i := 0 to n
        invariant mem[base..] == old(mem[base..]) && |w| == |words|
        invariant Low() == Over(old(Low()), p, w)
        invariant Swapping4(w, i, n, words)
      {
        SwapWord(p + i, old(Low()), p, w);
        Swap4Step(w, i, n, words);
        w := w[i := Swap32(w[i])];
      }
      Swap4End(w, n, words);
    }

    /** htobe32 on word q. */
    method SwapWord(q: nat, ghost s: seq<word>, ghost p: nat, ghost w: seq<word>)
      requires base <= mem.Length && p <= q < p + |w| <= |s| == base
      requires Low() == Over(s, p, w)
      modifies mem
      ensures mem[base..] == old(mem[base..]) && Low() == Over<word>(s, p, w[q - p := Swap32(w[q - p])])
    {
      hide Swap32, Over;
      OverIndex(s, p, w, q - p, Swap32(w[q - p]));
      assert mem[q] == Low()[q];
      Store(q, Swap32(mem[q]));
    }

    /** Swaps n 64-bit elements. */
    method SwapWords8(p: nat, n: nat, ghost words: seq<word>)
      requires base <= mem.Length && At(p, words) && 2 * n <= |words|
      modifies mem
      ensures mem[base..] == old(mem[base..]) && Low() == Over(old(Low()), p, Swap8(n, words))
    {
      hide Swap32, Over, Swap8;
      ghost var w: seq<word> := words;
      OverSame(Low(), p, words);
      Swap8Start(n, words);
      for i := 0 to n
        invariant mem[base..] == old(mem[base..]) && |w| == |words|
        invariant Low() == Over(old(Low()), p, w)
        invariant w[..2 * i] + Swap8(n - i, w[2 * i..]) == Swap8(n, words)
      {
        SwapPair(p + 2 * i, w[2 * i], w[2 * i + 1], old(Low()), p, w);
        Swap8Step(w, i, n);
        w := w[2 * i := Swap32(w[2 * i + 1])][2 * i + 1 := Swap32(w[2 * i])];
      }
      Swap8Start(0, w[2 * n..]);
      assert w[..2 * n] + w[2 * n..] == w;
    }

    /** htobe64 on the two words at q, which hold lo and hi. */
    method SwapPair(q: nat, ghost lo: word, ghost hi: word, ghost s: seq<word>, ghost p: nat, ghost w: seq<word>)
      requires base <= mem.Length && p <= q && q + 2 <= p + |w| && p + |w| <= |s| == base
      requires Low() == Over(s, p, w) && w[q - p] == lo && w[q - p + 1] == hi
      modifies mem
      ensures mem[base..] == old(mem[base..])
      ensures Low() == Over<word>(s, p, w[q - p := Swap32(hi)][q - p + 1 := Swap32(lo)])
    {
      hide Swap32, Over;
      OverIndex(s, p, w, q - p, Swap32(hi));
      OverIndex(s, p, w, q - p + 1, Swap32(lo));
      assert mem[q] == Low()[q] && mem[q + 1] == Low()[q + 1];
      var l, h := mem[q], mem[q + 1];
      Store(q, Swap32(h));
      OverIndex(s, p, w[q - p := Swap32(hi)], q - p + 1, Swap32(lo));
      Store(q + 1, Swap32(l));
    }

    /** The elements of the vector at p, whose number and width are read from memory. */
    method Elements(p: nat, ghost width: word, ghost size: nat, ghost words: seq<word>)
      requires base <= mem.Length && At(p + 2, words) && |words| == PadWords(size)
      requires 2 <= p && p + 2 <= base && mem[p - 2] == 8 + size && mem[p] == width
      modifies mem
      ensures mem[base..] == old(mem[base..])
      ensures Low() == Over(old(Low()), p + 2, SwapElements(swap, width, size, words))
    {
      hide Over, Swap32, Swap4, Swap8, PadWords;
      ElementsFit(size);
      OverSame(Low(), p + 2, words);
      if swap {
        var n := mem[p - 2] - 8;
        if mem[p] == 4 {
          SwapWords4(p + 2, n / 4, words);
        } else if mem[p] == 8 {
          SwapWords8(p + 2, n / 8, words);
        }
      }
    }

    /** One 32-bit number, and the padding behind it. */
    method Swap32At(p: nat, ghost w: word, ghost pad: word)
      requires base <= mem.Length && At(p, [w, pad])
      modifies mem
      ensures mem[base..] == old(mem[base..]) && Low() == Over(old(Low()), p, [Sw(swap, w), pad])
    {
      hide Swap32, Over;
      ReadAt(p, [w, pad], 0);
      OverSame(Low(), p, [w, pad]);
      OverOfTwo(Low(), p, w, pad, Swap32(w));
      if swap {
        Store(p, Swap32(mem[p]));
      }
    }

    /** One 64-bit number. */
    method Swap64At(p: nat, ghost lo: word, ghost hi: word)
      requires base <= mem.Length && At(p, [lo, hi])
      modifies mem
      ensures mem[base..] == old(mem[base..]) && Low() == Over(old(Low()), p, Sw64(swap, lo, hi))
    {
      hide Swap32, Over;
      OverSame(Low(), p, [lo, hi]);
      if swap {
        SetOfTwo(lo, hi, Swap32(hi), Swap32(lo));
        SwapPair(p, lo, hi, Low(), p, [lo, hi]);
      }
    }

    method Ser32(p: nat, ghost w: word, ghost pad: word)
      requires Valid() && At(p, [w, pad])
      modifies mem
      ensures Valid() && Low() == Over(old(Low()), p, [Sw(swap, w), pad])
    {
      hide Valid, Swap32, Over;
      InBounds();
      Swap32At(p, w, pad);
      StillValid();
    }

    method Ser64(p: nat, ghost lo: word, ghost hi: word)
      requires Valid() && At(p, [lo, hi])
      modifies mem
      ensures Valid() && Low() == Over(old(Low()), p, Sw64(swap, lo, hi))
    {
      hide Valid, Swap32, Over;
      InBounds();
      Swap64At(p, lo, hi);
      StillValid();
    }

    /** A URID in front of another word. */
    method SerFirst(p: nat, ghost u: word, ghost v: word)
      requires Valid() && Consistent(host) && At(p, [u, v])
      modifies this`cur, this`overflow, this`dict, mem
      ensures Valid()
      ensures var (u', d) := NetatomSpec.SerUri(host, old(dict), u);
              dict == d && Low() == Over(old(Low()), p, [Sw(swap, u'), v])
    {
      hide Valid, Swap32, Over, Consistent, NetatomSpec.SerUri;
      InBounds();
      ReadAt(p, [u, v], 0);
      OverSame(Low(), p, [u, v]);
      OverOfTwo(Low(), p, u, v, Sw(swap, NetatomSpec.SerUri(host, dict, u).0));
      SerUri(p, None);
    }

    /** A URID behind another word. */
    method SerSecond(p: nat, ghost u: word, ghost v: word)
      requires Valid() && Consistent(host) && At(p, [u, v])
      modifies this`cur, this`overflow, this`dict, mem
      ensures Valid()
      ensures var (v', d) := NetatomSpec.SerUri(host, old(dict), v);
              dict == d && Low() == Over(old(Low()), p, [u, Sw(swap, v')])
    {
      hide Valid, Swap32, Over, Consistent, NetatomSpec.SerUri;
      InBounds();
      ReadAt(p, [u, v], 1);
      OverSame(Low(), p, [u, v]);
      OverOfTwo(Low(), p, u, v, Sw(swap, NetatomSpec.SerUri(host, dict, v).0));
      SerUri(p + 1, None);
    }

    /** Two URIDs: key and context, id and type, data type and language. */
    method SerPair(p: nat, ghost u: word, ghost v: word)
      requires Valid() && Consistent(host) && At(p, [u, v])
      modifies this`cur, this`overflow, this`dict, mem
      ensures Valid()
      ensures var (u', d1) := NetatomSpec.SerUri(host, old(dict), u);
              var (v', d2) := NetatomSpec.SerUri(host, d1, v);
              dict == d2 && Low() == Over(old(Low()), p, [Sw(swap, u'), Sw(swap, v')])
    {
      hide Valid, Swap32, Over, Consistent, NetatomSpec.SerUri, Sw;
      InBounds();
      ghost var s, u' := Low(), Sw(swap, NetatomSpec.SerUri(host, dict, u).0);
      SerFirst(p, u, v);
      OverParts(s, p, [u', v]);
      SerSecond(p, u', v);
      OverTwice(s, p, [u', v], [u', Sw(swap, NetatomSpec.SerUri(host, NetatomSpec.SerUri(host, old(dict), u).1, v).0)]);
    }

    /** The two words before the children, once the children are done. */
    method SerHead(p: nat, kind: Kind, ghost h0: word, ghost h1: word)
      requires Valid() && Consistent(host) && At(p, EncHead(kind, h0, h1, false))
      modifies this`cur, this`overflow, this`dict, mem
      ensures Valid()
      ensures var (h0', h1', d) := NetatomSpec.SerHead(host, old(dict), kind, h0, h1);
              dict == d && Low() == Over(old(Low()), p, EncHead(kind, h0', h1', swap))
    {
      hide Valid, Swap32, Over, Consistent, NetatomSpec.SerUri;
      InBounds();
      ghost var s := Low();
      match kind
      case KTuple =>
        OverSame(s, p, []);
      case KObject =>
        SerPair(p, h0, h1);
      case KSequence =>
        ghost var h0' := Sw(swap, NetatomSpec.SerUri(host, dict, h0).0);
        SerFirst(p, h0, h1);
        OverParts(s, p, [h0', h1]);
        ReadAt(p, [h0', h1], 1);
        OverOfTwo(s, p, h0', h1, Swap32(h1));
        if swap {
          PutLow(p + 1, Swap32(mem[p + 1]));
        }
    }

    /** The two words in front of a child. */
    method SerPrefix(p: nat, kind: Kind, ghost p0: word, ghost p1: word)
      requires Valid() && Consistent(host) && At(p, EncPrefix(kind, p0, p1, false))
      modifies this`cur, this`overflow, this`dict, mem
      ensures Valid()
      ensures var (p0', p1', d) := NetatomSpec.SerPrefix(host, old(dict), kind, p0, p1);
              dict == d && Low() == Over(old(Low()), p, EncPrefix(kind, p0', p1', swap))
    {
      hide Valid, Swap32, Over, Consistent, NetatomSpec.SerUri;
      InBounds();
      match kind
      case KTuple => OverSame(Low(), p, []);
      case KObject => SerPair(p, p0, p1);
      case KSequence => Ser64(p, p0, p1);
    }

    /** A vector: the elements, then the element size, then the element type. */
    method SerVector(p: nat, ghost width: word, ghost t: word, ghost size: nat, ghost words: seq<word>)
      requires Valid() && Consistent(host) && At(p, [width, t] + words)
      requires 2 <= p && mem[p - 2] == 8 + size && |words| == PadWords(size)
      modifies this`cur, this`overflow, this`dict, mem
      ensures Valid()
      ensures var (t', d) := NetatomSpec.SerUri(host, old(dict), t);
              && dict == d
              && Low() == Over(old(Low()), p, [Sw(swap, width), Sw(swap, t')] + SwapElements(swap, width, size, words))
    {
      hide Valid, Over, Consistent, NetatomSpec.SerUri, Swap32, Swap4, Swap8, PadWords;
      InBounds();
      ghost var s := Low();
      ReadAt(p, [width, t] + words, 0);
      SubSlice(s, p, [width, t], words);
      Elements(p, width, size, words);
      StillValid();
      ghost var e := SwapElements(swap, width, size, words);
      FrontOfOver(s, p, [width, t], words, e);
      if swap {
        ReadAt(p, [width, t], 0);
        PutLow(p, Swap32(mem[p]));
      }
      PairSwapped(s, p, [width, t], e, Sw(swap, width));
      ghost var s1 := Low();
      SerSecond(p, Sw(swap, width), t);
      OverFrontTwice(s, p, [Sw(swap, width), t], e,
                     [Sw(swap, width), Sw(swap, NetatomSpec.SerUri(host, old(dict), t).0)]);
    }

    /** Rewrites the child that was left pending while the iterator still needed its size. */
    method Flush(q: nat, ghost s: seq<word>, ghost p: nat, ghost done: seq<word>, ghost a: Atom, ghost t: seq<word>)
      requires Valid() && Consistent(host) && WellFormed(a) && WellTyped(host, a)
      requires q == p + |done| && q + Len(a) + |t| <= |s| == base
      requires Low() == Over(s, p, done + Enc(a, false) + t)
      modifies this`cur, this`overflow, this`dict, mem
      ensures Valid()
      ensures var (a', d) := NetatomSpec.SerAtom(host, old(dict), a);
              dict == d && WellFormed(a') && Len(a') == Len(a) && Low() == Over(s, p, done + Enc(a', swap) + t)
      decreases Len(a), 1
    {
      hide Valid, Consistent, NetatomSpec.SerAtom, WellFormed, WellTyped, Enc, Len;
      InBounds();
      ReadInside(s, p, done, Enc(a, false), t);
      ghost var a' := NetatomSpec.SerAtom(host, dict, a).0;
      SerShape(host, dict, a);
      SerAtom(q, a);
      OverInside(s, p, done, Enc(a, false), t, Enc(a', swap));
    }

    /** Rewrites the two words in front of the child the iterator has just reached. */
    method Open(it: nat, kind: Kind, ghost s: seq<word>, ghost p: nat, ghost done: seq<word>, ghost p0: word,
           ghost p1: word, ghost t: seq<word>)
      requires Valid() && Consistent(host)
      requires it == p + |done| && it + Extra(kind) + |t| <= |s| == base
      requires Low() == Over(s, p, done + EncPrefix(kind, p0, p1, false) + t)
      modifies this`cur, this`overflow, this`dict, mem
      ensures Valid()
      ensures var (p0', p1', d) := NetatomSpec.SerPrefix(host, old(dict), kind, p0, p1);
              dict == d && Low() == Over(s, p, done + EncPrefix(kind, p0', p1', swap) + t)
    {
      hide Valid, Consistent, NetatomSpec.SerPrefix, EncPrefix;
      InBounds();
      ghost var (p0', p1', d) := NetatomSpec.SerPrefix(host, dict, kind, p0, p1);
      ReadInside(s, p, done, EncPrefix(kind, p0, p1, false), t);
      SerPrefix(it, kind, p0, p1);
      OverInside(s, p, done, EncPrefix(kind, p0, p1, false), t, EncPrefix(kind, p0', p1', swap));
    }

    /** The first half of an iteration: the pending child, if there is one. */
    method FlushPending(body: Option<nat>, ghost s: seq<word>, ghost p: nat, ghost done: seq<word>, kind: Kind,
           ghost prev: Option<Atom>, ghost rest: Kids)
      returns (ghost done': seq<word>)
      requires Valid() && Consistent(host) && WellFormedKids(rest)
      requires prev.Some? ==> WellFormed(prev.value) && WellTyped(host, prev.value)
      requires body == if prev.Some? then Some(p + |done|) else None
      requires p + |done| + OptLen(prev) + KidsLen(kind, rest) <= |s| == base
      requires Low() == Over(s, p, done + EncOpt(prev) + EncKids(kind, rest, false))
      modifies this`cur, this`overflow, this`dict, mem
      ensures Valid() && |done'| == |done| + OptLen(prev)
      ensures Low() == Over(s, p, done' + EncKids(kind, rest, false))
      ensures Shift(done', Finish(host, swap, dict, kind, None, rest)) ==
              Shift(done, Finish(host, swap, old(dict), kind, prev, rest))
      decreases OptLen(prev), 2
    {
      hide Valid, Consistent, Finish, Enc, EncKids, WellTyped, WellFormed, WellFormedKids, NetatomSpec.SerAtom, Len;
      hide KidsLen, Over, Shift;
      InBounds();
      done' := done;
      if body.Some? {
        ghost var d := dict;
        FinishFlush(host, swap, d, kind, prev.value, rest);
        ghost var a' := NetatomSpec.SerAtom(host, d, prev.value).0;
        Flush(body.value, s, p, done, prev.value, EncKids(kind, rest, false));
        ShiftTwice(done, Enc(a', swap), Finish(host, swap, dict, kind, None, rest));
        done' := done + Enc(a', swap);
      } else {
        NothingBetween(done, EncKids(kind, rest, false));
      }
    }

    /** The second half: the words in front of the next child, and the step over that child. */
    method OpenChild(it: nat, ghost s: seq<word>, ghost p: nat, ghost done: seq<word>, kind: Kind, ghost rest: Kids)
      returns (next: nat, ghost done': seq<word>)
      requires Valid() && Consistent(host) && WellFormedKids(rest) && rest.Cons?
      requires it == p + |done| && it + KidsLen(kind, rest) <= |s| == base
      requires Low() == Over(s, p, done + EncKids(kind, rest, false))
      modifies this`cur, this`overflow, this`dict, mem
      ensures Valid() && |done'| == |done| + Extra(kind) && next == it + Extra(kind) + Len(rest.value)
      ensures Low() == Over(s, p, done' + EncOpt(Some(rest.value)) + EncKids(kind, rest.rest, false))
      ensures Shift(done', Finish(host, swap, dict, kind, Some(rest.value), rest.rest)) ==
              Shift(done, Finish(host, swap, old(dict), kind, None, rest))
    {
      hide Valid, Consistent, Finish, Enc, EncKids, EncPrefix, WellFormed, NetatomSpec.SerPrefix, Len, Over, Shift;
      hide TotalWords;
      InBounds();
      ghost var t := Enc(rest.value, false) + EncKids(kind, rest.rest, false);
      ghost var pre := NetatomSpec.SerPrefix(host, dict, kind, rest.p0, rest.p1);
      ghost var x := EncPrefix(kind, pre.0, pre.1, swap);
      FinishOpen(host, swap, dict, kind, rest);
      UnfoldKids(kind, rest, done);
      Open(it, kind, s, p, done, rest.p0, rest.p1, t);
      done' := done + x;
      ShiftTwice(done, x, Finish(host, swap, dict, kind, Some(rest.value), rest.rest));
      Regroup(done', Enc(rest.value, false), EncKids(kind, rest.rest, false));
      SizeInPlace(s, p, done', rest.value, EncKids(kind, rest.rest, false));
      StepIsLen(rest.value);
      next := it + Extra(kind) + TotalWords(mem[it + Extra(kind)]);
    }

    /** The loop over the children, each rewritten one iteration after the iterator has passed it. */
    method SerKids(p: nat, stop: nat, kind: Kind, ghost kids: Kids)
      requires Valid() && Consistent(host) && WellFormedKids(kids) && WellTypedKids(host, kids)
      requires At(p, EncKids(kind, kids, false)) && stop == p + KidsLen(kind, kids)
      modifies this`cur, this`overflow, this`dict, mem
      ensures Valid()
      ensures var (kids', d) := NetatomSpec.SerKids(host, old(dict), kind, kids);
              && dict == d && WellFormedKids(kids') && KidsLen(kind, kids') == KidsLen(kind, kids)
              && Low() == Over(old(Low()), p, EncKids(kind, kids', swap))
      decreases KidsLen(kind, kids) + 1, 0
    {
      hide Valid, Consistent, Finish, Enc, EncKids, WellTyped, WellFormed, WellTypedKids, WellFormedKids, Len;
      hide KidsLen, Over, Shift, EncOpt;
      InBounds();
      ghost var s, d0 := Low(), dict;
      ghost var done: seq<word>, prev: Option<Atom>, rest := [], None, kids;
      var it, body := p, None;
      FinishStart(host, swap, d0, kind, kids);
      OverSame(s, p, EncKids(kind, kids, false));
      EmptyParts(kind, kids);
      while it < stop
        invariant Valid() && base <= mem.Length && |s| == base
        invariant WellFormedKids(rest) && WellTypedKids(host, rest)
        invariant prev.Some? ==> WellFormed(prev.value) && WellTyped(host, prev.value)
        invariant it == p + |done| + OptLen(prev) && it + KidsLen(kind, rest) == stop <= base
        invariant body == if prev.Some? then Some(p + |done|) else None
        invariant Low() == Over(s, p, done + EncOpt(prev) + EncKids(kind, rest, false))
        invariant Finish(host, swap, d0, kind, None, kids) == Shift(done, Finish(host, swap, dict, kind, prev, rest))
        decreases stop - it
      {
        RestNotEmpty(kind, rest);
        done := FlushPending(body, s, p, done, kind, prev, rest);
        body := Some(it + Extra(kind));
        it, done := OpenChild(it, s, p, done, kind, rest);
        prev, rest := Some(rest.value), rest.rest;
      }
      RestEmpty(kind, rest);
      done := FlushPending(body, s, p, done, kind, prev, rest);
      FinishEnd(host, swap, d0, dict, kind, kids, done);
    }

    lemma SizeInPlace(s: seq<word>, p: nat, done: seq<word>, a: Atom, t: seq<word>)
      requires base <= mem.Length && WellFormed(a) && p + |done| + Len(a) + |t| <= |s| == base
      requires Low() == Over(s, p, done + Enc(a, false) + t)
      ensures p + |done| < mem.Length && mem[p + |done|] == BodyBytes(a.body)
    {
      hide EncBody, Over;
      ReadInside(s, p, done, Enc(a, false), t);
      ReadAt(p + |done|, Enc(a, false), 0);
    }

    /** An object, a tuple or a sequence: the children first, then the words before them. */
    method SerNode(p: nat, kind: Kind, ghost h0: word, ghost h1: word, ghost kids: Kids)
      requires Valid() && Consistent(host) && WellFormedKids(kids) && WellTypedKids(host, kids)
      requires At(p, EncHead(kind, h0, h1, false) + EncKids(kind, kids, false))
      requires 2 <= p && mem[p - 2] == 4 * (Extra(kind) + KidsLen(kind, kids))
      modifies this`cur, this`overflow, this`dict, mem
      ensures Valid()
      ensures var (b', d) := NetatomSpec.SerBody(host, old(dict), Node(kind, h0, h1, kids));
              && dict == d && WellFormedKids(b'.kids)
              && KidsLen(kind, b'.kids) == KidsLen(kind, kids)
              && Low() == Over(old(Low()), p, EncHead(kind, b'.h0, b'.h1, swap) + EncKids(kind, b'.kids, swap))
      decreases KidsLen(kind, kids) + 1, 1
    {
      hide Valid, Consistent, EncHead, EncKids, WellFormedKids, WellTypedKids, NetatomSpec.SerKids;
      hide NetatomSpec.SerHead, KidsLen, Over;
      InBounds();
      ghost var s, d0 := Low(), dict;
      ghost var x, y := EncHead(kind, h0, h1, false), EncKids(kind, kids, false);
      SubSlice(s, p, x, y);
      ghost var (kids', d1) := NetatomSpec.SerKids(host, d0, kind, kids);
      var stop := p + mem[p - 2] / 4;
      SerKids(p + Extra(kind), stop, kind, kids);
      ghost var y' := EncKids(kind, kids', swap);
      FrontOfOver(s, p, x, y, y');
      SerHead(p, kind, h0, h1);
      ghost var (h0', h1', d2) := NetatomSpec.SerHead(host, d1, kind, h0, h1);
      OverFrontTwice(s, p, x, y', EncHead(kind, h0', h1', swap));
    }

    /** A literal: its two URIDs; the text stays. */
    method SerLiteral(p: nat, ghost t: word, ghost l: word, ghost words: seq<word>)
      requires Valid() && Consistent(host) && At(p, [t, l] + words)
      modifies this`cur, this`overflow, this`dict, mem
      ensures Valid()
      ensures var (t', d1) := NetatomSpec.SerUri(host, old(dict), t);
              var (l', d2) := NetatomSpec.SerUri(host, d1, l);
              dict == d2 && Low() == Over(old(Low()), p, [Sw(swap, t'), Sw(swap, l')] + words)
    {
      hide Valid, Consistent, Over, NetatomSpec.SerUri, Sw;
      InBounds();
      ghost var s := Low();
      ghost var x := NetatomSpec.SerUri(host, dict, t);
      ghost var y := NetatomSpec.SerUri(host, x.1, l);
      SubSlice(s, p, [t, l], words);
      SerPair(p, t, l);
      OverFront(s, p, [t, l], words, [Sw(swap, x.0), Sw(swap, y.0)]);
    }

    /** The type-dependent part of _netatom_ser_atom. */
    method SerBody(p: nat, tag: Tag, ghost b: Body)
      requires Valid() && Consistent(host) && WellFormed(Atom(0, b)) && Shaped(tag, b)
      requires b.Node? ==> WellTypedKids(host, b.kids)
      requires At(p, EncBody(b, false)) && 2 <= p && mem[p - 2] == BodyBytes(b)
      modifies this`cur, this`overflow, this`dict, mem
      ensures Valid()
      ensures var (b', d) := NetatomSpec.SerBody(host, old(dict), b);
              && dict == d && WellFormed(Atom(0, b')) && BodyLen(b') == BodyLen(b)
              && Low() == Over(old(Low()), p, EncBody(b', swap))
      decreases BodyLen(b) + 1, 2
    {
      hide Valid, Consistent, Over, NetatomSpec.SerUri, NetatomSpec.SerKids, NetatomSpec.SerHead, EncKids, EncHead;
      hide WellFormedKids, WellTypedKids, PadWords, Swap32, Swap4, Swap8;
      InBounds();
      SerBodyShape(host, dict, b);
      match tag
      case Bool | Int | Float => Ser32(p, b.w, b.pad);
      case Long | Double => Ser64(p, b.lo, b.hi);
      case URID => SerFirst(p, b.urid, b.pad);
      case Literal => SerLiteral(p, b.datatyp, b.lang, b.words);
      case Object | Tuple | Sequence =>
        SerNode(p, if tag.Object? then KObject else if tag.Tuple? then KTuple else KSequence, b.h0, b.h1, b.kids);
      case Vector =>
        SerVector(p, b.width, b.childType, b.size, b.words);
      case _ =>
        OverSame(Low(), p, b.words);
    }

    /** _netatom_ser_atom. */
    method SerAtom(off: nat, ghost a: Atom)
      requires Valid() && Consistent(host) && WellFormed(a) && WellTyped(host, a)
      requires At(off, Enc(a, false))
      modifies this`cur, this`overflow, this`dict, mem
      ensures Valid()
      ensures var (a', d) := NetatomSpec.SerAtom(host, old(dict), a);
              dict == d && WellFormed(a') && Len(a') == Len(a) && Low() == Over(old(Low()), off, Enc(a', swap))
      decreases Len(a), 0
    {
      hide Valid, Consistent, Over, NetatomSpec.SerUri, NetatomSpec.SerBody, EncBody, TagOf, Shaped, TagUri, Swap32;
      InBounds();
      ghost var s, d0 := Low(), dict;
      ghost var size := BodyBytes(a.body);
      ReadAt(off, Enc(a, false), 0);
      ReadAt(off, Enc(a, false), 1);
      SubSlice(s, off, [size, a.ty], EncBody(a.body, false));
      SerShape(host, d0, a);
      ghost var (b', d1) := NetatomSpec.SerBody(host, d0, a.body);
      var tag := TagOf(host, mem[off + 1]);
      SerBody(off + 2, tag, a.body);
      FrontOfOver(s, off, [size, a.ty], EncBody(a.body, false), EncBody(b', swap));
      SerHeader(off, tag, size, a.ty, EncBody(b', swap), s);
    }

    /** Size and type, once the body is done. */
    method SerHeader(off: nat, tag: Tag, ghost size: word, ghost ty: word, ghost eb: seq<word>, ghost s: seq<word>)
      requires Valid() && Consistent(host) && tag == TagOf(host, ty) && off + 2 + |eb| <= |s| == base
      requires Low() == Over(s, off, [size, ty] + eb)
      modifies this`cur, this`overflow, this`dict, mem
      ensures Valid()
      ensures var (ty', d) := NetatomSpec.SerUri(host, old(dict), ty);
              dict == d && Low() == Over(s, off, [Sw(swap, size), Sw(swap, ty')] + eb)
    {
      hide Valid, Consistent, Over, NetatomSpec.SerUri, TagOf, TagUri, Swap32;
      InBounds();
      HeaderWords(s, off, size, ty, eb, Sw(swap, size));
      assert mem[off] == Low()[off] && mem[off + 1] == Low()[off + 1];
      PlainWord(swap, size);
      if swap {
        PutLow(off, Swap32(mem[off]));
      }
      HeaderWords(s, off, Sw(swap, size), ty, eb, Sw(swap, NetatomSpec.SerUri(host, dict, ty).0));
      assert mem[off + 1] == Low()[off + 1] == ty;
      if !tag.Other? {
        TagByUri(host, ty, tag);
      }
      SerUri(off + 1, if tag.Other? then None else Some(TagUri(tag)));
    }

    // ---- the dictionary on its way ----

    /** Writes a word of the dictionary. */
    method PutDict(i: nat, w: word)
      requires base <= i < cur <= mem.Length
      modifies mem
      ensures mem[..base] == old(mem[..base]) && mem[cur..] == old(mem[cur..])
      ensures mem[base..cur] == old(mem[base..cur])[i - base := w]
    {
      mem[i] := w;
    }

    /** _netatom_ser_dict: the keys are cleared, the sizes swapped once the loop has used them. */
    method SerDict()
      requires Valid()
      modifies mem
      ensures Low() == old(Low())
      ensures base <= cur <= mem.Length && mem[base..cur] == DictWords(Cleared, swap, dict.entries)
      ensures mem[cur..] == old(mem[cur..])
    {
      hide DictWords, DictLen, SmallEntries, Clearing, Closed, EntryLen, Swap32, TotalWords;
      ghost var e := dict.entries;
      var ptr, body := base, None;
      ghost var k := 0;
      NothingClosed(swap, e);
      ClearingIsAll(swap, e);
      WholePrefix(0);
      while ptr < cur
        invariant base <= cur <= mem.Length && cur == base + DictLen(e)
        invariant k <= |e| && ptr == base + DictLen(e[..k])
        invariant body == if k > 0 then Some(base + DictLen(e[..k - 1])) else None
        invariant mem[..base] == old(Low()) && mem[base..cur] == Clearing(swap, e, k)
        invariant mem[cur..] == old(mem[cur..])
        invariant k == |e| ==> ptr == cur
        invariant k < |e| ==> ptr < cur
        decreases cur - ptr
      {
        CloseBody(body, k);
        body := Some(ptr);
        ptr := ClearKey(ptr, k);
        k := k + 1;
        WholePrefix(k);
      }
      assert k == |e|;
      CloseBody(body, k);
    }

    /** Clears the key of the entry at ptr and steps over it. */
    method ClearKey(ptr: nat, ghost k: nat) returns (next: nat)
      requires SmallEntries(dict.entries) && k < |dict.entries|
      requires base <= cur <= mem.Length && cur == base + DictLen(dict.entries)
      requires ptr == base + DictLen(dict.entries[..k])
      requires mem[base..cur] == Closed(swap, dict.entries, k)
      modifies mem
      ensures mem[..base] == old(mem[..base]) && mem[cur..] == old(mem[cur..])
      ensures mem[base..cur] == Clearing(swap, dict.entries, k + 1)
      ensures ptr < next == base + DictLen(dict.entries[..k + 1]) <= cur
    {
      hide SmallEntries, Clearing, Closed, DictWords, DictLen, EntryLen, TotalWords;
      ClearEntry(swap, dict.entries, k);
      ghost var at := DictLen(dict.entries[..k]);
      assert mem[ptr] == mem[base..cur][at];
      PutDict(ptr + 1, 0);
      assert mem[ptr] == mem[base..cur][at];
      EntryStep(dict.entries[k]);
      next := ptr + TotalWords(mem[ptr]);
    }

    lemma ClearingIsAll(swap: bool, e: seq<Entry>)
      requires SmallEntries(e)
      ensures Clearing(swap, e, 0) == DictWords(AsUrid, false, e)
    {
    }

    /** Swaps the size of the entry the loop has just left, if there is one. */
    method CloseBody(body: Option<nat>, ghost k: nat)
      requires SmallEntries(dict.entries) && k <= |dict.entries|
      requires base <= cur <= mem.Length && cur == base + DictLen(dict.entries)
      requires body == if k > 0 then Some(base + DictLen(dict.entries[..k - 1])) else None
      requires mem[base..cur] == Clearing(swap, dict.entries, k)
      modifies mem
      ensures mem[..base] == old(mem[..base]) && mem[cur..] == old(mem[cur..])
      ensures mem[base..cur] == Closed(swap, dict.entries, k)
    {
      hide DictWords, DictLen, SmallEntries, Clearing, Closed, EntryLen, Swap32;
      NothingClosed(swap, dict.entries);
      if body.Some? {
        CloseEntry(swap, dict.entries, k);
        ghost var at := DictLen(dict.entries[..k - 1]);
        assert mem[base + at] == mem[base..cur][at];
        if swap {
          PutDict(body.value, Swap32(mem[body.value]));
        } else {
          assert mem[base..cur][at := mem[base + at]] == mem[base..cur];
        }
      }
    }

    /**
     netatom_serialize on an atom that starts the buffer. On success the buffer starts with the
     tree of references, laid out for the wire, directly followed by the dictionary; the size
     returned covers exactly these two. On failure the dictionary would not have fitted.
     */
    method Serialize(sizeRx: nat, ghost a: Atom) returns (written: Option<nat>)
      requires Consistent(host) && WellFormed(a) && WellTyped(host, a)
      requires 4 * mem.Length < WORD_LIMIT && sizeRx / 4 + 2 <= mem.Length
      requires 4 * Len(a) <= sizeRx && mem[..Len(a)] == Enc(a, false)
      modifies this, mem
      ensures var cap := sizeRx / 4 - Len(a);
              var (a', d) := Sent(host, cap, a);
              Spilled(old(mem[..]), mem[..], Len(a) + DictLen(d.entries), d.entries != [])
      ensures var cap := sizeRx / 4 - Len(a);
              var (a', d) := Sent(host, cap, a);
              if d.overflow then written == None
              else
                && written == Some(4 * (Len(a) + DictLen(d.entries))) && written.value <= sizeRx
                && WellFormed(a') && SmallEntries(d.entries)
                && mem[..written.value / 4] == Enc(a', swap) + DictWords(Cleared, swap, d.entries)
                && Wire(mem[..written.value / 4]) == WireAtom(a', swap) + WireDict(swap, d.entries)
    {
      hide Consistent, NetatomSpec.SerAtom, Enc, WellTyped, DictWords, DictLen, SmallEntries, WellFormed, Len, Over;
      hide TotalWords, Spilled, Wire, WireAtom, WireDict;
      var tot := Walk(sizeRx, a);
      assert overflow == dict.overflow && cur == base + DictLen(dict.entries);
      assert 4 * cur <= end && SmallEntries(dict.entries);
      ghost var m1: seq<word> := mem[..];
      SerDict();
      SpillStays(first, m1, mem[..], cur, cur, dict.entries != []);
      if overflow {
        return None;
      }
      assert mem[..cur] == Low() + mem[base..cur];
      SentOnTheWire(NetatomSpec.SerAtom(host, Empty(sizeRx / 4 - tot), a).0, swap, dict.entries);
      return Some(4 * tot + 4 * (cur - base));
    }

    /** The atom rewritten in place, the dictionary behind it. */
    method Walk(sizeRx: nat, ghost a: Atom) returns (tot: nat)
      requires Consistent(host) && WellFormed(a) && WellTyped(host, a)
      requires 4 * mem.Length < WORD_LIMIT && sizeRx / 4 + 2 <= mem.Length
      requires 4 * Len(a) <= sizeRx && mem[..Len(a)] == Enc(a, false)
      modifies this, mem
      ensures Valid() && first == old(mem[..]) && base == tot == Len(a) && end == sizeRx
      ensures var (a', d) := Sent(host, sizeRx / 4 - Len(a), a);
              dict == d && WellFormed(a') && Len(a') == Len(a) && Low() == Enc(a', swap)
    {
      hide Consistent, NetatomSpec.SerAtom, Enc, WellTyped, DictWords, DictLen, SmallEntries, WellFormed, Len, Over;
      hide TotalWords, Spilled;
      ghost var m := mem[..Len(a)];
      SizeWord(a);
      assert mem[0] == m[0];
      StepIsLen(a);
      tot := TotalWords(mem[0]);
      Begin(sizeRx, tot);
      WholeOver(Enc(a, false));
      SerAtom(0, a);
      ghost var a' := NetatomSpec.SerAtom(host, Empty(sizeRx / 4 - tot), a).0;
      assert Low() == Enc(a', swap) by { OverAll(m, Enc(a', swap)); }
    }

    /** The empty dictionary behind an atom of `tot` words. */
    method Begin(sizeRx: nat, tot: nat)
      requires 4 * mem.Length < WORD_LIMIT && sizeRx / 4 + 2 <= mem.Length && 4 * tot <= sizeRx
      modifies this
      ensures first == mem[..]
      ensures Valid() && base == tot && end == sizeRx && !overflow && dict == Empty(sizeRx / 4 - tot)
    {
      base, cur, end, overflow := tot, tot, sizeRx, false;
      dict := Empty(sizeRx / 4 - tot);
      first := mem[..];
      EmptyDict();
    }

    lemma WholeOver(e: seq<word>)
      requires base <= mem.Length && mem[..base] == e
      ensures At(0, e)
    {
      assert Low()[0..0 + |e|] == Low();
    }

    lemma SizeWord(a: Atom)
      requires WellFormed(a)
      ensures Len(a) >= 2 && Enc(a, false)[0] == BodyBytes(a.body)
    {
    }

    lemma EmptyDict()
      ensures DictLen([]) == 0 && SmallEntries([]) && DictWords(AsUrid, false, []) == []
    {
    }

    // ---- the receiving side ----

    /** The dictionary has arrived and the receiver has looked every URI up. */
    ghost predicate Ready()
      reads this, mem
    {
      && base <= cur <= mem.Length
      && cur == base + DictLen(dict.entries)
      && 4 * DictLen(dict.entries) + 1 < WORD_LIMIT
      && SmallEntries(dict.entries)
      && mem[base..cur] == DictWords(Mapped(host), false, dict.entries)
    }

    twostate lemma StillReady()
      requires old(Ready()) && unchanged(this) && mem[base..] == old(mem[base..])
      ensures Ready()
    {
      hide DictWords, DictLen, SmallEntries;
      assert mem[base..cur] == mem[base..][..cur - base] && old(mem[base..cur]) == old(mem[base..])[..cur - base];
    }

    method WriteLow(i: nat, w: word)
      requires Ready() && i < base
      modifies mem
      ensures Ready() && Low() == old(Low())[i := w]
    {
      hide Ready;
      ReadyBounds();
      Store(i, w);
      StillReady();
    }

    /** _netatom_deser_dict. */
    method DeserDict()
      requires base <= cur <= mem.Length && cur == base + DictLen(dict.entries) && SmallEntries(dict.entries)
      requires 4 * DictLen(dict.entries) + 1 < WORD_LIMIT
      requires mem[base..cur] == DictWords(Cleared, swap, dict.entries)
      modifies mem
      ensures Ready() && Low() == old(Low())
    {
      hide DictWords, DictLen, SmallEntries, EntryLen, Mapping;
      ghost var e := dict.entries;
      var ptr := base;
      ghost var k := 0;
      MappingEnds(host, swap, e);
      WholePrefix(0);
      while ptr < cur
        invariant base <= cur <= mem.Length && k <= |e| && ptr == base + DictLen(e[..k])
        invariant mem[..base] == old(Low()) && mem[base..cur] == Mapping(host, swap, e, k)
        invariant k == |e| ==> ptr == cur
        invariant k < |e| ==> ptr < cur
        decreases cur - ptr
      {
        ptr := MapOne(ptr, k);
        k := k + 1;
        WholePrefix(k);
      }
      assert k == |e|;
    }

    /** Restores the size of the entry at ptr, looks its URI up and steps over it. */
    method MapOne(ptr: nat, ghost k: nat) returns (next: nat)
      requires SmallEntries(dict.entries) && k < |dict.entries|
      requires base <= cur <= mem.Length && cur == base + DictLen(dict.entries)
      requires ptr == base + DictLen(dict.entries[..k])
      requires mem[base..cur] == Mapping(host, swap, dict.entries, k)
      modifies mem
      ensures mem[..base] == old(mem[..base]) && mem[base..cur] == Mapping(host, swap, dict.entries, k + 1)
      ensures ptr < next == base + DictLen(dict.entries[..k + 1]) <= cur
    {
      hide SmallEntries, Mapping, DictWords, DictLen, EntryLen, TotalWords, ReadUri, Swap32;
      MapEntryRead(host, swap, dict.entries, k);
      MapEntryWrite(host, swap, dict.entries, k);
      ghost var d, at := mem[base..cur], DictLen(dict.entries[..k]);
      assert mem[ptr] == d[at] && mem[ptr + 2..cur] == d[at + 2..];
      if swap {
        PutDict(ptr, Swap32(mem[ptr]));
      } else {
        assert d[at := d[at]] == d;
      }
      ghost var d1 := mem[base..cur];
      assert d1 == d[at := Sw(swap, d[at])] && d1[at + 2..] == d[at + 2..] && mem[ptr + 2..cur] == d1[at + 2..];
      var uri := ReadUri(mem[ptr + 2..cur], 0);
      PutDict(ptr + 1, host.map_(uri));
      assert mem[ptr] == mem[base..cur][at];
      next := ptr + TotalWords(mem[ptr]);
    }

    /** _netatom_deser_uri on word i, which holds the reference `ref`. */
    method DeserUri(i: nat, ghost ref: word)
      requires Ready() && i < base && mem[i] == Sw(swap, ref)
      requires KeepRef(dict.entries, ref) == ref
      modifies mem
      ensures Ready() && Low() == old(Low())[i := NetatomSpec.DeserUri(host, dict.entries, ref)]
    {
      hide Ready, Swap32, EntryAt;
      assert base <= mem.Length && Low()[i] == mem[i] by { ReadyBounds(); }
      SwTwice(swap, ref);
      SwTwice(swap, 0);
      if mem[i] == 0 {
        return;
      }
      var r := if swap then Swap32(mem[i]) else mem[i];
      assert r == ref != 0;
      RefInMemory(r);
      WriteLow(i, mem[base + (r - 1) / 4 + 1]);
    }

    lemma ReadyBounds()
      requires Ready()
      ensures base <= mem.Length
    {
    }

    /** Where a reference points, the receiver's number for the URI stands. */
    lemma RefInMemory(ref: word)
      requires Ready() && ref != 0 && EntryAt(dict.entries, ref).Some?
      ensures base + (ref - 1) / 4 + 1 < mem.Length
      ensures mem[base + (ref - 1) / 4 + 1] == host.map_(EntryAt(dict.entries, ref).value.uri)
    {
      hide DictWords, DictLen, SmallEntries, EntryLen;
      var k := EntryIndex(dict.entries, 0, ref);
      EntryHeader(Mapped(host), false, dict.entries, k);
      var at := DictLen(dict.entries[..k]);
      EntryStep(dict.entries[k]);
      assert mem[base + at + 1] == mem[base..cur][at + 1];
      KeyOf(host, dict.entries[k]);
    }

    ghost function Back(): word -> word
      reads this
    {
      Resolve(host, dict.entries)
    }

    method Deser32(p: nat, ghost w: word, ghost pad: word)
      requires Ready() && base <= mem.Length && At(p, [Sw(swap, w), pad])
      modifies mem
      ensures Ready() && Low() == Over(old(Low()), p, [w, pad])
    {
      hide Ready, Swap32, Over;
      SwTwice(swap, w);
      Swap32At(p, Sw(swap, w), pad);
      StillReady();
    }

    method Deser64(p: nat, ghost lo: word, ghost hi: word)
      requires Ready() && base <= mem.Length && At(p, Sw64(swap, lo, hi))
      modifies mem
      ensures Ready() && Low() == Over(old(Low()), p, [lo, hi])
    {
      hide Ready, Swap32, Over;
      Sw64Twice(swap, lo, hi);
      Swap64At(p, Sw64(swap, lo, hi)[0], Sw64(swap, lo, hi)[1]);
      StillReady();
    }

    /** A reference in front of another word. */
    method DeserFirst(p: nat, ghost u: word, ghost v: word)
      requires Ready() && base <= mem.Length && At(p, [Sw(swap, u), v]) && KeepRef(dict.entries, u) == u
      modifies mem
      ensures Ready() && Low() == Over(old(Low()), p, [Back()(u), v])
    {
      hide Ready, Swap32, Over, NetatomSpec.DeserUri, KeepRef;
      ReadAt(p, [Sw(swap, u), v], 0);
      OverSame(Low(), p, [Sw(swap, u), v]);
      OverOfTwo(Low(), p, Sw(swap, u), v, Back()(u));
      DeserUri(p, u);
    }

    /** A reference behind another word. */
    method DeserSecond(p: nat, ghost u: word, ghost v: word)
      requires Ready() && base <= mem.Length && At(p, [u, Sw(swap, v)]) && KeepRef(dict.entries, v) == v
      modifies mem
      ensures Ready() && Low() == Over(old(Low()), p, [u, Back()(v)])
    {
      hide Ready, Swap32, Over, NetatomSpec.DeserUri, KeepRef;
      ReadAt(p, [u, Sw(swap, v)], 1);
      OverSame(Low(), p, [u, Sw(swap, v)]);
      OverOfTwo(Low(), p, u, Sw(swap, v), Back()(v));
      DeserUri(p + 1, v);
    }

    method DeserPair(p: nat, ghost u: word, ghost v: word)
      requires Ready() && base <= mem.Length && At(p, [Sw(swap, u), Sw(swap, v)])
      requires KeepRef(dict.entries, u) == u && KeepRef(dict.entries, v) == v
      modifies mem
      ensures Ready() && Low() == Over(old(Low()), p, [Back()(u), Back()(v)])
    {
      hide Ready, Swap32, Over, NetatomSpec.DeserUri, KeepRef, Sw;
      ghost var s := Low();
      DeserFirst(p, u, Sw(swap, v));
      OverParts(s, p, [Back()(u), Sw(swap, v)]);
      ReadyBounds();
      DeserSecond(p, Back()(u), v);
      OverTwice(s, p, [Back()(u), Sw(swap, v)], [Back()(u), Back()(v)]);
    }

    method DeserHead(p: nat, kind: Kind, ghost h0: word, ghost h1: word)
      requires Ready() && base <= mem.Length && At(p, EncHead(kind, h0, h1, swap))
      requires MapHead(Keep(dict.entries), kind, h0, h1) == (h0, h1)
      modifies mem
      ensures Ready()
      ensures var (h0', h1') := MapHead(Back(), kind, h0, h1);
              Low() == Over(old(Low()), p, EncHead(kind, h0', h1', false))
    {
      hide Ready, Swap32, Over, NetatomSpec.DeserUri, KeepRef;
      ghost var s := Low();
      match kind
      case KTuple => OverSame(s, p, []);
      case KObject => DeserPair(p, h0, h1);
      case KSequence =>
        DeserFirst(p, h0, Sw(swap, h1));
        OverParts(s, p, [Back()(h0), Sw(swap, h1)]);
        ReadyBounds();
        ReadAt(p, [Back()(h0), Sw(swap, h1)], 1);
        OverOfTwo(s, p, Back()(h0), Sw(swap, h1), h1);
        SwTwice(swap, h1);
        if swap {
          WriteLow(p + 1, Swap32(mem[p + 1]));
        }
    }

    method DeserPrefix(p: nat, kind: Kind, ghost p0: word, ghost p1: word)
      requires Ready() && base <= mem.Length && At(p, EncPrefix(kind, p0, p1, swap))
      requires MapPrefix(Keep(dict.entries), kind, p0, p1) == (p0, p1)
      modifies mem
      ensures Ready()
      ensures var (p0', p1') := MapPrefix(Back(), kind, p0, p1);
              Low() == Over(old(Low()), p, EncPrefix(kind, p0', p1', false))
    {
      hide Ready, Swap32, Over, NetatomSpec.DeserUri, KeepRef;
      match kind
      case KTuple => OverSame(Low(), p, []);
      case KObject => DeserPair(p, p0, p1);
      case KSequence => Deser64(p, p0, p1);
    }

    /** A vector: the type, then the element size, which is needed to swap the elements back. */
    method DeserVector(p: nat, ghost width: word, ghost t: word, ghost size: nat, ghost words: seq<word>)
      requires Ready() && base <= mem.Length
      requires At(p, [Sw(swap, width), Sw(swap, t)] + SwapElements(swap, width, size, words))
      requires 2 <= p && mem[p - 2] == 8 + size && |words| == PadWords(size) && KeepRef(dict.entries, t) == t
      modifies mem
      ensures Ready()
      ensures Low() == Over(old(Low()), p, [width, Back()(t)] + words)
    {
      hide Ready, Over, Swap32, Swap4, Swap8, PadWords, NetatomSpec.DeserUri, KeepRef;
      ghost var s, e := Low(), SwapElements(swap, width, size, words);
      SubSlice(s, p, [Sw(swap, width), Sw(swap, t)], e);
      DeserSecond(p, Sw(swap, width), t);
      ReadyBounds();
      OverFront(s, p, [Sw(swap, width), Sw(swap, t)], e, [Sw(swap, width), Back()(t)]);
      PairSwapped(s, p, [Sw(swap, width), Back()(t)], e, width);
      OverParts(s, p, [Sw(swap, width), Back()(t)] + e);
      ReadAt(p, [Sw(swap, width), Back()(t)] + e, 0);
      SwTwice(swap, width);
      if swap {
        WriteLow(p, Swap32(mem[p]));
      }
      ghost var s1 := Low();
      assert s1 == Over(s, p, [width, Back()(t)] + e);
      SwapElementsTwice(swap, width, size, words);
      DeserElements(p, width, [width, Back()(t)], size, e, s);
    }

    method DeserElements(p: nat, ghost width: word, ghost x: seq<word>, ghost size: nat, ghost e: seq<word>,
           ghost s: seq<word>)
      requires Ready() && |x| == 2 && x[0] == width && p + 2 + |e| <= |s| == base <= mem.Length
      requires Low() == Over(s, p, x + e)
      requires 2 <= p && s[p - 2] == 8 + size && |e| == PadWords(size)
      modifies mem
      ensures Ready() && Low() == Over(s, p, x + SwapElements(swap, width, size, e))
    {
      hide Ready, Swap32, Swap4, Swap8, PadWords, Over;
      ghost var s1 := Low();
      OverParts(s, p, x + e);
      ReadAt(p, x + e, 0);
      assert mem[p - 2] == Low()[p - 2] == Low()[..p][p - 2] == s[p - 2];
      SubSlice(s1, p, x, e);
      Elements(p, width, size, e);
      StillReady();
      ghost var e' := SwapElements(swap, width, size, e);
      FrontOfOver(s1, p, x, e, e');
      OverTwice(s, p, x + e, x + e');
    }

    /** The loop over the children; here each is restored before the iterator reads its size. */
    method DeserKids(p: nat, stop: nat, kind: Kind, ghost kids: Kids)
      requires Ready() && base <= mem.Length && WellFormedKids(kids) && WellTypedKids(host, MapKids(Back(), kind, kids))
      requires MapKids(Keep(dict.entries), kind, kids) == kids
      requires At(p, EncKids(kind, kids, swap)) && stop == p + KidsLen(kind, kids)
      modifies mem
      ensures Ready() && WellFormedKids(MapKids(Back(), kind, kids))
      ensures KidsLen(kind, MapKids(Back(), kind, kids)) == KidsLen(kind, kids)
      ensures Low() == Over(old(Low()), p, EncKids(kind, MapKids(Back(), kind, kids), false))
      decreases KidsLen(kind, kids) + 1, 0
    {
      hide Ready, EncKids, WellTypedKids, WellFormedKids, KidsLen, Over, MapKids, Restored;
      ghost var s := Low();
      ghost var done: seq<word>, rest := [], kids;
      var it := p;
      OverSame(s, p, EncKids(kind, kids, swap));
      RestoredStart(Back(), kind, kids, swap);
      while it < stop
        invariant Ready() && |s| == base <= mem.Length && WellFormedKids(rest)
        invariant WellTypedKids(host, MapKids(Back(), kind, rest)) && MapKids(Keep(dict.entries), kind, rest) == rest
        invariant it == p + |done| && it + KidsLen(kind, rest) == stop <= base
        invariant Low() == Over(s, p, done + EncKids(kind, rest, swap))
        invariant Restored(Back(), kind, kids) == done + Restored(Back(), kind, rest)
        decreases stop - it
      {
        RestNotEmpty(kind, rest);
        it, done := DeserChild(it, s, p, done, kind, rest);
        rest := rest.rest;
      }
      RestEmpty(kind, rest);
      RestoredEnd(Back(), kind, kids, swap, done);
    }

    /** One iteration. */
    method DeserChild(it: nat, ghost s: seq<word>, ghost p: nat, ghost done: seq<word>, kind: Kind, ghost rest: Kids)
      returns (next: nat, ghost done': seq<word>)
      requires Ready() && WellFormedKids(rest) && rest.Cons? && WellTypedKids(host, MapKids(Back(), kind, rest))
      requires MapKids(Keep(dict.entries), kind, rest) == rest
      requires it == p + |done| && it + KidsLen(kind, rest) <= |s| == base <= mem.Length
      requires Low() == Over(s, p, done + EncKids(kind, rest, swap))
      modifies mem
      ensures Ready() && next == it + Extra(kind) + Len(rest.value) == p + |done'|
      ensures WellFormedKids(rest.rest) && MapKids(Keep(dict.entries), kind, rest.rest) == rest.rest
      ensures WellTypedKids(host, MapKids(Back(), kind, rest.rest))
      ensures Low() == Over(s, p, done' + EncKids(kind, rest.rest, swap))
      ensures done' + Restored(Back(), kind, rest.rest) == done + Restored(Back(), kind, rest)
      decreases KidsLen(kind, rest), 2
    {
      hide Ready, Enc, EncPrefix, EncKids, WellFormed, WellTyped, Over, MapAtom, MapPrefix, Restored;
      ghost var a, t := rest.value, EncKids(kind, rest.rest, swap);
      ghost var pre := MapPrefix(Back(), kind, rest.p0, rest.p1);
      ghost var x := EncPrefix(kind, pre.0, pre.1, false);
      UnfoldSwapped(kind, rest, done, swap);
      KeepParts(Keep(dict.entries), kind, rest);
      DeserOpen(it, s, p, done, kind, rest.p0, rest.p1, Enc(a, swap) + t);
      Regroup(done + x, Enc(a, swap), t);
      MapShape(Back(), a);
      ReadyBounds();
      next := DeserValue(it + Extra(kind), s, p, done + x, a, t);
      done' := done + x + Enc(MapAtom(Back(), a), false);
      RestoredStep(Back(), kind, rest, done);
    }

    method DeserOpen(it: nat, ghost s: seq<word>, ghost p: nat, ghost done: seq<word>, kind: Kind, ghost p0: word,
           ghost p1: word, ghost t: seq<word>)
      requires Ready() && MapPrefix(Keep(dict.entries), kind, p0, p1) == (p0, p1)
      requires it == p + |done| && it + Extra(kind) + |t| <= |s| == base <= mem.Length
      requires Low() == Over(s, p, done + EncPrefix(kind, p0, p1, swap) + t)
      modifies mem
      ensures Ready()
      ensures var pre := MapPrefix(Back(), kind, p0, p1);
              Low() == Over(s, p, done + EncPrefix(kind, pre.0, pre.1, false) + t)
    {
      hide Ready, EncPrefix, Over, MapPrefix;
      ghost var pre := MapPrefix(Back(), kind, p0, p1);
      ReadInside(s, p, done, EncPrefix(kind, p0, p1, swap), t);
      DeserPrefix(it, kind, p0, p1);
      OverInside(s, p, done, EncPrefix(kind, p0, p1, swap), t, EncPrefix(kind, pre.0, pre.1, false));
    }

    /** Restores one child, then steps over it by the size it shows now. */
    method DeserValue(q: nat, ghost s: seq<word>, ghost p: nat, ghost done: seq<word>, ghost a: Atom,
           ghost t: seq<word>) returns (next: nat)
      requires Ready() && WellFormed(a) && WellTyped(host, MapAtom(Back(), a)) && RefsOk(dict.entries, a)
      requires q == p + |done| && q + Len(a) + |t| <= |s| == base <= mem.Length
      requires Low() == Over(s, p, done + Enc(a, swap) + t)
      modifies mem
      ensures Ready() && WellFormed(MapAtom(Back(), a)) && Len(MapAtom(Back(), a)) == Len(a) && next == q + Len(a)
      ensures Low() == Over(s, p, done + Enc(MapAtom(Back(), a), false) + t)
      decreases Len(a), 1
    {
      hide Ready, Enc, WellFormed, WellTyped, RefsOk, Over, TotalWords, MapAtom, Len;
      ReadInside(s, p, done, Enc(a, swap), t);
      DeserAtom(q, a);
      ReadyBounds();
      ghost var a' := MapAtom(Back(), a);
      OverInside(s, p, done, Enc(a, swap), t, Enc(a', false));
      SizeInPlace(s, p, done, a', t);
      StepIsLen(a');
      next := q + TotalWords(mem[q]);
    }

    /** Size and type of an atom, which must be back before the body is looked at. */
    method DeserHeader(off: nat, ghost size: word, ghost ty: word, ghost eb: seq<word>)
      requires Ready() && base <= mem.Length && At(off, [Sw(swap, size), Sw(swap, ty)] + eb)
      requires KeepRef(dict.entries, ty) == ty
      modifies mem
      ensures Ready() && Low() == Over(old(Low()), off, [size, Back()(ty)] + eb)
      ensures mem[off] == size && mem[off + 1] == Back()(ty)
    {
      hide Ready, Over, KeepRef, NetatomSpec.DeserUri, Swap32;
      ghost var s, ty' := Low(), Back()(ty);
      ghost var w := [Sw(swap, size), Sw(swap, ty)] + eb;
      OverSame(s, off, w);
      ReadAt(off, w, 0);
      SwTwice(swap, size);
      HeaderWords(s, off, Sw(swap, size), Sw(swap, ty), eb, size);
      if swap {
        WriteLow(off, Swap32(mem[off]));
      }
      ReadyBounds();
      HeaderWords(s, off, size, Sw(swap, ty), eb, ty');
      assert mem[off + 1] == Low()[off + 1];
      DeserUri(off + 1, ty);
      ReadyBounds();
      HeaderWords(s, off, size, ty', eb, 0);
      assert mem[off] == Low()[off] && mem[off + 1] == Low()[off + 1];
    }

    /** _netatom_deser_atom. */
    method DeserAtom(off: nat, ghost a: Atom)
      requires Ready() && base <= mem.Length && WellFormed(a) && WellTyped(host, MapAtom(Back(), a))
      requires RefsOk(dict.entries, a)
      requires At(off, Enc(a, swap))
      modifies mem
      ensures Ready() && WellFormed(MapAtom(Back(), a)) && Len(MapAtom(Back(), a)) == Len(a)
      ensures Low() == Over(old(Low()), off, Enc(MapAtom(Back(), a), false))
      decreases Len(a), 0
    {
      hide Ready, Over, EncBody, TagOf, Shaped, MapBody, KeepRef, NetatomSpec.DeserUri, Swap32, At, WellTyped, RefsOk;
      TypedParts(host, Back(), a);
      RefParts(dict.entries, a);
      ghost var s, f := Low(), Back();
      ghost var size, eb := BodyBytes(a.body), EncBody(a.body, swap);
      ghost var x: seq<word> := [size, f(a.ty)];
      MapShape(f, a);
      RoomFor(off, Enc(a, swap));
      DeserHeader(off, size, a.ty, eb);
      ReadyBounds();
      ghost var s1 := Low();
      OverParts(s, off, x + eb);
      SubSlice(s1, off, x, eb);
      AtSlice(off + 2, eb);
      var tag := TagOf(host, mem[off + 1]);
      DeserBody(off + 2, tag, a.body);
      ghost var eb' := EncBody(MapBody(f, a.body), false);
      FrontOfOver(s1, off, x, eb, eb');
      OverTwice(s, off, x + eb, x + eb');
    }

    lemma RoomFor(p: nat, data: seq<word>)
      requires base <= mem.Length && At(p, data)
      ensures p + |data| <= base
    {
    }

    lemma AtSlice(p: nat, data: seq<word>)
      requires base <= mem.Length && p + |data| <= base && Low()[p..p + |data|] == data
      ensures At(p, data)
    {
    }

    /** The type-dependent part of _netatom_deser_atom. */
    method DeserBody(p: nat, tag: Tag, ghost b: Body)
      requires Ready() && base <= mem.Length && WellFormed(Atom(0, b)) && Shaped(tag, MapBody(Back(), b))
      requires b.Node? ==> WellTypedKids(host, MapKids(Back(), b.kind, b.kids))
      requires MapBody(Keep(dict.entries), b) == b
      requires At(p, EncBody(b, swap)) && 2 <= p && mem[p - 2] == BodyBytes(b)
      modifies mem
      ensures Ready() && WellFormed(Atom(0, MapBody(Back(), b))) && BodyLen(MapBody(Back(), b)) == BodyLen(b)
      ensures Low() == Over(old(Low()), p, EncBody(MapBody(Back(), b), false))
      decreases BodyLen(b) + 1, 3
    {
      hide Ready, Over, MapKids, MapHead, EncKids, EncHead, WellFormedKids, WellTypedKids, PadWords, Swap32, Swap4;
      hide Swap8, KeepRef, NetatomSpec.DeserUri;
      MapShape(Back(), Atom(0, b));
      match tag
      case Bool | Int | Float => Deser32(p, b.w, b.pad);
      case Long | Double => Deser64(p, b.lo, b.hi);
      case URID => DeserFirst(p, b.urid, b.pad);
      case Literal => DeserLiteral(p, b.datatyp, b.lang, b.words);
      case Object => DeserBranch(p, KObject, b);
      case Tuple => DeserBranch(p, KTuple, b);
      case Sequence => DeserBranch(p, KSequence, b);
      case Vector => DeserVector(p, b.width, b.childType, b.size, b.words);
      case _ => OverSame(Low(), p, b.words);
    }

    method DeserBranch(p: nat, kind: Kind, ghost b: Body)
      requires Ready() && base <= mem.Length && WellFormed(Atom(0, b)) && b.Node? && b.kind == kind
      requires WellTypedKids(host, MapKids(Back(), b.kind, b.kids)) && MapBody(Keep(dict.entries), b) == b
      requires At(p, EncBody(b, swap)) && 2 <= p && mem[p - 2] == BodyBytes(b)
      modifies mem
      ensures Ready() && WellFormed(Atom(0, MapBody(Back(), b))) && BodyLen(MapBody(Back(), b)) == BodyLen(b)
      ensures Low() == Over(old(Low()), p, EncBody(MapBody(Back(), b), false))
      decreases BodyLen(b) + 1, 2
    {
      hide Ready, Over, MapKids, MapHead, EncKids, EncHead, WellFormedKids, WellTypedKids, Swap32, KeepRef;
      hide NetatomSpec.DeserUri;
      MapShape(Back(), Atom(0, b));
      DeserNode(p, kind, b.h0, b.h1, b.kids);
    }

    /** A literal: its two URIDs; the text stays. */
    method DeserLiteral(p: nat, ghost t: word, ghost l: word, ghost words: seq<word>)
      requires Ready() && base <= mem.Length && At(p, [Sw(swap, t), Sw(swap, l)] + words)
      requires KeepRef(dict.entries, t) == t && KeepRef(dict.entries, l) == l
      modifies mem
      ensures Ready() && Low() == Over(old(Low()), p, [Back()(t), Back()(l)] + words)
    {
      hide Ready, Over, KeepRef, Sw, NetatomSpec.DeserUri;
      ghost var s := Low();
      SubSlice(s, p, [Sw(swap, t), Sw(swap, l)], words);
      DeserPair(p, t, l);
      OverFront(s, p, [Sw(swap, t), Sw(swap, l)], words, [Back()(t), Back()(l)]);
    }

    /** An object, a tuple or a sequence: here the words before the children come first. */
    method DeserNode(p: nat, kind: Kind, ghost h0: word, ghost h1: word, ghost kids: Kids)
      requires Ready() && base <= mem.Length && WellFormedKids(kids) && WellTypedKids(host, MapKids(Back(), kind, kids))
      requires MapHead(Keep(dict.entries), kind, h0, h1) == (h0, h1) && MapKids(Keep(dict.entries), kind, kids) == kids
      requires At(p, EncHead(kind, h0, h1, swap) + EncKids(kind, kids, swap))
      requires 2 <= p && mem[p - 2] == 4 * (Extra(kind) + KidsLen(kind, kids))
      modifies mem
      ensures Ready() && WellFormedKids(MapKids(Back(), kind, kids))
      ensures KidsLen(kind, MapKids(Back(), kind, kids)) == KidsLen(kind, kids)
      ensures var (h0', h1') := MapHead(Back(), kind, h0, h1);
              Low() == Over(old(Low()), p,
                            EncHead(kind, h0', h1', false) + EncKids(kind, MapKids(Back(), kind, kids), false))
      decreases KidsLen(kind, kids) + 1, 1
    {
      hide Ready, Over, EncHead, EncKids, WellFormedKids, WellTypedKids, MapKids, MapHead, KidsLen;
      ghost var s := Low();
      ghost var x, y := EncHead(kind, h0, h1, swap), EncKids(kind, kids, swap);
      ghost var h' := MapHead(Back(), kind, h0, h1);
      ghost var x' := EncHead(kind, h'.0, h'.1, false);
      var stop := p + mem[p - 2] / 4;
      SubSlice(s, p, x, y);
      DeserHead(p, kind, h0, h1);
      ReadyBounds();
      OverFront(s, p, x, y, x');
      ghost var s1 := Low();
      OverParts(s, p, x' + y);
      SubSlice(s1, p, x', y);
      DeserKids(p + Extra(kind), stop, kind, kids);
      ghost var y' := EncKids(kind, MapKids(Back(), kind, kids), false);
      FrontOfOver(s1, p, x', y, y');
      OverTwice(s, p, x' + y, x' + y');
    }

    /**
     netatom_deserialize on a buffer that starts with a serialised tree and its dictionary: the
     buffer then starts with the tree in which every reference is the receiver's number.
     */
    method Deserialize(sizeTx: nat, ghost a: Atom, ghost entries: seq<Entry>)
      requires WellFormed(a) && SmallEntries(entries) && RefsOk(entries, a)
      requires WellTyped(host, MapAtom(Resolve(host, entries), a))
      requires sizeTx == 4 * (Len(a) + DictLen(entries)) && sizeTx / 4 <= mem.Length && sizeTx + 1 < WORD_LIMIT
      requires mem[..sizeTx / 4] == Enc(a, swap) + DictWords(Cleared, swap, entries)
      modifies this, mem
      ensures var r := MapAtom(Resolve(host, entries), a);
              WellFormed(r) && Len(r) == Len(a) && mem[..Len(a)] == Enc(r, false)
    {
      hide Enc, WellTyped, DictWords, DictLen, SmallEntries, WellFormed, Len, Over, TotalWords, RefsOk, MapAtom, Swap32;
      ghost var x, y := Enc(a, swap), DictWords(Cleared, swap, entries);
      ghost var m := mem[..sizeTx / 4];
      SwappedSizeWord(a, swap);
      assert mem[0] == m[0] == x[0];
      StepIsLen(a);
      var tot := TotalWords(if swap then Swap32(mem[0]) else mem[0]);
      base, cur, end, overflow := tot, sizeTx / 4, sizeTx, false;
      dict := Dict(entries, 0, false);
      assert mem[..base] == m[..|x|] == x && mem[base..cur] == m[|x|..] == y;
      DeserDict();
      ReadyBounds();
      WholeOver(x);
      DeserAtom(0, a);
      ReadyBounds();
      OverAll(x, Enc(MapAtom(Back(), a), false));
    }

    lemma SwappedSizeWord(a: Atom, swap: bool)
      requires WellFormed(a)
      ensures Len(a) >= 2 && BodyBytes(a.body) < WORD_LIMIT
      ensures Sw(swap, Enc(a, swap)[0]) == BodyBytes(a.body)
    {
      hide Swap32;
      SwTwice(swap, BodyBytes(a.body));
    }
  }

  /**
   The whole trip: one host serialises an atom in place, another one deserialises the same
   buffer. Whenever the dictionary fits, the receiver has the sender's atom with every URID
   field translated to its own numbers.
   */
  method Relay(s: Netatom, r: Netatom, sizeRx: nat, ghost a: Atom) returns (sent: Option<nat>)
    requires s != r && s.mem == r.mem && s.swap == r.swap
    requires Consistent(s.host) && Consistent(r.host)
    requires WellFormed(a) && WellTyped(s.host, a)
    requires 4 * s.mem.Length + 1 < WORD_LIMIT && sizeRx / 4 + 2 <= s.mem.Length
    requires 4 * Len(a) <= sizeRx && s.mem[..Len(a)] == Enc(a, false)
    modifies s, r, s.mem
    ensures sent.None? <==> DictLen(Needed(s.host, [], Urids(a))) > sizeRx / 4 - Len(a)
    ensures sent.Some? ==>
              var b := MapAtom(Translate(s.host, r.host), a);
              && WellFormed(b) && Len(b) == Len(a)
              && s.mem[..Len(a)] == Enc(b, false)
              && sent.value == 4 * (Len(a) + DictLen(Needed(s.host, [], Urids(a))))
  {
    hide Consistent, Enc, WellTyped, WellFormed, SmallEntries, DictLen, DictWords, NetatomSpec.SerAtom, MapAtom;
    hide Needed, Urids, Resolve, Translate, Len, RefsOk;
    ghost var cap := sizeRx / 4 - Len(a);
    ghost var (a', d) := Sent(s.host, cap, a);
    SerialisesIffFits(s.host, cap, a);
    sent := s.Serialize(sizeRx, a);
    if sent.Some? {
      SentIsGood(s.host, cap, a);
      ReceivedIsTranslated(s.host, r.host, cap, a);
      AtomRefsOk(s.host, Empty(cap), a, d.entries);
      TypesTravel(s.host, r.host, a);
      SerShape(s.host, Empty(cap), a);
      r.Deserialize(sent.value, a', d.entries);
      MapShape(Translate(s.host, r.host), a);
    }
  }

  /** What a new entry from cur up to top' leaves alone, and what it clears. */
  lemma EntryWritten(m: seq<word>, now: seq<word>, base: nat, cur: nat, top': nat, first: seq<word>, added: bool)
    requires base <= cur && cur + 2 <= top' && top' + 2 <= |now| == |m| && now[..cur] == m[..cur]
    requires Spilled(first, m, cur, added) && now[top'..top' + 2] == [0, 0] && now[top' + 2..] == m[top' + 2..]
    ensures now[..base] == m[..base] && now[base..top'] == m[base..cur] + now[cur..top']
    ensures Spilled(first, now, top', true)
  {
    assert now[..base] == now[..cur][..base] && m[..base] == m[..cur][..base];
    assert now[base..cur] == now[..cur][base..] && m[base..cur] == m[..cur][base..];
    assert now[base..top'] == now[base..cur] + now[cur..top'];
    SpillsFurther(first, m, now, cur, top', added);
  }

  /** The words the remaining children are restored to. */
  ghost function Restored(f: word -> word, kind: Kind, kids: Kids): seq<word>
    requires WellFormedKids(kids)
  {
    MapKidsShape(f, kind, kids);
    EncKids(kind, MapKids(f, kind, kids), false)
  }

  lemma RestoredStart(f: word -> word, kind: Kind, kids: Kids, swap: bool)
    requires WellFormedKids(kids)
    ensures Restored(f, kind, kids) == [] + Restored(f, kind, kids)
    ensures [] + EncKids(kind, kids, swap) == EncKids(kind, kids, swap)
  {
  }

  lemma RestoredEnd(f: word -> word, kind: Kind, kids: Kids, swap: bool, done: seq<word>)
    requires WellFormedKids(kids) && Restored(f, kind, kids) == done + Restored(f, kind, Nil)
    ensures WellFormedKids(MapKids(f, kind, kids)) && KidsLen(kind, MapKids(f, kind, kids)) == KidsLen(kind, kids)
    ensures done + EncKids(kind, Nil, swap) == EncKids(kind, MapKids(f, kind, kids), false)
  {
    MapKidsShape(f, kind, kids);
    assert done + [] == done;
  }

  lemma RestoredStep(f: word -> word, kind: Kind, rest: Kids, done: seq<word>)
    requires WellFormedKids(rest) && rest.Cons? && WellFormed(MapAtom(f, rest.value))
    ensures var pre := MapPrefix(f, kind, rest.p0, rest.p1);
            done + EncPrefix(kind, pre.0, pre.1, false) + Enc(MapAtom(f, rest.value), false)
            + Restored(f, kind, rest.rest)
            == done + Restored(f, kind, rest)
  {
    hide Enc, EncPrefix, MapAtom, MapPrefix;
    var pre := MapPrefix(f, kind, rest.p0, rest.p1);
    var x, y := EncPrefix(kind, pre.0, pre.1, false), Enc(MapAtom(f, rest.value), false);
    var z := Restored(f, kind, rest.rest);
    RestoredCons(f, kind, rest);
    Regroup(done, x + y, z);
    Regroup(done, x, y);
  }

  lemma RestoredCons(f: word -> word, kind: Kind, rest: Kids)
    requires WellFormedKids(rest) && rest.Cons? && WellFormed(MapAtom(f, rest.value))
    ensures var pre := MapPrefix(f, kind, rest.p0, rest.p1);
            Restored(f, kind, rest) ==
            EncPrefix(kind, pre.0, pre.1, false) + Enc(MapAtom(f, rest.value), false) + Restored(f, kind, rest.rest)
  {
    hide Enc, EncPrefix, MapAtom, MapPrefix, Len;
    MapKidsShape(f, kind, rest);
  }

  lemma UnfoldSwapped(kind: Kind, rest: Kids, done: seq<word>, swap: bool)
    requires WellFormedKids(rest) && rest.Cons?
    ensures done + EncKids(kind, rest, swap) ==
            done + EncPrefix(kind, rest.p0, rest.p1, swap) + (Enc(rest.value, swap) + EncKids(kind, rest.rest, swap))
  {
    hide Enc, EncPrefix;
  }

  lemma TypedParts(h: Host, f: word -> word, a: Atom)
    requires WellTyped(h, MapAtom(f, a))
    ensures Shaped(TagOf(h, f(a.ty)), MapBody(f, a.body))
    ensures a.body.Node? ==> WellTypedKids(h, MapKids(f, a.body.kind, a.body.kids))
  {
    hide TagOf, Shaped;
  }

  lemma RefParts(e: seq<Entry>, a: Atom)
    requires RefsOk(e, a)
    ensures KeepRef(e, a.ty) == a.ty && MapBody(Keep(e), a.body) == a.body
  {
    hide KeepRef, MapBody;
  }

  lemma KeepParts(f: word -> word, kind: Kind, rest: Kids)
    requires rest.Cons? && MapKids(f, kind, rest) == rest
    ensures MapPrefix(f, kind, rest.p0, rest.p1) == (rest.p0, rest.p1)
    ensures MapAtom(f, rest.value) == rest.value && MapKids(f, kind, rest.rest) == rest.rest
  {
    hide MapAtom, MapPrefix;
  }

  lemma {:induction false} EntryIndex(e: seq<Entry>, off: nat, ref: word) returns (k: nat)
    requires EntryFrom(e, off, ref).Some?
    ensures k < |e| && e[k] == EntryFrom(e, off, ref).value && ref == 4 * (off + DictLen(e[..k])) + 1
    decreases |e|
  {
    hide EntryLen;
    if ref == 4 * off + 1 {
      k := 0;
      assert DictLen(e[..0]) == 0;
    } else {
      var j := EntryIndex(e[1..], off + EntryLen(e[0]), ref);
      k := j + 1;
      assert e[..k][0] == e[0] && e[..k][1..] == e[1..][..j];
    }
  }

  lemma OverAll(s: seq<word>, e: seq<word>)
    requires |s| == |e|
    ensures Over(s, 0, e) == e
  {
  }

  lemma PlainWord(swap: bool, w: word)
    ensures swap ==> Sw(swap, w) == Swap32(w)
    ensures !swap ==> Sw(swap, w) == w
  {
  }

  lemma HeaderWords(s: seq<word>, off: nat, v: word, w: word, data: seq<word>, x: word)
    requires off + 2 + |data| <= |s|
    ensures var r := Over(s, off, [v, w] + data);
            && r[off] == v && r[off + 1] == w
            && r[off := x] == Over(s, off, [x, w] + data)
            && r[off + 1 := x] == Over(s, off, [v, x] + data)
  {
    var r := [v, w] + data;
    assert r[0 := x] == [x, w] + data && r[1 := x] == [v, x] + data;
  }

  lemma OverFront(s: seq<word>, p: nat, x: seq<word>, y: seq<word>, x': seq<word>)
    requires p + |x| + |y| <= |s| && s[p..p + |x| + |y|] == x + y && |x'| == |x|
    ensures Over(s, p, x') == Over(s, p, x' + y)
  {
    SubSlice(s, p, x, y);
    assert s[p + |x|..] == y + s[p + |x| + |y|..];
  }

  // ---- the order of the traversal ----

  function OptLen(a: Option<Atom>): nat {
    if a.Some? then Len(a.value) else 0
  }

  function EncOpt(a: Option<Atom>): (r: seq<word>)
    requires a.Some? ==> WellFormed(a.value)
    ensures |r| == OptLen(a)
  {
    if a.Some? then Enc(a.value, false) else []
  }

  /** What a pending child and the children after it will become, and the dictionary then. */
  ghost function Finish(h: Host, swap: bool, d: Dict, kind: Kind, prev: Option<Atom>, rest: Kids): (seq<word>, Dict)
    requires WellFormedKids(rest) && (prev.Some? ==> WellFormed(prev.value))
  {
    match prev
    case None =>
      var (rest', d2) := NetatomSpec.SerKids(h, d, kind, rest);
      SerKidsShape(h, d, kind, rest);
      (EncKids(kind, rest', swap), d2)
    case Some(a) =>
      var (a', d1) := NetatomSpec.SerAtom(h, d, a);
      var (rest', d2) := NetatomSpec.SerKids(h, d1, kind, rest);
      SerShape(h, d, a);
      SerKidsShape(h, d1, kind, rest);
      (Enc(a', swap) + EncKids(kind, rest', swap), d2)
  }

  ghost function Shift(done: seq<word>, r: (seq<word>, Dict)): (seq<word>, Dict) {
    (done + r.0, r.1)
  }

  lemma ShiftTwice(x: seq<word>, y: seq<word>, r: (seq<word>, Dict))
    ensures Shift(x, Shift(y, r)) == Shift(x + y, r)
  {
    assert x + (y + r.0) == x + y + r.0;
  }

  lemma Regroup(x: seq<word>, y: seq<word>, z: seq<word>)
    ensures x + (y + z) == x + y + z
  {
  }

  lemma FinishStart(h: Host, swap: bool, d: Dict, kind: Kind, kids: Kids)
    requires WellFormedKids(kids)
    ensures Finish(h, swap, d, kind, None, kids) == Shift([], Finish(h, swap, d, kind, None, kids))
  {
    var r := Finish(h, swap, d, kind, None, kids);
    assert [] + r.0 == r.0;
  }

  lemma FinishFlush(h: Host, swap: bool, d: Dict, kind: Kind, a: Atom, rest: Kids)
    requires WellFormed(a) && WellFormedKids(rest)
    ensures WellFormed(NetatomSpec.SerAtom(h, d, a).0)
    ensures Finish(h, swap, d, kind, Some(a), rest) ==
            Shift(Enc(NetatomSpec.SerAtom(h, d, a).0, swap),
                  Finish(h, swap, NetatomSpec.SerAtom(h, d, a).1, kind, None, rest))
  {
    SerShape(h, d, a);
  }

  lemma FinishOpen(h: Host, swap: bool, d: Dict, kind: Kind, rest: Kids)
    requires WellFormedKids(rest) && rest.Cons?
    ensures var (p0', p1', d1) := NetatomSpec.SerPrefix(h, d, kind, rest.p0, rest.p1);
            Finish(h, swap, d, kind, None, rest) ==
            Shift(EncPrefix(kind, p0', p1', swap), Finish(h, swap, d1, kind, Some(rest.value), rest.rest))
  {
    hide NetatomSpec.SerPrefix, NetatomSpec.SerAtom, Enc, EncPrefix, WellFormed, Len;
    var (p0', p1', d1) := NetatomSpec.SerPrefix(h, d, kind, rest.p0, rest.p1);
    var (a', d2) := NetatomSpec.SerAtom(h, d1, rest.value);
    var (k', d3) := NetatomSpec.SerKids(h, d2, kind, rest.rest);
    SerShape(h, d1, rest.value);
    SerKidsShape(h, d2, kind, rest.rest);
    var x, y, z := EncPrefix(kind, p0', p1', swap), Enc(a', swap), EncKids(kind, k', swap);
    assert x + (y + z) == x + y + z;
  }

  lemma FinishEnd(h: Host, swap: bool, d0: Dict, d: Dict, kind: Kind, kids: Kids, done: seq<word>)
    requires WellFormedKids(kids)
    requires Finish(h, swap, d0, kind, None, kids) == Shift(done, Finish(h, swap, d, kind, None, Nil))
    ensures var (kids', d') := NetatomSpec.SerKids(h, d0, kind, kids);
            && d == d' && WellFormedKids(kids') && KidsLen(kind, kids') == KidsLen(kind, kids)
            && done + EncKids(kind, Nil, false) == EncKids(kind, kids', swap)
  {
    SerKidsShape(h, d0, kind, kids);
    assert done + [] == done;
  }

  lemma NothingBetween(x: seq<word>, y: seq<word>)
    ensures x + EncOpt(None) + y == x + y
  {
  }

  lemma EmptyParts(kind: Kind, kids: Kids)
    requires WellFormedKids(kids)
    ensures [] + EncOpt(None) + EncKids(kind, kids, false) == EncKids(kind, kids, false)
  {
  }

  lemma RestNotEmpty(kind: Kind, rest: Kids)
    requires KidsLen(kind, rest) > 0
    ensures rest.Cons? && Len(rest.value) >= 2
    ensures KidsLen(kind, rest) == Extra(kind) + Len(rest.value) + KidsLen(kind, rest.rest)
    ensures WellFormedKids(rest) ==> WellFormed(rest.value) && WellFormedKids(rest.rest)
    ensures forall h :: WellTypedKids(h, rest) ==> WellTyped(h, rest.value) && WellTypedKids(h, rest.rest)
  {
  }

  lemma RestEmpty(kind: Kind, rest: Kids)
    requires KidsLen(kind, rest) <= 0
    ensures rest == Nil
  {
  }

  lemma UnfoldKids(kind: Kind, rest: Kids, done: seq<word>)
    requires WellFormedKids(rest) && rest.Cons?
    ensures done + EncKids(kind, rest, false) ==
            done + EncPrefix(kind, rest.p0, rest.p1, false) + (Enc(rest.value, false) + EncKids(kind, rest.rest, false))
  {
    hide Enc, EncPrefix;
  }

  lemma OverOfTwo(s: seq<word>, p: nat, u: word, v: word, x: word)
    requires p + 2 <= |s|
    ensures Over<word>(s, p, [u, v])[p := x] == Over<word>(s, p, [x, v])
    ensures Over<word>(s, p, [u, v])[p + 1 := x] == Over<word>(s, p, [u, x])
  {
    assert [u, v][0 := x] == [x, v] && [u, v][1 := x] == [u, x];
  }

  lemma SetOfTwo(u: word, v: word, x: word, y: word)
    ensures [u, v][0 := x][1 := y] == [x, y]
  {
  }

  lemma ElementsFit(size: nat)
    ensures size / 4 <= PadWords(size) && 2 * (size / 8) <= PadWords(size)
  {
  }

  lemma OverTwice(s: seq<word>, p: nat, x: seq<word>, y: seq<word>)
    requires p + |x| <= |s| && |x| == |y|
    ensures Over(Over(s, p, x), p, y) == Over(s, p, y)
  {
  }

  lemma FrontOfOver(s: seq<word>, p: nat, x: seq<word>, y: seq<word>, y': seq<word>)
    requires p + |x| + |y| <= |s| && s[p..p + |x| + |y|] == x + y && |y'| == |y|
    ensures Over(s, p + |x|, y') == Over(s, p, x + y')
    ensures Over(s, p, x + y')[p..p + |x|] == x
  {
    SubSlice(s, p, x, y);
    var a, b := Over(s, p + |x|, y'), Over(s, p, x + y');
    assert s[..p + |x|] == s[..p] + x;
  }

  lemma PairSwapped(s: seq<word>, p: nat, x: seq<word>, y: seq<word>, w: word)
    requires |x| == 2 && p + 2 + |y| <= |s|
    ensures Over<word>(s, p, x + y)[p := w] == Over<word>(s, p, [w, x[1]] + y)
    ensures Over(s, p, [w, x[1]] + y)[p..p + 2] == [w, x[1]]
    ensures w == x[0] ==> Over(s, p, x + y) == Over(s, p, [w, x[1]] + y)
  {
    assert (x + y)[0 := w] == [w, x[1]] + y;
  }

  lemma OverFrontTwice(s: seq<word>, p: nat, x: seq<word>, y: seq<word>, x': seq<word>)
    requires p + |x| + |y| <= |s| && |x| == |x'|
    ensures Over(Over(s, p, x + y), p, x') == Over(s, p, x' + y)
  {
  }

  lemma OverIndex(s: seq<word>, p: nat, w: seq<word>, k: nat, x: word)
    requires p + |w| <= |s| && k < |w|
    ensures Over(s, p, w)[p + k] == w[k]
    ensures Over<word>(s, p, w)[p + k := x] == Over<word>(s, p, w[k := x])
  {
  }

  /** The first i of n elements are done. */
  ghost predicate Swapping4(w: seq<word>, i: nat, n: nat, words: seq<word>) {
    i <= n && i <= |w| && w[..i] + Swap4(n - i, w[i..]) == Swap4(n, words)
  }

  lemma Swap4Start(n: nat, words: seq<word>)
    ensures Swapping4(words, 0, n, words)
  {
    assert words[0..] == words;
  }

  lemma Swap4Step(w: seq<word>, i: nat, n: nat, words: seq<word>)
    requires i < n <= |w| && Swapping4(w, i, n, words)
    ensures Swapping4(w[i := Swap32(w[i])], i + 1, n, words)
  {
    hide Swap32;
    var w' := w[i := Swap32(w[i])];
    assert w'[i + 1..] == w[i + 1..] == w[i..][1..];
    assert w'[..i + 1] == w[..i] + [Swap32(w[i])];
  }

  lemma Swap4End(w: seq<word>, n: nat, words: seq<word>)
    requires Swapping4(w, n, n, words)
    ensures w == Swap4(n, words)
  {
    assert w[..n] + w[n..] == w;
  }

  lemma Swap8Start(n: nat, w: seq<word>)
    ensures w[..0] + Swap8(n, w[0..]) == Swap8(n, w)
    ensures Swap8(0, w) == w
  {
    assert w[0..] == w;
  }

  lemma Swap8Step(w: seq<word>, i: nat, n: nat)
    requires i < n && 2 * n <= |w|
    ensures var w' := w[2 * i := Swap32(w[2 * i + 1])][2 * i + 1 := Swap32(w[2 * i])];
            w'[..2 * (i + 1)] + Swap8(n - (i + 1), w'[2 * (i + 1)..]) == w[..2 * i] + Swap8(n - i, w[2 * i..])
  {
    hide Swap32;
    var w' := w[2 * i := Swap32(w[2 * i + 1])][2 * i + 1 := Swap32(w[2 * i])];
    assert w'[2 * i + 2..] == w[2 * i + 2..] == w[2 * i..][2..];
    assert w'[..2 * i + 2] == w[..2 * i] + [Swap32(w[2 * i + 1]), Swap32(w[2 * i])];
  }

  lemma UnmapIsString(h: Host, u: word)
    requires Consistent(h) && h.unmap(u).Some?
    ensures IsText(h.unmap(u).value)
  {
  }
}
