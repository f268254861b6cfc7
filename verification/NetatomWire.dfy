/**
 What netatom sends, byte by byte: the words of memory as a little-endian host stores them, and
 the same bytes written down without any swapping of words.
 */
module NetatomWire {
  import opened Bytes
  import opened AtomTree
  import opened NetatomSpec
  import opened NetatomMemory

  /** The bytes of memory. */
  function Wire(words: seq<word>): (r: seq<byte>)
    ensures |r| == 4 * |words|
  {
    if words == [] then [] else Le32(words[0]) + Wire(words[1..])
  }

  lemma {:induction false} WireAppend(x: seq<word>, y: seq<word>)
    ensures Wire(x + y) == Wire(x) + Wire(y)
  {
    hide Le32;
    if x == [] {
      assert x + y == y;
    } else {
      assert (x + y)[0] == x[0] && (x + y)[1..] == x[1..] + y;
      WireAppend(x[1..], y);
      assert Le32(x[0]) + (Wire(x[1..]) + Wire(y)) == Le32(x[0]) + Wire(x[1..]) + Wire(y);
    }
  }

  lemma WireOne(x: word)
    ensures Wire([x]) == Le32(x)
  {
    hide Le32;
    assert Wire([x][1..]) == [];
  }

  lemma WirePair(x: word, y: word)
    ensures Wire([x, y]) == Le32(x) + Le32(y)
  {
    hide Le32;
    WireAppend([x], [y]);
    WireOne(x);
    WireOne(y);
    assert [x] + [y] == [x, y];
  }

  lemma {:induction false} WireAt(words: seq<word>, k: nat)
    requires k < 4 * |words|
    ensures Wire(words)[k] == Le32(words[k / 4])[k % 4]
  {
    hide Le32;
    if k >= 4 {
      WireAt(words[1..], k - 4);
      assert (k - 4) / 4 == k / 4 - 1 && (k - 4) % 4 == k % 4;
    }
  }

  // ---- numbers ----

  /** A 32-bit number: in network byte order when the byte order of the other host is unknown. */
  function Num(swap: bool, w: word): (r: seq<byte>)
    ensures |r| == 4
  {
    if swap then Be32(w) else Le32(w)
  }

  /** A 64-bit number of two words. */
  function Num64(swap: bool, lo: word, hi: word): (r: seq<byte>)
    ensures |r| == 8
  {
    if swap then Be32(hi) + Be32(lo) else Le32(lo) + Le32(hi)
  }

  function Backwards(s: seq<byte>): (r: seq<byte>)
    ensures |r| == |s| && forall i :: 0 <= i < |s| ==> r[i] == s[|s| - 1 - i]
  {
    seq(|s|, i requires 0 <= i < |s| => s[|s| - 1 - i])
  }

  /** n numbers of `width` bytes each, turned round one by one. */
  function TurnedRound(n: nat, width: nat, s: seq<byte>): (r: seq<byte>)
    requires width > 0
    ensures |r| == |s|
    decreases n
  {
    if n == 0 || |s| < width then s else Backwards(s[..width]) + TurnedRound(n - 1, width, s[width..])
  }

  /** Vectors of 4 and 8 byte numbers are vectors of numbers; others are byte strings. */
  function WireElements(swap: bool, width: word, size: nat, s: seq<byte>): (r: seq<byte>)
    ensures |r| == |s|
  {
    if swap && (width == 4 || width == 8) then TurnedRound(size / width, width, s) else s
  }

  // ---- atoms ----

  function WireAtom(a: Atom, swap: bool): seq<byte>
    requires WellFormed(a)
    decreases a
  {
    Num(swap, BodyBytes(a.body)) + Num(swap, a.ty) + WireBody(a.body, swap)
  }

  function WireBody(b: Body, swap: bool): seq<byte>
    requires WellFormed(Atom(0, b))
    decreases b
  {
    match b
    case W32(w, pad) => Num(swap, w) + Le32(pad)
    case W64(lo, hi) => Num64(swap, lo, hi)
    case Ref(u, pad) => Num(swap, u) + Le32(pad)
    case Raw(_, words) => Wire(words)
    case Lit(d, l, _, words) => Num(swap, d) + Num(swap, l) + Wire(words)
    case Vec(width, ct, size, words) => Num(swap, width) + Num(swap, ct) + WireElements(swap, width, size, Wire(words))
    case Node(kind, h0, h1, kids) =>
      (if kind.KTuple? then [] else Num(swap, h0) + Num(swap, h1)) + WireKids(kind, kids, swap)
  }

  function WirePrefix(kind: Kind, p0: word, p1: word, swap: bool): seq<byte> {
    match kind
    case KTuple => []
    case KObject => Num(swap, p0) + Num(swap, p1)
    case KSequence => Num64(swap, p0, p1)
  }

  function WireKids(kind: Kind, kids: Kids, swap: bool): seq<byte>
    requires WellFormedKids(kids)
    decreases kids
  {
    match kids
    case Nil => []
    case Cons(p0, p1, value, rest) =>
      WirePrefix(kind, p0, p1, swap) + WireAtom(value, swap) + WireKids(kind, rest, swap)
  }

  lemma NumOfWord(swap: bool, w: word)
    ensures Le32(Sw(swap, w)) == Num(swap, w)
  {
    hide Le32, Be32, Swap32;
    SwappedIsBigEndian(w);
  }

  lemma NumsOfPair(swap: bool, x: word, y: word)
    ensures Wire([Sw(swap, x), Sw(swap, y)]) == Num(swap, x) + Num(swap, y)
    ensures Wire([Sw(swap, x), y]) == Num(swap, x) + Le32(y)
    ensures Wire(Sw64(swap, x, y)) == Num64(swap, x, y)
  {
    hide Wire, Le32, Be32, Swap32;
    NumOfWord(swap, x);
    NumOfWord(swap, y);
    WirePair(Sw(swap, x), Sw(swap, y));
    WirePair(Sw(swap, x), y);
    SwappedIsBigEndian(x);
    SwappedIsBigEndian(y);
    WirePair(Swap32(y), Swap32(x));
    WirePair(x, y);
  }

  lemma BackwardsNum(w: word)
    ensures Backwards(Le32(w)) == Be32(w)
  {
    hide Le32, Be32;
    LeReversesBe(w);
  }

  lemma BackwardsPair(x: seq<byte>, y: seq<byte>)
    ensures Backwards(x + y) == Backwards(y) + Backwards(x)
  {
  }

  lemma {:induction false} Turned4(n: nat, words: seq<word>)
    ensures Wire(Swap4(n, words)) == TurnedRound(n, 4, Wire(words))
    decreases n
  {
    hide Le32, Swap32, Backwards;
    if n > 0 && words != [] {
      var w, rest := words[0], words[1..];
      Turned4(n - 1, rest);
      SwappedIsBigEndian(w);
      BackwardsNum(w);
      var s := Swap4(n, words);
      assert s[0] == Swap32(w) && s[1..] == Swap4(n - 1, rest);
      assert Wire(words)[..4] == Le32(w) && Wire(words)[4..] == Wire(rest);
    }
  }

  lemma {:induction false} Turned8(n: nat, words: seq<word>)
    ensures Wire(Swap8(n, words)) == TurnedRound(n, 8, Wire(words))
    decreases n
  {
    hide Le32, Be32, Swap32, Backwards, Wire, Num64;
    if n > 0 && |words| >= 2 {
      var x, y, rest := words[0], words[1], words[2..];
      Turned8(n - 1, rest);
      WireAppend(Sw64(true, x, y), Swap8(n - 1, rest));
      NumsOfPair(true, x, y);
      WirePair(x, y);
      WireAppend([x, y], rest);
      assert words == [x, y] + rest;
      EightBack(x, y);
      assert Wire(words)[..8] == Le32(x) + Le32(y) && Wire(words)[8..] == Wire(rest);
    }
  }

  lemma EightBack(x: word, y: word)
    ensures Backwards(Le32(x) + Le32(y)) == Num64(true, x, y)
  {
    hide Le32, Be32, Backwards;
    BackwardsPair(Le32(x), Le32(y));
    BackwardsNum(x);
    BackwardsNum(y);
  }

  /** Every atom in memory, byte by byte. */
  lemma {:induction false} AtomOnTheWire(a: Atom, swap: bool)
    requires WellFormed(a)
    ensures Wire(Enc(a, swap)) == WireAtom(a, swap)
    decreases a
  {
    hide Wire, Sw, Num, EncBody, WireBody;
    BodyOnTheWire(a.body, swap);
    NumsOfPair(swap, BodyBytes(a.body), a.ty);
    WireAppend([Sw(swap, BodyBytes(a.body)), Sw(swap, a.ty)], EncBody(a.body, swap));
  }

  lemma {:induction false} BodyOnTheWire(b: Body, swap: bool)
    requires WellFormed(Atom(0, b))
    ensures Wire(EncBody(b, swap)) == WireBody(b, swap)
    decreases b
  {
    hide Wire, Sw, Sw64, Num, Num64, Le32, SwapElements, WireElements, EncKids, WireKids;
    match b
    case W32(w, pad) => NumsOfPair(swap, w, pad);
    case W64(lo, hi) => NumsOfPair(swap, lo, hi);
    case Ref(u, pad) => NumsOfPair(swap, u, pad);
    case Raw(_, _) =>
    case Lit(d, l, _, words) =>
      NumsOfPair(swap, d, l);
      WireAppend([Sw(swap, d), Sw(swap, l)], words);
    case Vec(width, ct, size, words) =>
      NumsOfPair(swap, width, ct);
      WireAppend([Sw(swap, width), Sw(swap, ct)], SwapElements(swap, width, size, words));
      ElementsOnTheWire(swap, width, size, words);
    case Node(kind, h0, h1, kids) =>
      HeadOnTheWire(kind, h0, h1, swap);
      KidsOnTheWire(kind, kids, swap);
      WireAppend(EncHead(kind, h0, h1, swap), EncKids(kind, kids, swap));
  }

  lemma HeadOnTheWire(kind: Kind, h0: word, h1: word, swap: bool)
    ensures Wire(EncHead(kind, h0, h1, swap)) == if kind.KTuple? then [] else Num(swap, h0) + Num(swap, h1)
  {
    hide Sw, Num, Le32;
    NumsOfPair(swap, h0, h1);
  }

  lemma ElementsOnTheWire(swap: bool, width: word, size: nat, words: seq<word>)
    ensures Wire(SwapElements(swap, width, size, words)) == WireElements(swap, width, size, Wire(words))
  {
    hide Wire, Swap4, Swap8, TurnedRound;
    Turned4(size / 4, words);
    Turned8(size / 8, words);
  }

  lemma PrefixOnTheWire(kind: Kind, p0: word, p1: word, swap: bool)
    ensures Wire(EncPrefix(kind, p0, p1, swap)) == WirePrefix(kind, p0, p1, swap)
  {
    hide Sw, Sw64, Num, Num64, Le32;
    NumsOfPair(swap, p0, p1);
  }

  lemma {:induction false} KidsOnTheWire(kind: Kind, kids: Kids, swap: bool)
    requires WellFormedKids(kids)
    ensures Wire(EncKids(kind, kids, swap)) == WireKids(kind, kids, swap)
    decreases kids
  {
    hide Wire, Enc, WireAtom, EncPrefix, WirePrefix, WellFormed;
    match kids
    case Nil => WireNothing();
    case Cons(p0, p1, value, rest) =>
      PrefixOnTheWire(kind, p0, p1, swap);
      AtomOnTheWire(value, swap);
      KidsOnTheWire(kind, rest, swap);
      WireAppend(EncPrefix(kind, p0, p1, swap), Enc(value, swap));
      WireAppend(EncPrefix(kind, p0, p1, swap) + Enc(value, swap), EncKids(kind, rest, swap));
  }

  lemma WireNothing()
    ensures Wire([]) == []
  {
  }

  /** The size field counts the bytes of the body without its padding. */
  lemma SizesAre(b: Body)
    requires WellFormed(Atom(0, b))
    ensures match b
            case W32(_, _) => BodyBytes(b) == 4
            case W64(_, _) => BodyBytes(b) == 8
            case Ref(_, _) => BodyBytes(b) == 4
            case Raw(size, words) => BodyBytes(b) == size && |Wire(words)| == Pad8(size)
            case Lit(_, _, size, words) => BodyBytes(b) == 4 + 4 + size && |Wire(words)| == Pad8(size)
            case Vec(_, _, size, words) => BodyBytes(b) == 4 + 4 + size && |Wire(words)| == Pad8(size)
            case Node(_, _, _, _) => BodyBytes(b) == |WireBody(b, false)|
  {
    BodyOnTheWire(b, false);
    hide Wire, WireBody, Pad8, PadWords;
    match b
    case Raw(size, _) => PadWordsFacts(size, 0);
    case Lit(_, _, size, _) => PadWordsFacts(size, 0);
    case Vec(_, _, size, _) => PadWordsFacts(size, 0);
    case _ =>
  }

  // ---- the dictionary ----

  function Nulls(n: nat): (r: seq<byte>)
    ensures |r| == n && forall i :: 0 <= i < n ==> r[i] == 0
  {
    seq(n, i => 0)
  }

  /** The size of the URI and its NUL, four bytes that are no number any more, and the URI padded to 8 bytes. */
  function WireEntry(swap: bool, uri: Uri): seq<byte>
    requires |uri| + 1 < WORD_LIMIT
  {
    Num(swap, |uri| + 1) + Nulls(4) + (uri + Nulls(Pad8(|uri| + 1) - |uri|))
  }

  ghost function WireDict(swap: bool, entries: seq<Entry>): seq<byte>
    requires SmallEntries(entries)
  {
    if entries == [] then [] else WireEntry(swap, entries[0].uri) + WireDict(swap, entries[1..])
  }

  lemma UriOnTheWire(uri: Uri)
    ensures Wire(PackUri(uri)) == uri + Nulls(Pad8(|uri| + 1) - |uri|)
  {
    hide Wire, Le32, PackWord, Pad8, PadWords;
    PadWordsFacts(|uri| + 1, 0);
    var r, s: seq<byte> := Wire(PackUri(uri)), uri + Nulls(Pad8(|uri| + 1) - |uri|);
    assert |r| == |s|;
    forall k | 0 <= k < |r| ensures r[k] == s[k] {
      WireAt(PackUri(uri), k);
      PackedByte(uri, k);
    }
  }

  lemma EntryOnTheWire(swap: bool, e: Entry)
    requires |e.uri| + 1 < WORD_LIMIT
    ensures Wire(EntryWords(Cleared, swap, e)) == WireEntry(swap, e.uri)
  {
    hide Wire, Sw, PackUri, Pad8;
    UriOnTheWire(e.uri);
    NumsOfPair(swap, |e.uri| + 1, 0);
    WireAppend([Sw(swap, |e.uri| + 1), 0], PackUri(e.uri));
    assert Le32(0) == Nulls(4);
  }

  /** The dictionary on its way: sizes, no keys, and the URIs as they are. */
  lemma {:induction false} DictOnTheWire(swap: bool, entries: seq<Entry>)
    requires SmallEntries(entries)
    ensures Wire(DictWords(Cleared, swap, entries)) == WireDict(swap, entries)
    decreases |entries|
  {
    hide Wire, EntryWords, WireEntry, EntryLen;
    if entries == [] {
      WireNothing();
    } else {
      EntryOnTheWire(swap, entries[0]);
      DictOnTheWire(swap, entries[1..]);
      WireAppend(EntryWords(Cleared, swap, entries[0]), DictWords(Cleared, swap, entries[1..]));
    }
  }

  /** A reference is one plus the number of bytes of the dictionary in front of its entry. */
  lemma RefCountsBytes(swap: bool, entries: seq<Entry>, i: nat)
    requires SmallEntries(entries) && i <= |entries| && 4 * DictLen(entries[..i]) + 1 < WORD_LIMIT
    ensures RefTo(entries, i) == |WireDict(swap, entries[..i])| + 1
  {
    hide Wire, WireDict, DictLen, DictWords;
    assert SmallEntries(entries[..i]);
    DictOnTheWire(swap, entries[..i]);
  }

  /** All that is sent: the atom with its references, and the dictionary behind it. */
  lemma SentOnTheWire(a: Atom, swap: bool, entries: seq<Entry>)
    requires WellFormed(a) && SmallEntries(entries)
    ensures Wire(Enc(a, swap) + DictWords(Cleared, swap, entries)) == WireAtom(a, swap) + WireDict(swap, entries)
  {
    hide Wire, Enc, WireAtom, DictWords, WireDict, WellFormed;
    AtomOnTheWire(a, swap);
    DictOnTheWire(swap, entries);
    WireAppend(Enc(a, swap), DictWords(Cleared, swap, entries));
  }
}
