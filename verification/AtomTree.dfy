/**
 LV2 atoms as trees, and their layout in memory. Every field that netatom.h touches is a
 naturally aligned 32-bit or 64-bit number, so memory is a sequence of 32-bit words; only the
 strings of the dictionary are looked at byte by byte.
 */
module AtomTree {
  import opened Bytes

  type Uri = seq<byte>

  // ---- byte swapping ----

  /** htobe32 and be32toh on a little-endian host. */
  function Swap32(w: word): word {
    FromBe32(Le32(w))
  }

  lemma Swap32Involution(w: word)
    ensures Swap32(Swap32(w)) == w
  {
    hide Be32, Le32, FromBe32, FromLe32;
    var s := Le32(w);
    LeOfBe(s);
    Be32RoundTrip(w);
    LeReversesBe(w);
    assert Be32(w) == [s[3], s[2], s[1], s[0]];
  }

  lemma LeReversesBe(w: word)
    ensures Le32(w)[3] == Be32(w)[0] && Le32(w)[2] == Be32(w)[1] && Le32(w)[1] == Be32(w)[2] && Le32(w)[0] == Be32(w)[3]
  {
  }

  lemma LeOfBe(s: seq<byte>)
    requires |s| == 4
    ensures Le32(FromBe32(s)) == [s[3], s[2], s[1], s[0]]
  {
    var q: int := 256 * (s[0] as int) + s[1];
    LastDigit(s[0], s[1]);
    LastDigit(q, s[2]);
    LastDigit(256 * q + s[2], s[3]);
  }

  /** What was swapped lies in network byte order in memory. */
  lemma SwappedIsBigEndian(w: word)
    ensures Le32(Swap32(w)) == Be32(w)
  {
    hide Be32, Le32, FromBe32;
    LeOfBe(Le32(w));
    LeReversesBe(w);
    assert Be32(w) == [Le32(w)[3], Le32(w)[2], Le32(w)[1], Le32(w)[0]];
  }

  lemma Swap32Zero()
    ensures Swap32(0) == 0
  {
  }

  function Sw(swap: bool, w: word): word {
    if swap then Swap32(w) else w
  }

  lemma SwTwice(swap: bool, w: word)
    ensures Sw(swap, Sw(swap, w)) == w
    ensures Sw(swap, 0) == 0
  {
    Swap32Involution(w);
    Swap32Zero();
  }

  /** A 64-bit number is two words, low word first; swapping it swaps both and exchanges them. */
  function Sw64(swap: bool, lo: word, hi: word): (r: seq<word>)
    ensures |r| == 2
  {
    if swap then [Swap32(hi), Swap32(lo)] else [lo, hi]
  }

  lemma Sw64Twice(swap: bool, lo: word, hi: word)
    ensures var w := Sw64(swap, lo, hi); Sw64(swap, w[0], w[1]) == [lo, hi]
  {
    hide Swap32;
    Swap32Involution(lo);
    Swap32Involution(hi);
  }

  function Swap4(n: nat, words: seq<word>): (r: seq<word>)
    ensures |r| == |words|
  {
    if n == 0 || words == [] then words else [Swap32(words[0])] + Swap4(n - 1, words[1..])
  }

  function Swap8(n: nat, words: seq<word>): (r: seq<word>)
    ensures |r| == |words|
  {
    if n == 0 || |words| < 2 then words else Sw64(true, words[0], words[1]) + Swap8(n - 1, words[2..])
  }

  /** The elements of a vector, `count` bytes of them; elements of another width stay as they are. */
  function SwapElements(swap: bool, width: word, count: nat, words: seq<word>): (r: seq<word>)
    ensures |r| == |words|
  {
    if !swap then words
    else if width == 4 then Swap4(count / 4, words)
    else if width == 8 then Swap8(count / 8, words)
    else words
  }

  lemma {:induction false} Swap4Twice(n: nat, words: seq<word>)
    ensures Swap4(n, Swap4(n, words)) == words
  {
    hide Swap32;
    if n > 0 && words != [] {
      Swap32Involution(words[0]);
      Swap4Twice(n - 1, words[1..]);
      assert Swap4(n, words)[1..] == Swap4(n - 1, words[1..]);
    }
  }

  lemma {:induction false} Swap8Twice(n: nat, words: seq<word>)
    ensures Swap8(n, Swap8(n, words)) == words
  {
    hide Swap32;
    if n > 0 && |words| >= 2 {
      Swap32Involution(words[0]);
      Swap32Involution(words[1]);
      Swap8Twice(n - 1, words[2..]);
      assert Swap8(n, words)[2..] == Swap8(n - 1, words[2..]);
    }
  }

  lemma SwapElementsTwice(swap: bool, width: word, count: nat, words: seq<word>)
    ensures SwapElements(swap, width, count, SwapElements(swap, width, count, words)) == words
  {
    hide Swap4, Swap8;
    Swap4Twice(count / 4, words);
    Swap8Twice(count / 8, words);
  }

  // ---- trees ----

  datatype Kind = KObject | KTuple | KSequence

  datatype Atom = Atom(ty: word, body: Body)

  datatype Body =
    | W32(w: word, pad: word)                                     // Bool, Int, Float
    | W64(lo: word, hi: word)                                     // Long, Double
    | Ref(urid: word, pad: word)                                  // URID
    | Raw(size: nat, words: seq<word>)                            // String, Chunk, MidiEvent, Path, URI, unknown
    | Lit(datatyp: word, lang: word, size: nat, words: seq<word>) // Literal
    | Vec(width: word, childType: word, size: nat, words: seq<word>)
    | Node(kind: Kind, h0: word, h1: word, kids: Kids)            // Object, Tuple, Sequence

  /**
   The children of a container, each behind two words: key and context in an object, the 64-bit
   time stamp in a sequence. An object has an id and a type before its children, a sequence a
   unit and a padding word. A tuple has neither; its p0, p1, h0 and h1 are not laid out.
   */
  datatype Kids = Nil | Cons(p0: word, p1: word, value: Atom, rest: Kids)

  function Extra(kind: Kind): nat {
    if kind.KTuple? then 0 else 2
  }

  /** The size field of the atom header, in bytes. */
  function BodyBytes(b: Body): nat {
    match b
    case W32(_, _) => 4
    case W64(_, _) => 8
    case Ref(_, _) => 4
    case Raw(size, _) => size
    case Lit(_, _, size, _) => 8 + size
    case Vec(_, _, size, _) => 8 + size
    case Node(kind, _, _, kids) => 4 * (Extra(kind) + KidsLen(kind, kids))
  }

  /** The number of words of an atom, header and padding included. */
  function Len(a: Atom): nat
    decreases a
  {
    2 + BodyLen(a.body)
  }

  function BodyLen(b: Body): nat
    decreases b
  {
    match b
    case W32(_, _) => 2
    case W64(_, _) => 2
    case Ref(_, _) => 2
    case Raw(_, words) => |words|
    case Lit(_, _, _, words) => 2 + |words|
    case Vec(_, _, _, words) => 2 + |words|
    case Node(kind, _, _, kids) => Extra(kind) + KidsLen(kind, kids)
  }

  function KidsLen(kind: Kind, kids: Kids): nat
    decreases kids
  {
    match kids
    case Nil => 0
    case Cons(_, _, value, rest) => Extra(kind) + Len(value) + KidsLen(kind, rest)
  }

  /** Bodies are padded to 8 bytes and every size fits its 32-bit field. */
  predicate WellFormed(a: Atom) {
    && BodyBytes(a.body) < WORD_LIMIT
    && match a.body
       case Raw(size, words) => |words| == PadWords(size)
       case Lit(_, _, size, words) => |words| == PadWords(size)
       case Vec(_, _, size, words) => |words| == PadWords(size)
       case Node(_, _, _, kids) => WellFormedKids(kids)
       case _ => true
  }

  predicate WellFormedKids(kids: Kids) {
    match kids
    case Nil => true
    case Cons(_, _, value, rest) => WellFormed(value) && WellFormedKids(rest)
  }

  predicate Even(n: nat) {
    n % 2 == 0
  }

  /** lv2_atom_pad_size, in words. */
  function PadWords(size: nat): (n: nat)
    ensures Even(n)
  {
    2 * ((size + 7) / 8)
  }

  /** lv2_atom_pad_size(sizeof(LV2_Atom) + size), in words: what an iterator of LV2 steps over. */
  function TotalWords(size: nat): nat {
    PadWords(8 + size)
  }

  lemma PadWordsFacts(n: nat, k: nat)
    ensures PadWords(8 + n) == 2 + PadWords(n)
    ensures Even(k) ==> PadWords(4 * k) == k
    ensures Even(k) ==> Even(k + 2)
    ensures Even(n) && Even(k) ==> Even(n + k)
    ensures 4 * PadWords(n) == Pad8(n)
  {
  }

  lemma {:induction false} StepIsLen(a: Atom)
    requires WellFormed(a)
    ensures TotalWords(BodyBytes(a.body)) == Len(a) && Even(Len(a))
    decreases a
  {
    hide PadWords, Even;
    PadWordsFacts(BodyBytes(a.body), BodyLen(a.body));
    match a.body
    case W32(_, _) => PadWordsFacts(0, 2); SmallPads();
    case W64(_, _) => SmallPads();
    case Ref(_, _) => SmallPads();
    case Raw(_, _) =>
    case Lit(_, _, size, _) => PadWordsFacts(size, PadWords(size));
    case Vec(_, _, size, _) => PadWordsFacts(size, PadWords(size));
    case Node(kind, _, _, kids) =>
      KidsLenEven(kind, kids);
      SmallPads();
      PadWordsFacts(Extra(kind), KidsLen(kind, kids));
  }

  lemma SmallPads()
    ensures PadWords(4) == 2 && PadWords(8) == 2 && Even(0) && Even(2)
  {
  }

  lemma {:induction false} KidsLenEven(kind: Kind, kids: Kids)
    requires WellFormedKids(kids)
    ensures Even(KidsLen(kind, kids))
    decreases kids
  {
    hide PadWords, Even;
    SmallPads();
    if kids.Cons? {
      StepIsLen(kids.value);
      KidsLenEven(kind, kids.rest);
      PadWordsFacts(Extra(kind), Len(kids.value));
      PadWordsFacts(Extra(kind) + Len(kids.value), KidsLen(kind, kids.rest));
    }
  }

  // ---- layout ----

  /**
   The words of an atom. With `swap`, as netatom leaves them for a host of unknown byte order:
   every number swapped, every byte string untouched.
   */
  function Enc(a: Atom, swap: bool): (r: seq<word>)
    requires WellFormed(a)
    ensures |r| == Len(a)
    decreases a
  {
    [Sw(swap, BodyBytes(a.body)), Sw(swap, a.ty)] + EncBody(a.body, swap)
  }

  function EncBody(b: Body, swap: bool): (r: seq<word>)
    requires WellFormed(Atom(0, b))
    ensures |r| == BodyLen(b)
    decreases b
  {
    match b
    case W32(w, pad) => [Sw(swap, w), pad]
    case W64(lo, hi) => Sw64(swap, lo, hi)
    case Ref(u, pad) => [Sw(swap, u), pad]
    case Raw(_, words) => words
    case Lit(d, l, _, words) => [Sw(swap, d), Sw(swap, l)] + words
    case Vec(width, ct, size, words) => [Sw(swap, width), Sw(swap, ct)] + SwapElements(swap, width, size, words)
    case Node(kind, h0, h1, kids) => EncHead(kind, h0, h1, swap) + EncKids(kind, kids, swap)
  }

  function EncHead(kind: Kind, h0: word, h1: word, swap: bool): (r: seq<word>)
    ensures |r| == Extra(kind)
  {
    if kind.KTuple? then [] else [Sw(swap, h0), Sw(swap, h1)]
  }

  function EncPrefix(kind: Kind, p0: word, p1: word, swap: bool): (r: seq<word>)
    ensures |r| == Extra(kind)
  {
    match kind
    case KTuple => []
    case KObject => [Sw(swap, p0), Sw(swap, p1)]
    case KSequence => Sw64(swap, p0, p1)
  }

  function EncKids(kind: Kind, kids: Kids, swap: bool): (r: seq<word>)
    requires WellFormedKids(kids)
    ensures |r| == KidsLen(kind, kids)
    decreases kids
  {
    match kids
    case Nil => []
    case Cons(p0, p1, value, rest) => EncPrefix(kind, p0, p1, swap) + Enc(value, swap) + EncKids(kind, rest, swap)
  }
}
