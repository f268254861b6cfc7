/**
 What netatom.h does to an atom, on trees: every URID becomes one plus the byte offset of its
 URI in a dictionary that grows on the way, and on the other side becomes a URID again.
 */
module NetatomSpec {
  import opened Bytes
  import opened AtomTree
  import opened Urid

  // ---- hosts ----

  datatype Tag =
    | Bool | Int | Float | Long | Double | URID | String | Chunk | MidiEvent
    | Literal | Object | Tuple | Sequence | Vector | Path | URI | Other

  function Ascii(s: string): (r: seq<byte>)
    ensures |r| == |s|
  {
    seq(|s|, i requires 0 <= i < |s| => s[i] as int % 256)
  }

  const ATOM := "http://lv2plug.in/ns/ext/atom#"
  const MIDI := "http://lv2plug.in/ns/ext/midi#"

  function Name(t: Tag): string {
    match t
    case Bool => "Bool"
    case Int => "Int"
    case Float => "Float"
    case Long => "Long"
    case Double => "Double"
    case URID => "URID"
    case String => "String"
    case Chunk => "Chunk"
    case MidiEvent => "MidiEvent"
    case Literal => "Literal"
    case Object => "Object"
    case Tuple => "Tuple"
    case Sequence => "Sequence"
    case Vector => "Vector"
    case Path => "Path"
    case URI => "URI"
    case Other => ""
  }

  function TagUri(t: Tag): Uri {
    Ascii(if t.MidiEvent? then MIDI else ATOM) + Ascii(Name(t))
  }

  /** The chain of comparisons with the numbers the host gave to the atom types it knows. */
  function TagOf(h: Host, ty: word): Tag {
    if ty == h.map_(TagUri(Bool)) then Bool
    else if ty == h.map_(TagUri(Int)) then Int
    else if ty == h.map_(TagUri(Float)) then Float
    else if ty == h.map_(TagUri(Long)) then Long
    else if ty == h.map_(TagUri(Double)) then Double
    else if ty == h.map_(TagUri(URID)) then URID
    else if ty == h.map_(TagUri(String)) then String
    else if ty == h.map_(TagUri(Chunk)) then Chunk
    else if ty == h.map_(TagUri(MidiEvent)) then MidiEvent
    else if ty == h.map_(TagUri(Literal)) then Literal
    else if ty == h.map_(TagUri(Object)) then Object
    else if ty == h.map_(TagUri(Tuple)) then Tuple
    else if ty == h.map_(TagUri(Sequence)) then Sequence
    else if ty == h.map_(TagUri(Vector)) then Vector
    else if ty == h.map_(TagUri(Path)) then Path
    else if ty == h.map_(TagUri(URI)) then URI
    else Other
  }

  /**
   What the URID extension promises: 0 is nobody's number, map and unmap are inverse wherever
   map has a number at all. Every host has numbers for the types it sets up its forge with.
   */
  ghost predicate Consistent(h: Host) {
    && h.unmap(0) == None
    && (forall u :: h.unmap(u).Some? ==> IsText(h.unmap(u).value) && h.map_(h.unmap(u).value) == u)
    && (forall s :: IsText(s) && h.map_(s) != 0 ==> h.unmap(h.map_(s)) == Some(s))
    && (forall t: Tag :: !t.Other? ==> h.map_(TagUri(t)) != 0)
  }

  lemma TagUriChars(t: Tag)
    ensures IsText(TagUri(t))
  {
    hide Name, Ascii;
    PrefixChars();
    NameChars(t);
  }

  lemma PrefixChars()
    ensures IsText(Ascii(ATOM)) && IsText(Ascii(MIDI))
  {
    hide Ascii;
    AtomChars();
    MidiChars();
  }

  lemma AtomChars()
    ensures IsText(Ascii(ATOM))
  {
    hide Ascii, IsText;
    PlainText(ATOM);
  }

  lemma MidiChars()
    ensures IsText(Ascii(MIDI))
  {
    hide Ascii, IsText;
    PlainText(MIDI);
  }

  lemma PlainText(s: string)
    requires forall i :: 0 <= i < |s| ==> ' ' <= s[i] <= '~'
    ensures IsText(Ascii(s)) && forall i :: 0 <= i < |s| ==> Ascii(s)[i] as char == s[i]
  {
  }

  lemma NameChars(t: Tag)
    ensures IsText(Ascii(Name(t)))
  {
  }

  /** Prefix, length and first letter tell the known types apart. */
  lemma TagUrisDistinct(s: Tag, t: Tag)
    requires s != t
    ensures TagUri(s) != TagUri(t)
  {
    NamesDistinct(s, t);
    hide Name, Ascii;
    AsciiHead(Name(s));
    AsciiHead(Name(t));
    if |TagUri(s)| == |TagUri(t)| {
      if !s.MidiEvent? && !t.MidiEvent? {
        assert TagUri(s)[30] == Ascii(Name(s))[0] != Ascii(Name(t))[0] == TagUri(t)[30];
      }
    }
  }

  lemma AsciiHead(s: string)
    ensures s != "" ==> Ascii(s)[0] == s[0] as int % 256
  {
  }

  lemma NamesDistinct(s: Tag, t: Tag)
    requires s != t
    ensures |Name(s)| == |Name(t)| ==> Name(s) != "" && Name(s)[0] as int % 256 != Name(t)[0] as int % 256
  {
  }

  /** The URIs of LV2 Atom and LV2 MIDI, written out. */
  function LV2Uri(t: Tag): string {
    match t
    case Bool => "http://lv2plug.in/ns/ext/atom#Bool"
    case Int => "http://lv2plug.in/ns/ext/atom#Int"
    case Float => "http://lv2plug.in/ns/ext/atom#Float"
    case Long => "http://lv2plug.in/ns/ext/atom#Long"
    case Double => "http://lv2plug.in/ns/ext/atom#Double"
    case URID => "http://lv2plug.in/ns/ext/atom#URID"
    case String => "http://lv2plug.in/ns/ext/atom#String"
    case Chunk => "http://lv2plug.in/ns/ext/atom#Chunk"
    case MidiEvent => "http://lv2plug.in/ns/ext/midi#MidiEvent"
    case Literal => "http://lv2plug.in/ns/ext/atom#Literal"
    case Object => "http://lv2plug.in/ns/ext/atom#Object"
    case Tuple => "http://lv2plug.in/ns/ext/atom#Tuple"
    case Sequence => "http://lv2plug.in/ns/ext/atom#Sequence"
    case Vector => "http://lv2plug.in/ns/ext/atom#Vector"
    case Path => "http://lv2plug.in/ns/ext/atom#Path"
    case URI => "http://lv2plug.in/ns/ext/atom#URI"
    case Other => ""
  }

  lemma TagUriIs(t: Tag)
    ensures !t.Other? ==> TagUri(t) == Ascii(LV2Uri(t))
  {
    hide Ascii;
    AsciiConcat(if t.MidiEvent? then MIDI else ATOM, Name(t));
    FullName(t);
  }

  lemma FullName(t: Tag)
    ensures !t.Other? ==> (if t.MidiEvent? then MIDI else ATOM) + Name(t) == LV2Uri(t)
  {
    hide Name, LV2Uri;
    ScalarNames(t);
    TextNames(t);
    ContainerNames(t);
    MidiName();
  }

  lemma ScalarNames(t: Tag)
    ensures t.Bool? || t.Int? || t.Float? || t.Long? || t.Double? || t.URID? ==> ATOM + Name(t) == LV2Uri(t)
  {
  }

  lemma TextNames(t: Tag)
    ensures t.String? || t.Chunk? || t.Literal? || t.Path? || t.URI? ==> ATOM + Name(t) == LV2Uri(t)
  {
  }

  lemma ContainerNames(t: Tag)
    ensures t.Object? || t.Tuple? || t.Sequence? || t.Vector? ==> ATOM + Name(t) == LV2Uri(t)
  {
  }

  lemma MidiName()
    ensures MIDI + Name(MidiEvent) == LV2Uri(MidiEvent)
  {
  }

  lemma AsciiConcat(s: string, t: string)
    ensures Ascii(s + t) == Ascii(s) + Ascii(t)
  {
  }

  function Index(t: Tag): word {
    match t
    case Bool => 1 case Int => 2 case Float => 3 case Long => 4 case Double => 5 case URID => 6
    case String => 7 case Chunk => 8 case MidiEvent => 9 case Literal => 10 case Object => 11
    case Tuple => 12 case Sequence => 13 case Vector => 14 case Path => 15 case URI => 16 case Other => 0
  }

  ghost function NumberOf(s: Uri): word {
    if t: Tag :| !t.Other? && TagUri(t) == s then Index(t) else 0
  }

  ghost function UriOf(u: word): Option<Uri> {
    if t: Tag :| !t.Other? && Index(t) == u then Some(TagUri(t)) else None
  }

  /** Such hosts exist: one that has numbers for the types alone is one. */
  lemma SomeHost() returns (h: Host)
    ensures Consistent(h)
  {
    h := Host((s: Uri) => NumberOf(s), (u: word) => UriOf(u));
    hide TagUri, IsText;
    forall t: Tag | !t.Other? ensures NumberOf(TagUri(t)) == Index(t) && UriOf(Index(t)) == Some(TagUri(t)) {
      NumberThereAndBack(t);
    }
    forall t: Tag ensures IsText(TagUri(t)) {
      TagUriChars(t);
    }
  }

  lemma NumberThereAndBack(t: Tag)
    requires !t.Other?
    ensures NumberOf(TagUri(t)) == Index(t) && UriOf(Index(t)) == Some(TagUri(t))
  {
    hide TagUri;
    forall x: Tag | x != t ensures TagUri(x) != TagUri(t) {
      TagUrisDistinct(x, t);
    }
  }

  /** A host recognises a type exactly by the URI it stands for. */
  lemma TagByUri(h: Host, ty: word, t: Tag)
    requires Consistent(h) && !t.Other?
    ensures TagOf(h, ty) == t <==> h.unmap(ty) == Some(TagUri(t))
    ensures TagUri(t) == Ascii(LV2Uri(t))
  {
    hide TagUri, IsText, LV2Uri, Ascii;
    TagUriIs(t);
    TagUriChars(t);
    TagUriChars(TagOf(h, ty));
    if h.unmap(ty) == Some(TagUri(t)) {
      var s := TagOf(h, ty);
      if s != t && !s.Other? {
        TagUrisDistinct(s, t);
      }
    }
  }

  /** r has a number for the URI that u stands for on s. */
  predicate Knows(s: Host, r: Host, u: word) {
    s.unmap(u).Some? ==> r.map_(s.unmap(u).value) != 0
  }

  lemma SameUriSameTag(s: Host, r: Host, ty: word, ty': word)
    requires Consistent(s) && Consistent(r) && s.unmap(ty) == r.unmap(ty')
    ensures TagOf(s, ty) == TagOf(r, ty')
  {
    hide TagOf, TagUri, IsText;
    var t, t' := TagOf(s, ty), TagOf(r, ty');
    if !t.Other? {
      TagByUri(s, ty, t);
      TagByUri(r, ty', t);
    } else if !t'.Other? {
      TagByUri(s, ty, t');
      TagByUri(r, ty', t');
    }
  }

  // ---- typing ----

  /** The layout that goes with a type, which is how both traversals read the body. */
  predicate Shaped(t: Tag, b: Body) {
    match t
    case Bool | Int | Float => b.W32?
    case Long | Double => b.W64?
    case URID => b.Ref?
    case Literal => b.Lit?
    case Vector => b.Vec?
    case Object => b.Node? && b.kind.KObject?
    case Tuple => b.Node? && b.kind.KTuple?
    case Sequence => b.Node? && b.kind.KSequence?
    case _ => b.Raw?
  }

  ghost predicate WellTyped(h: Host, a: Atom) {
    && Shaped(TagOf(h, a.ty), a.body)
    && (a.body.Node? ==> WellTypedKids(h, a.body.kids))
  }

  ghost predicate WellTypedKids(h: Host, kids: Kids) {
    match kids
    case Nil => true
    case Cons(_, _, value, rest) => WellTyped(h, value) && WellTypedKids(h, rest)
  }

  // ---- the dictionary ----

  datatype Entry = Entry(urid: word, uri: Uri)

  /** `cap` is the room for the dictionary in words. */
  datatype Dict = Dict(entries: seq<Entry>, cap: nat, overflow: bool)

  /** An atom header and the padded, NUL-terminated URI. */
  function EntryLen(e: Entry): nat {
    2 + PadWords(|e.uri| + 1)
  }

  function DictLen(entries: seq<Entry>): nat {
    if entries == [] then 0 else EntryLen(entries[0]) + DictLen(entries[1..])
  }

  lemma DictLenAppend(e: seq<Entry>, f: seq<Entry>)
    ensures DictLen(e + f) == DictLen(e) + DictLen(f)
  {
    if e == [] {
      assert e + f == f;
    } else {
      assert (e + f)[0] == e[0] && (e + f)[1..] == e[1..] + f;
      DictLenAppend(e[1..], f);
    }
  }

  /** The first entry for a URID, if any. */
  function Find(entries: seq<Entry>, urid: word): (r: Option<nat>)
    ensures r.Some? ==> r.value < |entries| && entries[r.value].urid == urid
    ensures r.Some? ==> forall i :: 0 <= i < r.value ==> entries[i].urid != urid
    ensures r.None? ==> forall i :: 0 <= i < |entries| ==> entries[i].urid != urid
  {
    if entries == [] then None
    else if entries[0].urid == urid then Some(0)
    else
      match Find(entries[1..], urid)
      case None => None
      case Some(i) => Some(i + 1)
  }

  /** The reference the wire format uses for entry i: one plus its byte offset, as a uint32_t. */
  function RefTo(entries: seq<Entry>, i: nat): word
    requires i <= |entries|
  {
    (4 * DictLen(entries[..i]) + 1) % WORD_LIMIT
  }

  // ---- serialisation ----

  /** _netatom_ser_uri without the final byte swap. */
  function SerUri(h: Host, d: Dict, urid: word): (word, Dict) {
    if urid == 0 then (0, d)
    else
      match Find(d.entries, urid)
      case Some(i) => (RefTo(d.entries, i), d)
      case None =>
        match h.unmap(urid)
        case None => (0, d)
        case Some(uri) =>
          var e := Entry(urid, uri);
          if DictLen(d.entries) + EntryLen(e) <= d.cap then
            (RefTo(d.entries, |d.entries|), d.(entries := d.entries + [e]))
          else
            (0, d.(overflow := true))
  }

  /** _netatom_ser_atom: the references that replace the URIDs, in the order it visits them. */
  function SerAtom(h: Host, d: Dict, a: Atom): (Atom, Dict)
    decreases a
  {
    var (b, d1) := SerBody(h, d, a.body);
    var (ty, d2) := SerUri(h, d1, a.ty);
    (Atom(ty, b), d2)
  }

  function SerBody(h: Host, d: Dict, b: Body): (Body, Dict)
    decreases b
  {
    match b
    case W32(_, _) => (b, d)
    case W64(_, _) => (b, d)
    case Raw(_, _) => (b, d)
    case Ref(u, pad) =>
      var (u', d1) := SerUri(h, d, u);
      (Ref(u', pad), d1)
    case Lit(t, l, size, words) =>
      var (t', d1) := SerUri(h, d, t);
      var (l', d2) := SerUri(h, d1, l);
      (Lit(t', l', size, words), d2)
    case Vec(width, t, size, words) =>
      var (t', d1) := SerUri(h, d, t);
      (Vec(width, t', size, words), d1)
    case Node(kind, h0, h1, kids) =>
      var (kids', d1) := SerKids(h, d, kind, kids);
      var (h0', h1', d2) := SerHead(h, d1, kind, h0, h1);
      (Node(kind, h0', h1', kids'), d2)
  }

  function SerHead(h: Host, d: Dict, kind: Kind, h0: word, h1: word): (word, word, Dict) {
    match kind
    case KTuple => (h0, h1, d)
    case KObject =>
      var (h0', d1) := SerUri(h, d, h0);
      var (h1', d2) := SerUri(h, d1, h1);
      (h0', h1', d2)
    case KSequence =>
      var (h0', d1) := SerUri(h, d, h0);
      (h0', h1, d1)
  }

  function SerPrefix(h: Host, d: Dict, kind: Kind, p0: word, p1: word): (word, word, Dict) {
    if kind.KObject? then SerHead(h, d, kind, p0, p1) else (p0, p1, d)
  }

  function SerKids(h: Host, d: Dict, kind: Kind, kids: Kids): (Kids, Dict)
    decreases kids
  {
    match kids
    case Nil => (Nil, d)
    case Cons(p0, p1, value, rest) =>
      var (p0', p1', d1) := SerPrefix(h, d, kind, p0, p1);
      var (value', d2) := SerAtom(h, d1, value);
      var (rest', d3) := SerKids(h, d2, kind, rest);
      (Cons(p0', p1', value', rest'), d3)
  }

  // ---- deserialisation ----

  /** Applies f to every URID field of an atom; the elements of a vector are not fields. */
  function MapAtom(f: word -> word, a: Atom): Atom
    decreases a
  {
    Atom(f(a.ty), MapBody(f, a.body))
  }

  function MapBody(f: word -> word, b: Body): Body
    decreases b
  {
    match b
    case Ref(u, pad) => Ref(f(u), pad)
    case Lit(t, l, size, words) => Lit(f(t), f(l), size, words)
    case Vec(width, t, size, words) => Vec(width, f(t), size, words)
    case Node(kind, h0, h1, kids) =>
      var (h0', h1') := MapHead(f, kind, h0, h1);
      Node(kind, h0', h1', MapKids(f, kind, kids))
    case _ => b
  }

  function MapHead(f: word -> word, kind: Kind, h0: word, h1: word): (word, word) {
    match kind
    case KTuple => (h0, h1)
    case KObject => (f(h0), f(h1))
    case KSequence => (f(h0), h1)
  }

  function MapPrefix(f: word -> word, kind: Kind, p0: word, p1: word): (word, word) {
    if kind.KObject? then (f(p0), f(p1)) else (p0, p1)
  }

  function MapKids(f: word -> word, kind: Kind, kids: Kids): Kids
    decreases kids
  {
    match kids
    case Nil => Nil
    case Cons(p0, p1, value, rest) =>
      var (p0', p1') := MapPrefix(f, kind, p0, p1);
      Cons(p0', p1', MapAtom(f, value), MapKids(f, kind, rest))
  }

  /** The entry a reference points at, found by walking the dictionary. */
  function EntryAt(entries: seq<Entry>, ref: word): (r: Option<Entry>)
  {
    EntryFrom(entries, 0, ref)
  }

  function EntryFrom(entries: seq<Entry>, off: nat, ref: word): Option<Entry> {
    if entries == [] then None
    else if ref == 4 * off + 1 then Some(entries[0])
    else EntryFrom(entries[1..], off + EntryLen(entries[0]), ref)
  }

  /** _netatom_deser_uri after _netatom_deser_dict: the receiver's number for the entry's URI. */
  function DeserUri(r: Host, entries: seq<Entry>, ref: word): word {
    if ref == 0 then 0
    else
      match EntryAt(entries, ref)
      case None => 0
      case Some(e) => r.map_(e.uri)
  }

  function Resolve(r: Host, entries: seq<Entry>): word -> word {
    (ref: word) => DeserUri(r, entries, ref)
  }

  /** What a URID of the sender means to the receiver. */
  function Meaning(s: Host, r: Host, u: word): word {
    match s.unmap(u)
    case None => 0
    case Some(uri) => r.map_(uri)
  }

  function Translate(s: Host, r: Host): word -> word {
    (u: word) => Meaning(s, r, u)
  }
}
