/** What survives the trip of an atom from one host to another, and when the trip succeeds. */
module NetatomMeaning {
  import opened Bytes
  import opened AtomTree
  import opened NetatomSpec
  import opened Urid

  // ---- the dictionary while it grows ----

  ghost predicate DictOk(h: Host, d: Dict) {
    && DictLen(d.entries) <= d.cap
    && (forall i :: 0 <= i < |d.entries| ==>
          d.entries[i].urid != 0 && h.unmap(d.entries[i].urid) == Some(d.entries[i].uri))
    && (forall i, j :: 0 <= i < j < |d.entries| ==> d.entries[i].urid != d.entries[j].urid)
  }

  /** Earlier entries stay where they are, an overflow is never forgotten. */
  ghost predicate Grows(h: Host, d: Dict, d': Dict) {
    && d'.cap == d.cap
    && IsPrefix(d.entries, d'.entries)
    && (d.overflow ==> d'.overflow)
    && (DictOk(h, d) ==> DictOk(h, d'))
  }

  ghost predicate IsPrefix(e: seq<Entry>, f: seq<Entry>) {
    |e| <= |f| && e == f[..|e|]
  }

  lemma GrowsTrans(h: Host, d: Dict, d': Dict, d'': Dict)
    requires Grows(h, d, d') && Grows(h, d', d'')
    ensures Grows(h, d, d'')
  {
    hide DictOk;
    PrefixTrans(d.entries, d'.entries, d''.entries);
  }

  lemma PrefixTrans(e: seq<Entry>, f: seq<Entry>, g: seq<Entry>)
    requires IsPrefix(e, f) && IsPrefix(f, g)
    ensures IsPrefix(e, g)
  {
    assert g[..|f|][..|e|] == g[..|e|];
  }

  lemma UriGrows(h: Host, d: Dict, u: word)
    ensures Grows(h, d, SerUri(h, d, u).1)
  {
    hide PadWords, RefTo;
    var d' := SerUri(h, d, u).1;
    if d'.entries != d.entries {
      var e := d'.entries[|d.entries|];
      DictLenAppend(d.entries, [e]);
      assert DictLen([e]) == EntryLen(e);
    }
  }

  lemma PairGrows(h: Host, d: Dict, u: word, v: word)
    ensures var d1 := SerUri(h, d, u).1;
            Grows(h, d, d1) && Grows(h, d1, SerUri(h, d1, v).1) && Grows(h, d, SerUri(h, d1, v).1)
  {
    hide Grows, SerUri;
    var d1 := SerUri(h, d, u).1;
    UriGrows(h, d, u);
    UriGrows(h, d1, v);
    GrowsTrans(h, d, d1, SerUri(h, d1, v).1);
  }

  lemma HeadGrows(h: Host, d: Dict, kind: Kind, u: word, v: word)
    ensures Grows(h, d, SerHead(h, d, kind, u, v).2)
    ensures Grows(h, d, SerPrefix(h, d, kind, u, v).2)
  {
    hide SerUri, DictOk;
    PairGrows(h, d, u, v);
  }

  lemma {:induction false} AtomGrows(h: Host, d: Dict, a: Atom)
    ensures Grows(h, d, SerAtom(h, d, a).1)
    decreases a
  {
    hide SerUri, Grows;
    var d1 := SerBody(h, d, a.body).1;
    BodyGrows(h, d, a.body);
    UriGrows(h, d1, a.ty);
    GrowsTrans(h, d, d1, SerUri(h, d1, a.ty).1);
  }

  lemma {:induction false} BodyGrows(h: Host, d: Dict, b: Body)
    ensures Grows(h, d, SerBody(h, d, b).1)
    decreases b
  {
    hide SerUri, DictOk, SerHead;
    match b
    case Ref(u, _) => UriGrows(h, d, u);
    case Lit(t, l, _, _) => PairGrows(h, d, t, l);
    case Vec(_, t, _, _) => UriGrows(h, d, t);
    case Node(kind, h0, h1, kids) =>
      var d1 := SerKids(h, d, kind, kids).1;
      KidsGrow(h, d, kind, kids);
      HeadGrows(h, d1, kind, h0, h1);
      GrowsTrans(h, d, d1, SerHead(h, d1, kind, h0, h1).2);
    case _ =>
  }

  lemma {:induction false} KidsGrow(h: Host, d: Dict, kind: Kind, kids: Kids)
    ensures Grows(h, d, SerKids(h, d, kind, kids).1)
    decreases kids
  {
    hide DictOk, SerPrefix;
    match kids
    case Nil =>
    case Cons(p0, p1, value, rest) =>
      var d1 := SerPrefix(h, d, kind, p0, p1).2;
      HeadGrows(h, d, kind, p0, p1);
      var d2 := SerAtom(h, d1, value).1;
      AtomGrows(h, d1, value);
      KidsGrow(h, d2, kind, rest);
      GrowsTrans(h, d, d1, d2);
      GrowsTrans(h, d, d2, SerKids(h, d2, kind, rest).1);
  }

  // ---- references ----

  /** The entries before the i-th one take at most the room of the whole dictionary. */
  lemma PrefixShorter(e: seq<Entry>, i: nat)
    requires i <= |e|
    ensures DictLen(e[..i]) <= DictLen(e)
  {
    assert e == e[..i] + e[i..];
    DictLenAppend(e[..i], e[i..]);
  }

  lemma {:induction false} EntryFound(entries: seq<Entry>, off: nat, i: nat)
    requires i < |entries| && 4 * (off + DictLen(entries[..i])) + 1 < WORD_LIMIT
    ensures EntryFrom(entries, off, 4 * (off + DictLen(entries[..i])) + 1) == Some(entries[i])
    decreases i
  {
    hide PadWords;
    if i > 0 {
      assert entries[..i][0] == entries[0] && entries[..i][1..] == entries[1..][..i - 1];
      EntryFound(entries[1..], off + EntryLen(entries[0]), i - 1);
    }
  }

  /** A reference handed out early still points at its entry when the dictionary is complete. */
  lemma RefSurvives(e: seq<Entry>, final: seq<Entry>, i: nat)
    requires IsPrefix(e, final) && i <= |e| && i < |final| && 4 * DictLen(final) + 1 < WORD_LIMIT
    ensures RefTo(e, i) != 0 && EntryAt(final, RefTo(e, i)) == Some(final[i])
  {
    hide DictLen, EntryFrom;
    assert e[..i] == final[..i] by { assert final[..|e|][..i] == final[..i]; }
    PrefixShorter(final, i);
    EntryFound(final, 0, i);
  }

  // ---- meaning ----

  /** The reference written for a URID stands, in every later dictionary, for the URI of that URID. */
  lemma UriMeaning(s: Host, r: Host, d: Dict, u: word, final: seq<Entry>)
    requires Consistent(s) && DictOk(s, d) && !SerUri(s, d, u).1.overflow
    requires IsPrefix(SerUri(s, d, u).1.entries, final) && 4 * DictLen(final) + 1 < WORD_LIMIT
    ensures Resolve(r, final)(SerUri(s, d, u).0) == Translate(s, r)(u)
  {
    hide RefTo, EntryAt, DictLen, EntryLen, IsText;
    var d' := SerUri(s, d, u).1;
    if u != 0 && s.unmap(u).Some? {
      match Find(d.entries, u)
      case Some(i) =>
        RefSurvives(d.entries, final, i);
        assert final[i] == d.entries[i];
      case None =>
        UriGrows(s, d, u);
        PrefixTrans(d.entries, d'.entries, final);
        RefSurvives(d.entries, final, |d.entries|);
        assert final[|d.entries|] == d'.entries[|d.entries|];
    }
  }

  ghost predicate Good(s: Host, d: Dict, d': Dict, final: seq<Entry>) {
    Consistent(s) && DictOk(s, d) && !d'.overflow && IsPrefix(d'.entries, final) && 4 * DictLen(final) + 1 < WORD_LIMIT
  }

  /** If a longer run is good, so are its two halves. */
  lemma GoodParts(s: Host, d: Dict, d': Dict, d'': Dict, final: seq<Entry>)
    requires Grows(s, d, d') && Grows(s, d', d'') && Good(s, d, d'', final)
    ensures Good(s, d, d', final) && Good(s, d', d'', final)
  {
    hide Consistent, DictOk, DictLen;
    PrefixTrans(d'.entries, d''.entries, final);
  }

  lemma PairMeaning(s: Host, r: Host, d: Dict, u: word, v: word, final: seq<Entry>)
    requires Good(s, d, SerUri(s, SerUri(s, d, u).1, v).1, final)
    ensures Resolve(r, final)(SerUri(s, d, u).0) == Translate(s, r)(u)
    ensures Resolve(r, final)(SerUri(s, SerUri(s, d, u).1, v).0) == Translate(s, r)(v)
  {
    hide SerUri, Grows, Resolve, Translate;
    var d1 := SerUri(s, d, u).1;
    PairGrows(s, d, u, v);
    GoodParts(s, d, d1, SerUri(s, d1, v).1, final);
    UriMeaning(s, r, d, u, final);
    UriMeaning(s, r, d1, v, final);
  }

  lemma HeadMeaning(s: Host, r: Host, d: Dict, kind: Kind, u: word, v: word, final: seq<Entry>)
    requires kind.KObject? ==> Good(s, d, SerHead(s, d, kind, u, v).2, final)
    requires kind.KSequence? ==> Good(s, d, SerHead(s, d, kind, u, v).2, final)
    ensures var (u', v', _) := SerHead(s, d, kind, u, v);
            MapHead(Resolve(r, final), kind, u', v') == MapHead(Translate(s, r), kind, u, v)
  {
    hide SerUri, Resolve, Translate, Consistent, DictOk;
    match kind
    case KTuple =>
    case KObject => PairMeaning(s, r, d, u, v, final);
    case KSequence => UriMeaning(s, r, d, u, final);
  }

  /**
   The meaning of an atom is kept across hosts: resolving the references of the serialised tree
   gives the tree in which every URID field is replaced by the receiver's number for its URI.
   */
  lemma {:induction false} AtomMeaning(s: Host, r: Host, d: Dict, a: Atom, final: seq<Entry>)
    requires Good(s, d, SerAtom(s, d, a).1, final)
    ensures MapAtom(Resolve(r, final), SerAtom(s, d, a).0) == MapAtom(Translate(s, r), a)
    decreases a
  {
    hide SerUri, Resolve, Translate, Good, Grows, SerBody, MapBody;
    var (b, d1) := SerBody(s, d, a.body);
    var d2 := SerUri(s, d1, a.ty).1;
    BodyGrows(s, d, a.body);
    UriGrows(s, d1, a.ty);
    GoodParts(s, d, d1, d2, final);
    BodyMeaning(s, r, d, a.body, final);
    TypeMeaning(s, r, d1, a.ty, final);
  }

  lemma TypeMeaning(s: Host, r: Host, d: Dict, u: word, final: seq<Entry>)
    requires Good(s, d, SerUri(s, d, u).1, final)
    ensures Resolve(r, final)(SerUri(s, d, u).0) == Translate(s, r)(u)
  {
    hide SerUri, Resolve, Translate, Consistent, DictOk;
    UriMeaning(s, r, d, u, final);
  }

  lemma {:induction false} BodyMeaning(s: Host, r: Host, d: Dict, b: Body, final: seq<Entry>)
    requires Good(s, d, SerBody(s, d, b).1, final)
    ensures MapBody(Resolve(r, final), SerBody(s, d, b).0) == MapBody(Translate(s, r), b)
    decreases b
  {
    hide SerUri, Resolve, Translate, Good, Grows, SerHead, MapHead, SerKids, MapKids;
    match b
    case Ref(u, _) => TypeMeaning(s, r, d, u, final);
    case Lit(t, l, _, _) => PairMeaning(s, r, d, t, l, final);
    case Vec(_, t, _, _) => TypeMeaning(s, r, d, t, final);
    case Node(kind, h0, h1, kids) =>
      var d1 := SerKids(s, d, kind, kids).1;
      KidsGrow(s, d, kind, kids);
      HeadGrows(s, d1, kind, h0, h1);
      GoodParts(s, d, d1, SerHead(s, d1, kind, h0, h1).2, final);
      KidsMeaning(s, r, d, kind, kids, final);
      HeadMeaning(s, r, d1, kind, h0, h1, final);
    case _ =>
  }

  lemma {:induction false} KidsMeaning(s: Host, r: Host, d: Dict, kind: Kind, kids: Kids, final: seq<Entry>)
    requires Good(s, d, SerKids(s, d, kind, kids).1, final)
    ensures MapKids(Resolve(r, final), kind, SerKids(s, d, kind, kids).0) == MapKids(Translate(s, r), kind, kids)
    decreases kids
  {
    hide SerUri, Resolve, Translate, Good, Grows, SerHead, MapHead, SerAtom, MapAtom;
    match kids
    case Nil =>
    case Cons(p0, p1, value, rest) =>
      var d1 := SerPrefix(s, d, kind, p0, p1).2;
      var d2 := SerAtom(s, d1, value).1;
      var d3 := SerKids(s, d2, kind, rest).1;
      HeadGrows(s, d, kind, p0, p1);
      AtomGrows(s, d1, value);
      KidsGrow(s, d2, kind, rest);
      GrowsTrans(s, d, d1, d2);
      GoodParts(s, d, d2, d3, final);
      GoodParts(s, d, d1, d2, final);
      PrefixMeaning(s, r, d, kind, p0, p1, final);
      AtomMeaning(s, r, d1, value, final);
      KidsMeaning(s, r, d2, kind, rest, final);
  }

  lemma PrefixMeaning(s: Host, r: Host, d: Dict, kind: Kind, u: word, v: word, final: seq<Entry>)
    requires Good(s, d, SerPrefix(s, d, kind, u, v).2, final)
    ensures var (u', v', _) := SerPrefix(s, d, kind, u, v);
            MapPrefix(Resolve(r, final), kind, u', v') == MapPrefix(Translate(s, r), kind, u, v)
  {
    hide SerHead, MapHead, Resolve, Translate, Good;
    if kind.KObject? {
      HeadMeaning(s, r, d, kind, u, v, final);
      assert MapPrefix(Translate(s, r), kind, u, v) == (Translate(s, r)(u), Translate(s, r)(v));
      ObjectHead(Resolve(r, final), SerHead(s, d, kind, u, v).0, SerHead(s, d, kind, u, v).1);
      ObjectHead(Translate(s, r), u, v);
    }
  }

  lemma ObjectHead(f: word -> word, u: word, v: word)
    ensures MapHead(f, KObject, u, v) == (f(u), f(v))
  {
  }

  // ---- references that point somewhere ----

  function KeepRef(entries: seq<Entry>, ref: word): word {
    if ref == 0 || EntryAt(entries, ref).Some? then ref else 0
  }

  function Keep(entries: seq<Entry>): word -> word {
    (ref: word) => KeepRef(entries, ref)
  }

  /** Every reference in the tree is 0 or points at an entry. */
  predicate RefsOk(entries: seq<Entry>, a: Atom) {
    MapAtom(Keep(entries), a) == a
  }

  lemma UriRefOk(s: Host, d: Dict, u: word, final: seq<Entry>)
    requires Good(s, d, SerUri(s, d, u).1, final)
    ensures KeepRef(final, SerUri(s, d, u).0) == SerUri(s, d, u).0
  {
    hide RefTo, EntryAt, DictLen, EntryLen, IsText, Consistent;
    var d' := SerUri(s, d, u).1;
    if u != 0 && s.unmap(u).Some? {
      match Find(d.entries, u)
      case Some(i) =>
        RefSurvives(d.entries, final, i);
      case None =>
        UriGrows(s, d, u);
        PrefixTrans(d.entries, d'.entries, final);
        RefSurvives(d.entries, final, |d.entries|);
    }
  }

  lemma PairRefsOk(s: Host, d: Dict, u: word, v: word, final: seq<Entry>)
    requires Good(s, d, SerUri(s, SerUri(s, d, u).1, v).1, final)
    ensures KeepRef(final, SerUri(s, d, u).0) == SerUri(s, d, u).0
    ensures var v' := SerUri(s, SerUri(s, d, u).1, v).0; KeepRef(final, v') == v'
  {
    hide SerUri, Grows, KeepRef, Good;
    var d1 := SerUri(s, d, u).1;
    PairGrows(s, d, u, v);
    GoodParts(s, d, d1, SerUri(s, d1, v).1, final);
    UriRefOk(s, d, u, final);
    UriRefOk(s, d1, v, final);
  }

  lemma HeadRefsOk(s: Host, d: Dict, kind: Kind, u: word, v: word, final: seq<Entry>)
    requires !kind.KTuple? ==> Good(s, d, SerHead(s, d, kind, u, v).2, final)
    ensures var (u', v', _) := SerHead(s, d, kind, u, v); MapHead(Keep(final), kind, u', v') == (u', v')
  {
    hide SerUri, KeepRef, Consistent, DictOk, Good;
    match kind
    case KTuple =>
    case KObject => PairRefsOk(s, d, u, v, final);
    case KSequence => UriRefOk(s, d, u, final);
  }

  /** The serialised tree only holds references into its own dictionary. */
  lemma {:induction false} AtomRefsOk(s: Host, d: Dict, a: Atom, final: seq<Entry>)
    requires Good(s, d, SerAtom(s, d, a).1, final)
    ensures RefsOk(final, SerAtom(s, d, a).0)
    decreases a
  {
    hide SerUri, KeepRef, Good, Grows, SerBody, MapBody;
    var (b, d1) := SerBody(s, d, a.body);
    var d2 := SerUri(s, d1, a.ty).1;
    BodyGrows(s, d, a.body);
    UriGrows(s, d1, a.ty);
    GoodParts(s, d, d1, d2, final);
    BodyRefsOk(s, d, a.body, final);
    UriRefOk(s, d1, a.ty, final);
  }

  lemma {:induction false} BodyRefsOk(s: Host, d: Dict, b: Body, final: seq<Entry>)
    requires Good(s, d, SerBody(s, d, b).1, final)
    ensures var b' := SerBody(s, d, b).0; MapBody(Keep(final), b') == b'
    decreases b
  {
    hide SerUri, KeepRef, Good, Grows, SerHead, MapHead, SerKids, MapKids;
    match b
    case Ref(u, _) => UriRefOk(s, d, u, final);
    case Lit(t, l, _, _) => PairRefsOk(s, d, t, l, final);
    case Vec(_, t, _, _) => UriRefOk(s, d, t, final);
    case Node(kind, h0, h1, kids) =>
      var d1 := SerKids(s, d, kind, kids).1;
      KidsGrow(s, d, kind, kids);
      HeadGrows(s, d1, kind, h0, h1);
      GoodParts(s, d, d1, SerHead(s, d1, kind, h0, h1).2, final);
      KidsRefsOk(s, d, kind, kids, final);
      HeadRefsOk(s, d1, kind, h0, h1, final);
    case _ =>
  }

  lemma {:induction false} KidsRefsOk(s: Host, d: Dict, kind: Kind, kids: Kids, final: seq<Entry>)
    requires Good(s, d, SerKids(s, d, kind, kids).1, final)
    ensures var k' := SerKids(s, d, kind, kids).0; MapKids(Keep(final), kind, k') == k'
    decreases kids
  {
    hide SerUri, KeepRef, Good, Grows, SerHead, MapHead, SerAtom, MapAtom;
    match kids
    case Nil =>
    case Cons(p0, p1, value, rest) =>
      var pre := SerPrefix(s, d, kind, p0, p1);
      var d1 := pre.2;
      var d2 := SerAtom(s, d1, value).1;
      HeadGrows(s, d, kind, p0, p1);
      AtomGrows(s, d1, value);
      KidsGrow(s, d2, kind, rest);
      GrowsTrans(s, d, d1, d2);
      GoodParts(s, d, d2, SerKids(s, d2, kind, rest).1, final);
      GoodParts(s, d, d1, d2, final);
      if kind.KObject? {
        HeadRefsOk(s, d, kind, p0, p1, final);
        ObjectHead(Keep(final), pre.0, pre.1);
      }
      AtomRefsOk(s, d1, value, final);
      KidsRefsOk(s, d2, kind, rest, final);
  }

  // ---- URID fields ----

  /** Every URID field of an atom, in the order in which serialisation visits them. */
  function Urids(a: Atom): seq<word>
    decreases a
  {
    BodyUrids(a.body) + [a.ty]
  }

  function BodyUrids(b: Body): seq<word>
    decreases b
  {
    match b
    case Ref(u, _) => [u]
    case Lit(t, l, _, _) => [t, l]
    case Vec(_, t, _, _) => [t]
    case Node(kind, h0, h1, kids) => KidsUrids(kind, kids) + HeadUrids(kind, h0, h1)
    case _ => []
  }

  function HeadUrids(kind: Kind, h0: word, h1: word): seq<word> {
    match kind
    case KTuple => []
    case KObject => [h0, h1]
    case KSequence => [h0]
  }

  function KidsUrids(kind: Kind, kids: Kids): seq<word>
    decreases kids
  {
    match kids
    case Nil => []
    case Cons(p0, p1, value, rest) => (if kind.KObject? then [p0, p1] else []) + Urids(value) + KidsUrids(kind, rest)
  }

  function Each<T>(f: word -> T, us: seq<word>): (r: seq<T>)
    ensures |r| == |us|
  {
    seq(|us|, i requires 0 <= i < |us| => f(us[i]))
  }

  lemma EachAppend<T>(f: word -> T, us: seq<word>, vs: seq<word>)
    ensures Each(f, us + vs) == Each(f, us) + Each(f, vs)
  {
  }

  lemma EachPair(f: word -> word, u: word, v: word)
    ensures Each(f, []) == [] && Each(f, [u, v]) == [f(u), f(v)]
  {
  }

  lemma {:induction false} MapUrids(f: word -> word, a: Atom)
    ensures Urids(MapAtom(f, a)) == Each(f, Urids(a))
    decreases a
  {
    MapBodyUrids(f, a.body);
    EachAppend(f, BodyUrids(a.body), [a.ty]);
  }

  lemma {:induction false} MapBodyUrids(f: word -> word, b: Body)
    ensures BodyUrids(MapBody(f, b)) == Each(f, BodyUrids(b))
    decreases b
  {
    if b.Node? {
      MapKidsUrids(f, b.kind, b.kids);
      EachAppend(f, KidsUrids(b.kind, b.kids), HeadUrids(b.kind, b.h0, b.h1));
    }
  }

  lemma {:induction false} MapKidsUrids(f: word -> word, kind: Kind, kids: Kids)
    ensures KidsUrids(kind, MapKids(f, kind, kids)) == Each(f, KidsUrids(kind, kids))
    decreases kids
  {
    match kids
    case Nil =>
    case Cons(p0, p1, value, rest) =>
      hide Each, Urids, MapAtom;
      MapUrids(f, value);
      MapKidsUrids(f, kind, rest);
      var pre := if kind.KObject? then [p0, p1] else [];
      EachPair(f, p0, p1);
      EachAppend(f, pre, Urids(value));
      EachAppend(f, pre + Urids(value), KidsUrids(kind, rest));
  }

  ghost predicate Fixed(f: word -> word, us: seq<word>) {
    forall i :: 0 <= i < |us| ==> f(us[i]) == us[i]
  }

  lemma FixedAppend(f: word -> word, us: seq<word>, vs: seq<word>)
    ensures Fixed(f, us + vs) <==> Fixed(f, us) && Fixed(f, vs)
  {
    if Fixed(f, us + vs) {
      forall i | 0 <= i < |us| ensures f(us[i]) == us[i] { assert (us + vs)[i] == us[i]; }
      forall i | 0 <= i < |vs| ensures f(vs[i]) == vs[i] { assert (us + vs)[|us| + i] == vs[i]; }
    }
  }

  lemma FixedPair(f: word -> word, u: word, v: word)
    ensures Fixed(f, [u, v]) <==> f(u) == u && f(v) == v
    ensures Fixed(f, [u]) <==> f(u) == u
  {
    assert [u][0] == u && [u, v][0] == u && [u, v][1] == v;
  }

  /** Renaming leaves an atom alone exactly if it leaves every URID field alone. */
  lemma {:induction false} MapIdentity(f: word -> word, a: Atom)
    ensures MapAtom(f, a) == a <==> Fixed(f, Urids(a))
    decreases a
  {
    hide Fixed;
    MapBodyIdentity(f, a.body);
    FixedAppend(f, BodyUrids(a.body), [a.ty]);
    FixedPair(f, a.ty, a.ty);
  }

  lemma {:induction false} MapBodyIdentity(f: word -> word, b: Body)
    ensures MapBody(f, b) == b <==> Fixed(f, BodyUrids(b))
    decreases b
  {
    match b
    case Ref(u, _) => FixedPair(f, u, u);
    case Lit(t, l, _, _) => FixedPair(f, t, l);
    case Vec(_, t, _, _) => FixedPair(f, t, t);
    case Node(kind, h0, h1, kids) =>
      MapKidsIdentity(f, kind, kids);
      FixedAppend(f, KidsUrids(kind, kids), HeadUrids(kind, h0, h1));
      FixedPair(f, h0, h1);
    case _ =>
  }

  lemma {:induction false} MapKidsIdentity(f: word -> word, kind: Kind, kids: Kids)
    ensures MapKids(f, kind, kids) == kids <==> Fixed(f, KidsUrids(kind, kids))
    decreases kids
  {
    match kids
    case Nil =>
    case Cons(p0, p1, value, rest) =>
      hide Fixed;
      MapIdentity(f, value);
      MapKidsIdentity(f, kind, rest);
      var pre := if kind.KObject? then [p0, p1] else [];
      FixedAppend(f, pre + Urids(value), KidsUrids(kind, rest));
      FixedAppend(f, pre, Urids(value));
      FixedPair(f, p0, p1);
      assert Fixed(f, []) by { NothingFixed(f); }
  }

  lemma NothingFixed(f: word -> word)
    ensures Fixed(f, [])
  {
  }

  // ---- what fits ----

  /** The dictionary an atom needs: one entry per mapped URID, at its first use. */
  function Needed(h: Host, e: seq<Entry>, us: seq<word>): seq<Entry>
    decreases |us|
  {
    if us == [] then e
    else
      var u := us[0];
      var e' := if u == 0 || Find(e, u).Some? || h.unmap(u).None? then e else e + [Entry(u, h.unmap(u).value)];
      Needed(h, e', us[1..])
  }

  /** e lists different numbers out of us, each with its own URI. */
  ghost predicate Lists(h: Host, e: seq<Entry>, us: seq<word>) {
    && (forall i :: 0 <= i < |e| ==> e[i].urid != 0 && e[i].urid in us && h.unmap(e[i].urid) == Some(e[i].uri))
    && (forall i, j :: 0 <= i < j < |e| ==> e[i].urid != e[j].urid)
  }

  /** Every mapped number of us has an entry. */
  ghost predicate Covers(h: Host, e: seq<Entry>, us: seq<word>) {
    forall u :: u in us && u != 0 && h.unmap(u).Some? ==> exists i :: 0 <= i < |e| && e[i].urid == u
  }

  /** The needed dictionary is exactly the distinct mapped URIDs of the atom, each with its URI. */
  lemma NeededExactly(h: Host, us: seq<word>)
    ensures Lists(h, Needed(h, [], us), us) && Covers(h, Needed(h, [], us), us)
  {
    assert [] + us == us;
    NeededFrom(h, [], [], us);
  }

  lemma {:induction false} NeededFrom(h: Host, e: seq<Entry>, done: seq<word>, us: seq<word>)
    requires Lists(h, e, done) && Covers(h, e, done)
    ensures Lists(h, Needed(h, e, us), done + us) && Covers(h, Needed(h, e, us), done + us)
    decreases |us|
  {
    hide Lists, Covers, Find;
    if us == [] {
      assert done + us == done;
    } else {
      var u := us[0];
      var e' := if u == 0 || Find(e, u).Some? || h.unmap(u).None? then e else e + [Entry(u, h.unmap(u).value)];
      OneMoreNeeded(h, e, done, u, e');
      assert done + us == (done + [u]) + us[1..];
      NeededFrom(h, e', done + [u], us[1..]);
    }
  }

  lemma OneMoreNeeded(h: Host, e: seq<Entry>, done: seq<word>, u: word, e': seq<Entry>)
    requires Lists(h, e, done) && Covers(h, e, done)
    requires e' == if u == 0 || Find(e, u).Some? || h.unmap(u).None? then e else e + [Entry(u, h.unmap(u).value)]
    ensures Lists(h, e', done + [u]) && Covers(h, e', done + [u])
  {
    hide Find;
    var found := Find(e, u);
    forall v | v in done + [u] && v != 0 && h.unmap(v).Some? ensures exists i :: 0 <= i < |e'| && e'[i].urid == v {
      if v == u {
        assert e'[if found.Some? then found.value else |e|].urid == u;
      } else {
        assert v in done;
        var i :| 0 <= i < |e| && e[i].urid == v;
        assert e'[i] == e[i];
      }
    }
  }

  function SerAll(h: Host, d: Dict, us: seq<word>): Dict
    decreases |us|
  {
    if us == [] then d else SerAll(h, SerUri(h, d, us[0]).1, us[1..])
  }

  lemma {:induction false} SerAllAppend(h: Host, d: Dict, us: seq<word>, vs: seq<word>)
    ensures SerAll(h, d, us + vs) == SerAll(h, SerAll(h, d, us), vs)
    decreases |us|
  {
    hide SerUri;
    if us == [] {
      assert us + vs == vs;
    } else {
      assert (us + vs)[0] == us[0] && (us + vs)[1..] == us[1..] + vs;
      SerAllAppend(h, SerUri(h, d, us[0]).1, us[1..], vs);
    }
  }

  lemma SerAllPair(h: Host, d: Dict, u: word, v: word)
    ensures SerAll(h, d, [u]) == SerUri(h, d, u).1
    ensures SerAll(h, d, [u, v]) == SerUri(h, SerUri(h, d, u).1, v).1
  {
    hide SerUri;
    var d1 := SerUri(h, d, u).1;
    assert [u, v][1..] == [v] && [v][1..] == [] && [u][1..] == [];
    assert SerAll(h, d1, [v]) == SerUri(h, d1, v).1;
  }

  lemma {:induction false} AtomDict(h: Host, d: Dict, a: Atom)
    ensures SerAtom(h, d, a).1 == SerAll(h, d, Urids(a))
    decreases a
  {
    hide SerUri, SerAll, BodyUrids, SerBody;
    BodyDict(h, d, a.body);
    SerAllAppend(h, d, BodyUrids(a.body), [a.ty]);
    SerAllPair(h, SerBody(h, d, a.body).1, a.ty, a.ty);
  }

  lemma {:induction false} BodyDict(h: Host, d: Dict, b: Body)
    ensures SerBody(h, d, b).1 == SerAll(h, d, BodyUrids(b))
    decreases b
  {
    hide SerUri;
    match b
    case Ref(u, _) => SerAllPair(h, d, u, u);
    case Lit(t, l, _, _) => SerAllPair(h, d, t, l);
    case Vec(_, t, _, _) => SerAllPair(h, d, t, t);
    case Node(kind, h0, h1, kids) =>
      var d1 := SerKids(h, d, kind, kids).1;
      KidsDict(h, d, kind, kids);
      SerAllAppend(h, d, KidsUrids(kind, kids), HeadUrids(kind, h0, h1));
      SerAllPair(h, d1, h0, h1);
    case _ =>
  }

  lemma {:induction false} KidsDict(h: Host, d: Dict, kind: Kind, kids: Kids)
    ensures SerKids(h, d, kind, kids).1 == SerAll(h, d, KidsUrids(kind, kids))
    decreases kids
  {
    hide SerUri, SerAtom, Urids;
    match kids
    case Nil =>
    case Cons(p0, p1, value, rest) =>
      var pre := if kind.KObject? then [p0, p1] else [];
      var d1 := SerPrefix(h, d, kind, p0, p1).2;
      var d2 := SerAtom(h, d1, value).1;
      SerAllPair(h, d, p0, p1);
      AtomDict(h, d1, value);
      KidsDict(h, d2, kind, rest);
      SerAllAppend(h, d, pre, Urids(value));
      SerAllAppend(h, d, pre + Urids(value), KidsUrids(kind, rest));
  }

  lemma {:induction false} NeededGrows(h: Host, e: seq<Entry>, us: seq<word>)
    ensures DictLen(e) <= DictLen(Needed(h, e, us))
    decreases |us|
  {
    hide PadWords;
    if us != [] {
      var u := us[0];
      if !(u == 0 || Find(e, u).Some? || h.unmap(u).None?) {
        DictLenAppend(e, [Entry(u, h.unmap(u).value)]);
        NeededGrows(h, e + [Entry(u, h.unmap(u).value)], us[1..]);
      } else {
        NeededGrows(h, e, us[1..]);
      }
    }
  }

  lemma {:induction false} OverflowSticks(h: Host, d: Dict, us: seq<word>)
    requires d.overflow
    ensures SerAll(h, d, us).overflow
    decreases |us|
  {
    hide RefTo;
    if us != [] {
      OverflowSticks(h, SerUri(h, d, us[0]).1, us[1..]);
    }
  }

  /** Serialisation overflows exactly if the needed dictionary is larger than the room behind the atom. */
  lemma {:induction false} OverflowExactly(h: Host, d: Dict, us: seq<word>)
    requires !d.overflow && DictLen(d.entries) <= d.cap
    ensures SerAll(h, d, us).overflow <==> DictLen(Needed(h, d.entries, us)) > d.cap
    ensures !SerAll(h, d, us).overflow ==> SerAll(h, d, us).entries == Needed(h, d.entries, us)
    decreases |us|
  {
    hide RefTo, PadWords;
    if us != [] {
      var u := us[0];
      var d1 := SerUri(h, d, u).1;
      if u != 0 && Find(d.entries, u).None? && h.unmap(u).Some? {
        var e := Entry(u, h.unmap(u).value);
        DictLenAppend(d.entries, [e]);
        assert DictLen([e]) == EntryLen(e);
        NeededGrows(h, d.entries + [e], us[1..]);
      }
      if d1.overflow {
        OverflowSticks(h, d1, us[1..]);
      } else {
        OverflowExactly(h, d1, us[1..]);
      }
    }
  }

  // ---- main results on trees ----

  function Empty(cap: nat): Dict {
    Dict([], cap, false)
  }

  function Sent(s: Host, cap: nat, a: Atom): (Atom, Dict) {
    SerAtom(s, Empty(cap), a)
  }

  /** netatom_serialize succeeds exactly if the dictionary of the atom fits, and then sends that one. */
  lemma SerialisesIffFits(s: Host, cap: nat, a: Atom)
    ensures Sent(s, cap, a).1.overflow <==> DictLen(Needed(s, [], Urids(a))) > cap
    ensures !Sent(s, cap, a).1.overflow ==> Sent(s, cap, a).1.entries == Needed(s, [], Urids(a))
    ensures Lists(s, Needed(s, [], Urids(a)), Urids(a)) && Covers(s, Needed(s, [], Urids(a)), Urids(a))
  {
    NeededExactly(s, Urids(a));
    AtomDict(s, Empty(cap), a);
    OverflowExactly(s, Empty(cap), Urids(a));
  }

  lemma SentIsGood(s: Host, cap: nat, a: Atom)
    requires Consistent(s) && 4 * cap + 1 < WORD_LIMIT && !Sent(s, cap, a).1.overflow
    ensures Good(s, Empty(cap), Sent(s, cap, a).1, Sent(s, cap, a).1.entries)
    ensures DictOk(s, Sent(s, cap, a).1) && Sent(s, cap, a).1.cap == cap
  {
    hide SerAtom, Consistent;
    AtomGrows(s, Empty(cap), a);
    var e := Sent(s, cap, a).1.entries;
    assert e == e[..|e|];
  }

  /** The received atom is the sent one with every URID field renamed, whatever numbers the receiver uses. */
  lemma ReceivedIsTranslated(s: Host, r: Host, cap: nat, a: Atom)
    requires Consistent(s) && 4 * cap + 1 < WORD_LIMIT && !Sent(s, cap, a).1.overflow
    ensures MapAtom(Resolve(r, Sent(s, cap, a).1.entries), Sent(s, cap, a).0) == MapAtom(Translate(s, r), a)
  {
    hide SerAtom, Consistent, Good, Resolve, Translate;
    SentIsGood(s, cap, a);
    AtomMeaning(s, r, Empty(cap), a, Sent(s, cap, a).1.entries);
  }

  lemma MeaningKeepsUri(s: Host, r: Host, u: word)
    requires Consistent(s) && Consistent(r)
    ensures r.unmap(Meaning(s, r, u)) == s.unmap(u) <==> Knows(s, r, u)
  {
    hide TagUri;
  }

  /**
   Every URID field of the received atom denotes the URI that the field denoted at the sender,
   exactly if the receiver has a number for each of these URIs.
   */
  lemma SameUris(s: Host, r: Host, a: Atom)
    requires Consistent(s) && Consistent(r)
    ensures Each(r.unmap, Urids(MapAtom(Translate(s, r), a))) == Each(s.unmap, Urids(a))
            <==> forall i :: 0 <= i < |Urids(a)| ==> Knows(s, r, Urids(a)[i])
  {
    hide Consistent, Meaning, Knows;
    MapUrids(Translate(s, r), a);
    var x, y := Each(r.unmap, Urids(MapAtom(Translate(s, r), a))), Each(s.unmap, Urids(a));
    forall i | 0 <= i < |Urids(a)| ensures x[i] == y[i] <==> Knows(s, r, Urids(a)[i]) {
      MeaningKeepsUri(s, r, Urids(a)[i]);
    }
  }

  /** On one host the trip gives back the original atom exactly if every URID in it is mapped or 0. */
  lemma RoundTripExactly(s: Host, cap: nat, a: Atom)
    requires Consistent(s) && 4 * cap + 1 < WORD_LIMIT && !Sent(s, cap, a).1.overflow
    ensures MapAtom(Resolve(s, Sent(s, cap, a).1.entries), Sent(s, cap, a).0) == a
            <==> forall i :: 0 <= i < |Urids(a)| ==> Urids(a)[i] == 0 || s.unmap(Urids(a)[i]).Some?
  {
    hide Resolve, SerAtom, Consistent, Meaning, MapAtom, Sent;
    ReceivedIsTranslated(s, s, cap, a);
    MapIdentity(Translate(s, s), a);
    forall i | 0 <= i < |Urids(a)|
      ensures Translate(s, s)(Urids(a)[i]) == Urids(a)[i] <==> Urids(a)[i] == 0 || s.unmap(Urids(a)[i]).Some?
    {
      MeaningOnOneHost(s, Urids(a)[i]);
    }
  }

  lemma MeaningOnOneHost(s: Host, u: word)
    requires Consistent(s)
    ensures Meaning(s, s, u) == u <==> u == 0 || s.unmap(u).Some?
  {
    hide TagUri;
  }

  /** A type the receiver does not know becomes an unknown type, never another one. */
  lemma MeaningKeepsTag(s: Host, r: Host, ty: word)
    requires Consistent(s) && Consistent(r)
    ensures TagOf(r, Meaning(s, r, ty)) == TagOf(s, ty)
  {
    hide TagOf, TagUri;
    MeaningKeepsUri(s, r, ty);
    if Knows(s, r, ty) {
      SameUriSameTag(s, r, ty, Meaning(s, r, ty));
    } else {
      if !TagOf(s, ty).Other? {
        TagByUri(s, ty, TagOf(s, ty));
      }
      if !TagOf(r, 0).Other? {
        TagByUri(r, 0, TagOf(r, 0));
      }
    }
  }

  /** The receiver sees the types it knows on exactly the atoms that had them at the sender. */
  lemma {:induction false} TypesTravel(s: Host, r: Host, a: Atom)
    requires Consistent(s) && Consistent(r) && WellTyped(s, a)
    ensures WellTyped(r, MapAtom(Translate(s, r), a))
    decreases a
  {
    hide TagOf, Consistent, Meaning;
    MeaningKeepsTag(s, r, a.ty);
    if a.body.Node? {
      KidsTypesTravel(s, r, a.body.kind, a.body.kids);
    }
  }

  lemma {:induction false} KidsTypesTravel(s: Host, r: Host, kind: Kind, kids: Kids)
    requires Consistent(s) && Consistent(r) && WellTypedKids(s, kids)
    ensures WellTypedKids(r, MapKids(Translate(s, r), kind, kids))
    decreases kids
  {
    hide TagOf, Consistent, Meaning;
    if kids.Cons? {
      TypesTravel(s, r, kids.value);
      KidsTypesTravel(s, r, kind, kids.rest);
    }
  }

  // ---- shape ----

  lemma {:induction false} SerShape(h: Host, d: Dict, a: Atom)
    requires WellFormed(a)
    ensures var a' := SerAtom(h, d, a).0; WellFormed(a') && Len(a') == Len(a) && BodyBytes(a'.body) == BodyBytes(a.body)
    decreases a
  {
    hide SerUri, PadWords;
    SerBodyShape(h, d, a.body);
  }

  lemma {:induction false} SerBodyShape(h: Host, d: Dict, b: Body)
    requires WellFormed(Atom(0, b))
    ensures var b' := SerBody(h, d, b).0;
            WellFormed(Atom(0, b')) && BodyLen(b') == BodyLen(b) && BodyBytes(b') == BodyBytes(b)
    decreases b
  {
    hide SerUri, PadWords, SerHead;
    if b.Node? {
      SerKidsShape(h, d, b.kind, b.kids);
    }
  }

  lemma {:induction false} SerKidsShape(h: Host, d: Dict, kind: Kind, kids: Kids)
    requires WellFormedKids(kids)
    ensures var k' := SerKids(h, d, kind, kids).0; WellFormedKids(k') && KidsLen(kind, k') == KidsLen(kind, kids)
    decreases kids
  {
    hide SerUri, SerPrefix;
    if kids.Cons? {
      var d1 := SerPrefix(h, d, kind, kids.p0, kids.p1).2;
      SerShape(h, d1, kids.value);
      SerKidsShape(h, SerAtom(h, d1, kids.value).1, kind, kids.rest);
    }
  }

  lemma {:induction false} MapShape(f: word -> word, a: Atom)
    ensures WellFormed(MapAtom(f, a)) <==> WellFormed(a)
    ensures Len(MapAtom(f, a)) == Len(a) && BodyBytes(MapAtom(f, a).body) == BodyBytes(a.body)
    decreases a
  {
    hide PadWords;
    if a.body.Node? {
      MapKidsShape(f, a.body.kind, a.body.kids);
    }
  }

  lemma {:induction false} MapKidsShape(f: word -> word, kind: Kind, kids: Kids)
    ensures WellFormedKids(MapKids(f, kind, kids)) <==> WellFormedKids(kids)
    ensures KidsLen(kind, MapKids(f, kind, kids)) == KidsLen(kind, kids)
    decreases kids
  {
    if kids.Cons? {
      MapShape(f, kids.value);
      MapKidsShape(f, kind, kids.rest);
    }
  }
}
