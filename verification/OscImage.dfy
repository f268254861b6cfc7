/** OSC atoms in memory, and that the sizes they are reserved by are the sizes they have there. */
module OscImage {
  import opened Bytes
  import opened OscAtoms
  import opened OscPacket

  /** The numbers a host gives to types and keys. */
  datatype Numbers = Numbers(ofType: Atom -> word, ofObject: ObjectType -> word, ofKey: Key -> word,
                             ofLiteral: LiteralType -> word)

  /** The body of an atom as LV2 lays it out: strings with their NUL, size and type in front of what is inside. */
  function Body(n: Numbers, a: Atom): seq<byte>
    decreases a, 0
  {
    match a
    case AInt(w) => Le32(w)
    case AFloat(w) => Le32(w)
    case ABool(w) => Le32(w)
    case AUrid(u) => Le32(u)
    case ALong(hi, lo) => Le32(lo) + Le32(hi)
    case ADouble(hi, lo) => Le32(lo) + Le32(hi)
    case AString(s) => s + [0]
    case AChunk(data) => data
    case AMidi(data) => data
    case ALiteral(datatyp, text) => Le32(n.ofLiteral(datatyp)) + Le32(0) + (text + [0])
    case AObject(otype, props) => Le32(0) + Le32(n.ofObject(otype)) + Properties(n, props)
    case ATuple(items) => Elements(n, items)
    case AOther(size) => Zeros(size)
  }

  /** The atom behind its header, which has the size of the body as a 32-bit number, padded to 8 bytes. */
  function Whole(n: Numbers, a: Atom): seq<byte>
    decreases a, 1
  {
    Le32(|Body(n, a)| % WORD_LIMIT) + Le32(n.ofType(a)) + Padded(Body(n, a))
  }

  function Padded(s: seq<byte>): (r: seq<byte>)
    ensures Aligned(|r|) && |s| <= |r| < |s| + 8
  {
    s + Zeros(Pad8(|s|) - |s|)
  }

  /** Key, context and value of each property. */
  function Properties(n: Numbers, props: Props): seq<byte>
    decreases props
  {
    match props
    case PNil => []
    case PCons(k, v, rest) => Le32(n.ofKey(k)) + Le32(0) + Whole(n, v) + Properties(n, rest)
  }

  function Elements(n: Numbers, items: Atoms): seq<byte>
    decreases items
  {
    match items
    case ANil => []
    case ACons(a, rest) => Whole(n, a) + Elements(n, rest)
  }

  lemma PaddedSize(s: seq<byte>)
    ensures |Padded(s)| == Pad8(|s|)
  {
  }

  /** The size the plugin reserves for an atom is the number of bytes of its body. */
  lemma {:induction false} BodySizeIs(n: Numbers, a: Atom)
    ensures |Body(n, a)| == BodySize(a)
    decreases a
  {
    hide Le32;
    match a
    case AObject(_, props) => PropertiesSize(n, props);
    case ATuple(items) => ElementsSize(n, items);
    case _ =>
  }

  lemma {:induction false} PropertiesSize(n: Numbers, props: Props)
    ensures |Properties(n, props)| == PropsSize(props)
    decreases props
  {
    hide Le32, Body, Padded, Pad8, BodySize;
    match props
    case PNil =>
    case PCons(_, v, rest) =>
      BodySizeIs(n, v);
      PaddedSize(Body(n, v));
      PropertiesSize(n, rest);
  }

  lemma {:induction false} ElementsSize(n: Numbers, items: Atoms)
    ensures |Elements(n, items)| == TupleSize(items)
    decreases items
  {
    hide Le32, Body, Padded, Pad8, BodySize;
    match items
    case ANil =>
    case ACons(a, rest) =>
      BodySizeIs(n, a);
      PaddedSize(Body(n, a));
      ElementsSize(n, rest);
  }
}
