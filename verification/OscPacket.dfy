/**
 OSC packets, the bytes they are sent as, and the LV2 atoms they are carried in. URIDs of atom
 types, object types and keys are modelled by what they stand for; a float or a double is its
 bit pattern, a 64-bit number two words.
 */
module OscPacket {
  import opened Bytes
  import opened Urid

  type Text = seq<byte>

  // ---- packets ----

  datatype Arg =
    | I32(w: word)
    | F32(w: word)
    | Str(s: Text)
    | Blob(data: seq<byte>)
    | True | False | Nil | Impulse
    | I64(hi: word, lo: word)
    | F64(hi: word, lo: word)
    | Time(hi: word, lo: word)
    | Sym(s: Text)
    | Chr(c: int)                        // a signed char
    | Midi(port: byte, b1: byte, b2: byte, b3: byte)
    | Rgba(r: byte, g: byte, b: byte, a: byte)

  datatype Packet =
    | Message(path: Text, args: seq<Arg>)
    | Bundle(hi: word, lo: word, items: Packets)

  datatype Packets = NoMore | More(head: Packet, tail: Packets)

  /** The length of the C string at the front; |s| when nothing ends it. */
  function TextEnd(s: seq<byte>): (n: nat)
    ensures n <= |s| && IsText(s[..n]) && (n < |s| ==> s[n] == 0)
  {
    if s == [] || s[0] == 0 then 0 else
      assert s[..1 + TextEnd(s[1..])] == [s[0]] + s[1..][..TextEnd(s[1..])];
      1 + TextEnd(s[1..])
  }

  /** What C makes of a string that may hold a NUL. */
  function CText(s: seq<byte>): (t: Text)
    ensures IsText(t) && t <= s && (IsText(s) ==> t == s) && (|t| < |s| ==> s[|t|] == 0)
  {
    s[..TextEnd(s)]
  }

  predicate OkArg(a: Arg) {
    match a
    case Str(s) => IsText(s)
    case Sym(s) => IsText(s)
    case Blob(data) => |data| < 0x8000_0000
    case Chr(c) => -128 <= c < 128
    case _ => true
  }

  predicate OkArgs(args: seq<Arg>) {
    forall i :: 0 <= i < |args| ==> OkArg(args[i])
  }

  /** Strings hold no NUL, and lengths and item sizes fit a signed 32-bit number. */
  predicate Encodable(p: Packet)
    decreases p
  {
    match p
    case Message(path, args) => IsText(path) && OkArgs(args)
    case Bundle(_, _, items) => EncodableItems(items)
  }

  predicate EncodableItems(ps: Packets)
    decreases ps
  {
    match ps
    case NoMore => true
    case More(p, rest) => Encodable(p) && Size(p) < 0x8000_0000 && EncodableItems(rest)
  }

  /** Paths start with a slash, and no bundle is empty. */
  predicate Proper(p: Packet)
    decreases p
  {
    match p
    case Message(path, _) => path != [] && path[0] == '/' as int
    case Bundle(_, _, items) => items.More? && ProperItems(items)
  }

  predicate ProperItems(ps: Packets)
    decreases ps
  {
    match ps
    case NoMore => true
    case More(p, rest) => Proper(p) && ProperItems(rest)
  }

  predicate OkPacket(p: Packet) {
    Encodable(p) && Proper(p)
  }

  predicate OkPackets(ps: Packets) {
    EncodableItems(ps) && ProperItems(ps)
  }

  // ---- sizes ----

  function TextSize(n: nat): nat {
    Pad4(n + 1)
  }

  function ArgSize(a: Arg): nat {
    match a
    case I32(_) | F32(_) | Chr(_) | Midi(_, _, _, _) | Rgba(_, _, _, _) => 4
    case Str(s) => TextSize(|s|)
    case Sym(s) => TextSize(|s|)
    case Blob(data) => 4 + Pad4(|data|)
    case I64(_, _) | F64(_, _) | Time(_, _) => 8
    case True | False | Nil | Impulse => 0
  }

  function ArgsSize(args: seq<Arg>): nat {
    if args == [] then 0 else ArgSize(args[0]) + ArgsSize(args[1..])
  }

  function Size(p: Packet): nat
    decreases p
  {
    match p
    case Message(path, args) => TextSize(|path|) + TextSize(1 + |args|) + ArgsSize(args)
    case Bundle(_, _, items) => 16 + ItemsSize(items)
  }

  function ItemsSize(ps: Packets): nat
    decreases ps
  {
    match ps
    case NoMore => 0
    case More(p, rest) => 4 + Size(p) + ItemsSize(rest)
  }

  predicate Quad(n: nat) {
    n % 4 == 0
  }

  lemma QuadSum(m: nat, n: nat)
    requires Quad(m) && Quad(n)
    ensures Quad(m + n) && Quad(4) && Quad(8) && Quad(16) && Quad(0)
  {
  }

  lemma ArgQuad(a: Arg)
    ensures Quad(ArgSize(a))
  {
    hide Pad4;
  }

  lemma {:induction false} ArgsQuad(args: seq<Arg>)
    ensures Quad(ArgsSize(args))
    decreases |args|
  {
    hide Quad, ArgSize;
    QuadZero();
    if args != [] {
      ArgQuad(args[0]);
      ArgsQuad(args[1..]);
      QuadSum(ArgSize(args[0]), ArgsSize(args[1..]));
    }
  }

  lemma QuadZero()
    ensures Quad(0) && Quad(4) && Quad(16)
  {
  }

  lemma TextQuad(n: nat)
    ensures Quad(TextSize(n)) && TextSize(n) >= 4
  {
  }

  /** Every packet, and so every item size that is written, is a positive multiple of 4. */
  lemma {:induction false} SizeQuad(p: Packet)
    ensures Quad(Size(p)) && Size(p) > 0
    decreases p
  {
    hide Quad, TextSize;
    QuadZero();
    match p
    case Message(path, args) =>
      TextQuad(|path|);
      TextQuad(1 + |args|);
      ArgsQuad(args);
      QuadSum(TextSize(|path|), TextSize(1 + |args|));
      QuadSum(TextSize(|path|) + TextSize(1 + |args|), ArgsSize(args));
    case Bundle(_, _, items) =>
      ItemsQuad(items);
      QuadSum(16, ItemsSize(items));
  }

  lemma {:induction false} ItemsQuad(ps: Packets)
    ensures Quad(ItemsSize(ps))
    decreases ps
  {
    hide Quad;
    QuadZero();
    match ps
    case NoMore =>
    case More(p, rest) =>
      SizeQuad(p);
      ItemsQuad(rest);
      QuadSum(4, Size(p));
      QuadSum(4 + Size(p), ItemsSize(rest));
  }

  // ---- bytes ----

  function Zeros(n: nat): (r: seq<byte>)
    ensures |r| == n
  {
    seq(n, i => 0)
  }

  /** A string with its terminator, padded to 4 bytes. */
  function EncText(s: Text): (r: seq<byte>)
    ensures |r| == TextSize(|s|)
  {
    s + Zeros(TextSize(|s|) - |s|)
  }

  function TypeTag(a: Arg): byte {
    match a
    case I32(_) => 'i' as int
    case F32(_) => 'f' as int
    case Str(_) => 's' as int
    case Blob(_) => 'b' as int
    case True => 'T' as int
    case False => 'F' as int
    case Nil => 'N' as int
    case Impulse => 'I' as int
    case I64(_, _) => 'h' as int
    case F64(_, _) => 'd' as int
    case Time(_, _) => 't' as int
    case Sym(_) => 'S' as int
    case Chr(_) => 'c' as int
    case Midi(_, _, _, _) => 'm' as int
    case Rgba(_, _, _, _) => 'r' as int
  }

  function Tags(args: seq<Arg>): (r: Text)
    ensures |r| == |args| && IsText(r)
  {
    seq(|args|, i requires 0 <= i < |args| => TypeTag(args[i]))
  }

  /** The 32-bit pattern of a char that was widened to int32_t. */
  function CharWord(c: int): word {
    if 0 <= c < 128 then c else if -128 <= c < 0 then WORD_LIMIT + c else 0
  }

  /**
   The bytes of an argument. The writer leaves the padding of a blob as it found it, so the
   encoding depends on `was`, the bytes that were in its place before.
   */
  function EncArg(a: Arg, was: seq<byte>): (r: seq<byte>)
    requires |was| == ArgSize(a) && OkArg(a)
    ensures |r| == |was|
  {
    match a
    case I32(w) => Be32(w)
    case F32(w) => Be32(w)
    case Str(s) => EncText(s)
    case Sym(s) => EncText(s)
    case Blob(data) => Be32(|data|) + data + was[4 + |data|..]
    case I64(hi, lo) => Be32(hi) + Be32(lo)
    case F64(hi, lo) => Be32(hi) + Be32(lo)
    case Time(hi, lo) => Be32(hi) + Be32(lo)
    case Chr(c) => Be32(CharWord(c))
    case Midi(p, b1, b2, b3) => [p, b1, b2, b3]
    case Rgba(x, y, z, w) => [x, y, z, w]
    case True | False | Nil | Impulse => []
  }

  function EncArgs(args: seq<Arg>, was: seq<byte>): (r: seq<byte>)
    requires |was| == ArgsSize(args) && OkArgs(args)
    ensures |r| == |was|
  {
    if args == [] then []
    else EncArg(args[0], was[..ArgSize(args[0])]) + EncArgs(args[1..], was[ArgSize(args[0])..])
  }

  const BUNDLE: Text := ['#' as int, 'b' as int, 'u' as int, 'n' as int, 'd' as int, 'l' as int, 'e' as int, 0]

  const COMMA: Text := [',' as int]

  function EncHead(path: Text, args: seq<Arg>): (r: seq<byte>)
    ensures |r| == TextSize(|path|) + TextSize(1 + |args|)
  {
    EncText(path) + EncText(COMMA + Tags(args))
  }

  function Enc(p: Packet, was: seq<byte>): (r: seq<byte>)
    requires |was| == Size(p) && Encodable(p)
    ensures |r| == |was|
    decreases p
  {
    match p
    case Message(path, args) => EncHead(path, args) + EncArgs(args, was[TextSize(|path|) + TextSize(1 + |args|)..])
    case Bundle(hi, lo, items) => BUNDLE + (Be32(hi) + Be32(lo)) + EncItems(items, was[16..])
  }

  /** Every item behind its size. */
  function EncItems(ps: Packets, was: seq<byte>): (r: seq<byte>)
    requires |was| == ItemsSize(ps) && EncodableItems(ps)
    ensures |r| == |was|
    decreases ps
  {
    match ps
    case NoMore => []
    case More(p, rest) => Be32(Size(p)) + Enc(p, was[4..4 + Size(p)]) + EncItems(rest, was[4 + Size(p)..])
  }

  // ---- atoms ----

  datatype ObjectType = OscBundle | OscMessage | OscTimetag | OtherType

  datatype Key =
    | BundleTimetag | BundleItems | MessagePath | MessageArguments | TimetagIntegral | TimetagFraction
    | OtherKey(n: nat)

  datatype LiteralType = OscNil | OscImpulse | OscChar | OscRgba | OtherLiteral

  datatype Atom =
    | AInt(w: word)
    | AFloat(w: word)
    | AString(s: Text)
    | AChunk(data: seq<byte>)
    | ALong(hi: word, lo: word)
    | ADouble(hi: word, lo: word)
    | ABool(w: word)
    | AUrid(u: word)
    | AMidi(data: seq<byte>)
    | ALiteral(datatyp: LiteralType, text: Text)
    | AObject(otype: ObjectType, props: Props)
    | ATuple(items: Atoms)
    | AOther(size: nat)

  datatype Atoms = ANil | ACons(head: Atom, tail: Atoms)

  datatype Props = PNil | PCons(key: Key, value: Atom, rest: Props)

  // ---- from packets to atoms ----

  function HexDigit(n: nat): byte
    requires n < 16
  {
    if n < 10 then '0' as int + n else 'a' as int + (n - 10)
  }

  /** printf's two lower-case hexadecimal digits of a byte. */
  function Hex2(b: byte): Text {
    [HexDigit(b / 16), HexDigit(b % 16)]
  }

  function TimetagAtom(hi: word, lo: word): Atom {
    AObject(OscTimetag, PCons(TimetagIntegral, ALong(0, hi), PCons(TimetagFraction, ALong(0, lo), PNil)))
  }

  function ArgAtom(h: Host, a: Arg): Atom {
    match a
    case I32(w) => AInt(w)
    case F32(w) => AFloat(w)
    case Str(s) => AString(s)
    case Blob(data) => AChunk(data)
    case True => ABool(1)
    case False => ABool(0)
    case Nil => ALiteral(OscNil, [])
    case Impulse => ALiteral(OscImpulse, [])
    case I64(hi, lo) => ALong(hi, lo)
    case F64(hi, lo) => ADouble(hi, lo)
    case Time(hi, lo) => TimetagAtom(hi, lo)
    case Sym(s) => AUrid(h.map_(s))
    case Chr(c) => ALiteral(OscChar, [CharWord(c) % 256])
    case Midi(_, b1, b2, b3) => AMidi([b1, b2, b3])
    case Rgba(r, g, b, a) => ALiteral(OscRgba, Hex2(r) + Hex2(g) + Hex2(b) + Hex2(a))
  }

  function ArgAtoms(h: Host, args: seq<Arg>): Atoms {
    if args == [] then ANil else ACons(ArgAtom(h, args[0]), ArgAtoms(h, args[1..]))
  }

  function MessageAtom(path: Text, args: Atoms): Atom {
    AObject(OscMessage, PCons(MessagePath, AString(path), PCons(MessageArguments, ATuple(args), PNil)))
  }

  function BundleAtom(hi: word, lo: word, items: Atoms): Atom {
    AObject(OscBundle, PCons(BundleTimetag, TimetagAtom(hi, lo), PCons(BundleItems, ATuple(items), PNil)))
  }

  function PacketAtom(h: Host, p: Packet): Atom
    decreases p
  {
    match p
    case Message(path, args) => MessageAtom(path, ArgAtoms(h, args))
    case Bundle(hi, lo, items) => BundleAtom(hi, lo, ItemAtoms(h, items))
  }

  function ItemAtoms(h: Host, ps: Packets): Atoms
    decreases ps
  {
    match ps
    case NoMore => ANil
    case More(p, rest) => ACons(PacketAtom(h, p), ItemAtoms(h, rest))
  }

  // ---- from atoms to packets ----

  /** lv2_atom_object_get: the first property with the key. */
  function Lookup(props: Props, key: Key): Option<Atom> {
    match props
    case PNil => None
    case PCons(k, v, rest) => if k == key then Some(v) else Lookup(rest, key)
  }

  /** lv2_osc_timetag_get: immediate unless both halves are there. */
  function Timetag(props: Props): (word, word) {
    match (Lookup(props, TimetagIntegral), Lookup(props, TimetagFraction))
    case (Some(ALong(_, i)), Some(ALong(_, f))) => (i, f)
    case _ => (0, 1)
  }

  function UnHex(b: byte): Option<nat> {
    if '0' as int <= b <= '9' as int then Some(b - '0' as int)
    else if 'a' as int <= b <= 'f' as int then Some(b - 'a' as int + 10)
    else if 'A' as int <= b <= 'F' as int then Some(b - 'A' as int + 10)
    else None
  }

  function UnHex2(x: byte, y: byte): Option<byte> {
    match (UnHex(x), UnHex(y))
    case (Some(a), Some(b)) => if a < 16 && b < 16 then Some(16 * a + b) else None
    case _ => None
  }

  /** sscanf with four fields of two hexadecimal digits. */
  function ScanRgba(t: Text): Option<(byte, byte, byte, byte)> {
    if |t| != 8 then None
    else
      match (UnHex2(t[0], t[1]), UnHex2(t[2], t[3]), UnHex2(t[4], t[5]), UnHex2(t[6], t[7]))
      case (Some(r), Some(g), Some(b), Some(a)) => Some((r, g, b, a))
      case _ => None
  }

  function SignedChar(b: byte): int {
    if b < 128 then b else b - 256
  }

  lemma CharBack(c: int)
    requires -128 <= c < 128
    ensures SignedChar(CharWord(c) % 256) == c
  {
  }

  /** The argument an atom stands for: lv2_osc_argument_type, and the value the writer takes from it. */
  function AtomArg(h: Host, a: Atom): Option<Arg> {
    match a
    case AInt(w) => Some(I32(w))
    case AFloat(w) => Some(F32(w))
    case AString(s) => Some(Str(CText(s)))
    case AChunk(data) => if |data| < 0x8000_0000 then Some(Blob(data)) else None
    case ALong(hi, lo) => Some(I64(hi, lo))
    case ADouble(hi, lo) => Some(F64(hi, lo))
    case ABool(w) => Some(if w != 0 then True else False)
    case AUrid(u) =>
      (match h.unmap(u)
       case Some(s) => Some(Sym(CText(s)))
       case None => None)
    case AMidi(d) => if |d| == 3 then Some(Midi(0, d[0], d[1], d[2])) else None
    case AObject(OscTimetag, props) => Some(Time(Timetag(props).0, Timetag(props).1))
    case ALiteral(OscNil, _) => Some(Nil)
    case ALiteral(OscImpulse, _) => Some(Impulse)
    case ALiteral(OscChar, t) => Some(Chr(if t == [] then 0 else SignedChar(t[0])))
    case ALiteral(OscRgba, t) =>
      (match ScanRgba(t)
       case Some(c) => Some(Rgba(c.0, c.1, c.2, c.3))
       case None => None)
    case _ => None
  }

  /** The type character the writer announces for an atom; 0 for an atom it does not know. */
  function ArgType(a: Atom): byte {
    match a
    case AInt(_) => 'i' as int
    case AFloat(_) => 'f' as int
    case AString(_) => 's' as int
    case AChunk(_) => 'b' as int
    case ALong(_, _) => 'h' as int
    case ADouble(_, _) => 'd' as int
    case AObject(OscTimetag, _) => 't' as int
    case ABool(w) => if w != 0 then 'T' as int else 'F' as int
    case ALiteral(OscNil, _) => 'N' as int
    case ALiteral(OscImpulse, _) => 'I' as int
    case ALiteral(OscChar, _) => 'c' as int
    case ALiteral(OscRgba, _) => 'r' as int
    case AUrid(_) => 'S' as int
    case AMidi(_) => 'm' as int
    case _ => 0
  }

  function AtomArgs(h: Host, atoms: Atoms): Option<seq<Arg>> {
    match atoms
    case ANil => Some([])
    case ACons(a, rest) =>
      match (AtomArg(h, a), AtomArgs(h, rest))
      case (Some(x), Some(xs)) => Some([x] + xs)
      case _ => None
  }

  /** The packet an object stands for, if it is a message or a bundle of them. */
  function AtomPacket(h: Host, a: Atom): Option<Packet>
    decreases a
  {
    match a
    case AObject(OscMessage, props) =>
      (match (Lookup(props, MessagePath), Lookup(props, MessageArguments))
       case (Some(AString(path)), Some(ATuple(args))) =>
         (match AtomArgs(h, args)
          case Some(xs) => Some(Message(CText(path), xs))
          case None => None)
       case _ => None)
    case AObject(OscBundle, props) =>
      LookupSmaller(props, BundleItems);
      (match (Lookup(props, BundleTimetag), Lookup(props, BundleItems))
       case (Some(AObject(OscTimetag, t)), Some(ATuple(items))) =>
         (match AtomPackets(h, items)
          case Some(ps) => if ps.More? then Some(Bundle(Timetag(t).0, Timetag(t).1, ps)) else None
          case None => None)
       case _ => None)
    case _ => None
  }

  function AtomPackets(h: Host, atoms: Atoms): Option<Packets>
    decreases atoms
  {
    match atoms
    case ANil => Some(NoMore)
    case ACons(a, rest) =>
      match (AtomPacket(h, a), AtomPackets(h, rest))
      case (Some(p), Some(ps)) => Some(More(p, ps))
      case _ => None
  }

  lemma LookupSmaller(props: Props, key: Key)
    ensures Lookup(props, key).Some? ==> Lookup(props, key).value < props
  {
  }
}
