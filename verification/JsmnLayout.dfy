/**
 Which tokens jsmn_parse produces for JSON text. A value is given as a concrete syntax tree
 that records the insignificant white space, following sections 2 to 7 of RFC 8259; its text
 and its expected tokens are computed from the tree, and running the tokenizer on the one is
 proved to give the other.
 */
module JsmnLayout {
  import opened JsmnSpec

  // ---- JSON text ----

  datatype StrChar =
    | Plain(c: char)
    | Escaped(c: char)
    | Unicode(h0: char, h1: char, h2: char, h3: char)

  datatype Json =
    | Prim(text: string)
    | Str(chars: seq<StrChar>)
    | Arr(ws: string, items: Items)         // ws: the inside of an empty array
    | Obj(ws: string, members: Members)

  datatype Items = NoItems | Item(pre: string, value: Json, post: string, rest: Items)

  datatype Members = NoMembers
    | Member(pre: string, key: seq<StrChar>, mid: string, pre2: string, value: Json, post: string, rest: Members)

  function PrintChar(c: StrChar): string {
    match c
    case Plain(c) => [c]
    case Escaped(c) => ['\\', c]
    case Unicode(h0, h1, h2, h3) => ['\\', 'u', h0, h1, h2, h3]
  }

  function PrintChars(cs: seq<StrChar>): string {
    if cs == [] then "" else PrintChar(cs[0]) + PrintChars(cs[1..])
  }

  function PrintStr(cs: seq<StrChar>): string {
    "\"" + PrintChars(cs) + "\""
  }

  function Print(v: Json): string
    decreases v
  {
    match v
    case Prim(text) => text
    case Str(cs) => PrintStr(cs)
    case Arr(ws, items) => "[" + (if items == NoItems then ws else PrintItems(items)) + "]"
    case Obj(ws, members) => "{" + (if members == NoMembers then ws else PrintMembers(members)) + "}"
  }

  function PrintItems(items: Items): string
    decreases items
  {
    match items
    case NoItems => ""
    case Item(pre, value, post, rest) =>
      pre + (Print(value) + (post + if rest == NoItems then "" else "," + PrintItems(rest)))
  }

  function PrintMembers(members: Members): string
    decreases members
  {
    match members
    case NoMembers => ""
    case Member(pre, key, mid, pre2, value, post, rest) =>
      pre + (PrintStr(key) + (mid + (":" + (pre2 + (Print(value) + (post +
      if rest == NoMembers then "" else "," + PrintMembers(rest)))))))
  }

  // ---- which trees are JSON ----

  /** Space, horizontal tab, line feed and carriage return: RFC 8259, section 2. */
  predicate WsChar(c: char) {
    c as int == 0x20 || c as int == 0x09 || c as int == 0x0A || c as int == 0x0D
  }

  predicate IsWs(w: string) {
    forall i :: 0 <= i < |w| ==> WsChar(w[i])
  }

  /** What may follow a backslash, but for u: quote, backslash, slash, b, f, n, r and t (section 7). */
  predicate EscapeChar(c: char) {
    c as int in [0x22, 0x5C, 0x2F, 0x62, 0x66, 0x6E, 0x72, 0x74]
  }

  predicate HexChar(c: char) {
    0x30 <= c as int <= 0x39 || 0x41 <= c as int <= 0x46 || 0x61 <= c as int <= 0x66
  }

  /** The characters of a string of section 7. */
  predicate OkChar(c: StrChar) {
    match c
    case Plain(c) => c as int >= 0x20 && c as int != 0x22 && c as int != 0x5C
    case Escaped(c) => EscapeChar(c)
    case Unicode(h0, h1, h2, h3) => HexChar(h0) && HexChar(h1) && HexChar(h2) && HexChar(h3)
  }

  predicate OkChars(cs: seq<StrChar>) {
    forall i :: 0 <= i < |cs| ==> OkChar(cs[i])
  }

  /** Colon, comma and the closing brackets, which may follow a value. */
  predicate Structural(c: char) {
    c as int in [0x3A, 0x2C, 0x5D, 0x7D]
  }

  /** Printable ASCII that does not end a value. */
  predicate PrimChar(c: char) {
    0x20 < c as int < 0x7F && !Structural(c)
  }

  /** The tokenizer tells characters apart exactly as JSON does. */
  lemma CharClasses(c: char)
    ensures IsSpace(c) <==> WsChar(c)
    ensures IsEscape(c) <==> EscapeChar(c)
    ensures IsHex(c) <==> HexChar(c)
    ensures EndsPrimitive(c) <==> WsChar(c) || Structural(c)
  {
  }

  /** A word the tokenizer takes for a primitive; LiteralsAreWords and NumbersAreWords show that all of JSON's are. */
  predicate IsWord(text: string) {
    && text != ""
    && text[0] != '{' && text[0] != '[' && text[0] != '\"'
    && forall i :: 0 <= i < |text| ==> PrimChar(text[i])
  }

  predicate OkJson(v: Json)
    decreases v
  {
    match v
    case Prim(text) => IsWord(text)
    case Str(cs) => OkChars(cs)
    case Arr(ws, items) => IsWs(ws) && OkItems(items)
    case Obj(ws, members) => IsWs(ws) && OkMembers(members)
  }

  predicate OkItems(items: Items)
    decreases items
  {
    match items
    case NoItems => true
    case Item(pre, value, post, rest) => IsWs(pre) && OkJson(value) && IsWs(post) && OkItems(rest)
  }

  predicate OkMembers(members: Members)
    decreases members
  {
    match members
    case NoMembers => true
    case Member(pre, key, mid, pre2, value, post, rest) =>
      IsWs(pre) && OkChars(key) && IsWs(mid) && IsWs(pre2) && OkJson(value) && IsWs(post) && OkMembers(rest)
  }

  predicate Digits(s: string) {
    s != "" && forall i :: 0 <= i < |s| ==> '0' <= s[i] <= '9'
  }

  /** number = [ minus ] int [ frac ] [ exp ] of RFC 8259, section 6. */
  predicate IsNumber(minus: string, int_: string, frac: string, exp: string) {
    && (minus == "" || minus == "-")
    && Digits(int_) && (|int_| > 1 ==> int_[0] != '0')
    && (frac == "" || (frac[0] == '.' && Digits(frac[1..])))
    && (exp == "" || ((exp[0] == 'e' || exp[0] == 'E') && |exp| > 1 &&
                     (Digits(exp[1..]) || ((exp[1] == '+' || exp[1] == '-') && Digits(exp[2..])))))
  }

  predicate NumberChars(s: string) {
    forall i :: 0 <= i < |s| ==>
      '0' <= s[i] <= '9' || s[i] == '-' || s[i] == '+' || s[i] == '.' || s[i] == 'e' || s[i] == 'E'
  }

  lemma NumbersAreWords(minus: string, int_: string, frac: string, exp: string)
    requires IsNumber(minus, int_, frac, exp)
    ensures IsWord(minus + int_ + frac + exp)
  {
    assert NumberChars(minus) && NumberChars(int_);
    TailChars(frac);
    TailChars(exp);
    var s := minus + int_ + frac + exp;
    assert NumberChars(s);
    assert s[0] == (if minus == "" then int_[0] else '-');
  }

  lemma TailChars(s: string)
    requires s == "" || ((s[0] == '.' || s[0] == 'e' || s[0] == 'E') &&
                        (Digits(s[1..]) || (|s| > 1 && (s[1] == '+' || s[1] == '-') && Digits(s[2..]))))
    ensures NumberChars(s)
  {
    forall i | 0 <= i < |s|
      ensures '0' <= s[i] <= '9' || s[i] == '-' || s[i] == '+' || s[i] == '.' || s[i] == 'e' || s[i] == 'E'
    {
      if i >= 1 && Digits(s[1..]) {
        assert s[i] == s[1..][i - 1];
      } else if i >= 2 {
        assert s[i] == s[2..][i - 2];
      }
    }
  }

  lemma LiteralsAreWords()
    ensures IsWord("true") && IsWord("false") && IsWord("null")
  {
  }

  // ---- the expected tokens ----

  /** One token per value and one per key. */
  function Count(v: Json): nat
    decreases v
  {
    match v
    case Arr(_, items) => 1 + CountItems(items)
    case Obj(_, members) => 1 + CountMembers(members)
    case _ => 1
  }

  function CountItems(items: Items): nat
    decreases items
  {
    match items
    case NoItems => 0
    case Item(_, value, _, rest) => Count(value) + CountItems(rest)
  }

  function CountMembers(members: Members): nat
    decreases members
  {
    match members
    case NoMembers => 0
    case Member(_, _, _, _, value, _, rest) => 1 + Count(value) + CountMembers(rest)
  }

  function NumItems(items: Items): nat {
    match items
    case NoItems => 0
    case Item(_, _, _, rest) => 1 + NumItems(rest)
  }

  function NumMembers(members: Members): nat {
    match members
    case NoMembers => 0
    case Member(_, _, _, _, _, _, rest) => 1 + NumMembers(rest)
  }

  /** The tokens of a value whose text starts at p, in pre-order. */
  function Layout(v: Json, p: nat): (r: seq<Token>)
    ensures |r| == Count(v)
    decreases v
  {
    match v
    case Prim(text) => [Token(Primitive, p, p + |text|, 0)]
    case Str(cs) => [Token(String, p + 1, p + 1 + |PrintChars(cs)|, 0)]
    case Arr(_, items) => [Token(Array, p, p + |Print(v)|, NumItems(items))] + LayoutItems(items, p + 1)
    case Obj(_, members) => [Token(Object, p, p + |Print(v)|, NumMembers(members))] + LayoutMembers(members, p + 1)
  }

  function LayoutItems(items: Items, p: nat): (r: seq<Token>)
    ensures |r| == CountItems(items)
    decreases items
  {
    match items
    case NoItems => []
    case Item(pre, value, post, rest) =>
      Layout(value, p + |pre|) + LayoutItems(rest, p + |pre| + |Print(value)| + |post| + 1)
  }

  function LayoutMembers(members: Members, p: nat): (r: seq<Token>)
    ensures |r| == CountMembers(members)
    decreases members
  {
    match members
    case NoMembers => []
    case Member(pre, key, mid, pre2, value, post, rest) =>
      var k := p + |pre|;
      var q := k + |PrintStr(key)| + |mid| + 1 + |pre2|;
      [Token(String, k + 1, k + 1 + |PrintChars(key)|, 1)] + Layout(value, q)
      + LayoutMembers(rest, q + |Print(value)| + |post| + 1)
  }
}
