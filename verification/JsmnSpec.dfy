/**
 The tokenizer of jsmn.c as it is compiled here - neither strict mode nor parent links - as a
 function from one state of the main loop to the next. Text is a string of bytes.
 */
module JsmnSpec {

  datatype TokenType = Primitive | Object | Array | String

  /** An end of -1 marks a container that is still open. */
  datatype Token = Token(typ: TokenType, start: int, end: int, size: nat)

  datatype Error = NoMem | Inval | Part

  datatype Result = Ok(n: nat) | Err(e: Error)

  /**
   toks holds the tokens allocated so far, super is toksuper. count is the number jsmn_parse
   returns; orphans counts the tokens that were created while toksuper was -1.
   */
  datatype State = State(pos: nat, toks: seq<Token>, super: int, count: nat, orphans: nat)

  const INIT := State(0, [], -1, 0, 0)

  // ---- characters ----

  predicate IsSpace(c: char) {
    c == '\t' || c == '\r' || c == '\n' || c == ' '
  }

  predicate EndsPrimitive(c: char) {
    c == ':' || IsSpace(c) || c == ',' || c == ']' || c == '}'
  }

  predicate IsHex(c: char) {
    '0' <= c <= '9' || 'A' <= c <= 'F' || 'a' <= c <= 'f'
  }

  predicate IsEscape(c: char) {
    c == '\"' || c == '/' || c == '\\' || c == 'b' || c == 'f' || c == 'r' || c == 'n' || c == 't'
  }

  /** The loops run while this holds. */
  predicate More(js: string, pos: nat) {
    pos < |js| && js[pos] != '\0'
  }

  // ---- scanning ----

  datatype Scan = Found(at: nat) | Failed(e: Error)

  /** The loop of jsmn_parse_primitive. */
  function ScanPrimitive(js: string, p: nat): (r: Scan)
    ensures r.Found? ==> p <= r.at && (p <= |js| ==> r.at <= |js|)
    decreases |js| - p
  {
    if !More(js, p) || EndsPrimitive(js[p]) then Found(p)
    else if js[p] < ' ' || js[p] >= 127 as char then Failed(Inval)
    else ScanPrimitive(js, p + 1)
  }

  /** The loop over the digits after backslash u, which also stops quietly at the end of the text. */
  function ScanHex(js: string, p: nat, i: nat): (r: Scan)
    requires i <= 4
    ensures r.Found? ==> p <= r.at
    decreases 4 - i
  {
    if i < 4 && More(js, p) then
      if IsHex(js[p]) then ScanHex(js, p + 1, i + 1) else Failed(Inval)
    else Found(p)
  }

  /** The loop of jsmn_parse_string, from behind the opening quote to the closing one. */
  function ScanString(js: string, p: nat): (r: Scan)
    ensures r.Found? ==> p <= r.at < |js| && js[r.at] == '\"'
    decreases |js| - p
  {
    if !More(js, p) then Failed(Part)
    else if js[p] == '\"' then Found(p)
    else if js[p] == '\\' && p + 1 < |js| then
      if IsEscape(js[p + 1]) then ScanString(js, p + 2)
      else if js[p + 1] == 'u' then
        match ScanHex(js, p + 2, 0)
        case Failed(e) => Failed(e)
        case Found(q) => ScanString(js, q)
      else Failed(Inval)
    else ScanString(js, p + 1)
  }

  // ---- tokens ----

  predicate IsOpen(t: Token) {
    t.start != -1 && t.end == -1
  }

  /** The backward search for the innermost open token below n, or -1. */
  function LastOpen(toks: seq<Token>, n: nat): (i: int)
    requires n <= |toks|
    ensures -1 <= i < n
    ensures i >= 0 ==> IsOpen(toks[i])
    ensures forall j :: i < j < n ==> !IsOpen(toks[j])
  {
    if n == 0 then -1 else if IsOpen(toks[n - 1]) then n - 1 else LastOpen(toks, n - 1)
  }

  predicate IsContainer(t: TokenType) {
    t == Array || t == Object
  }

  /** The backward search of the comma case. */
  function LastOpenContainer(toks: seq<Token>, n: nat): (i: int)
    requires n <= |toks|
    ensures -1 <= i < n
    ensures i >= 0 ==> IsContainer(toks[i].typ) && IsOpen(toks[i])
    ensures forall j :: i < j < n ==> !(IsContainer(toks[j].typ) && IsOpen(toks[j]))
  {
    if n == 0 then -1
    else if IsContainer(toks[n - 1].typ) && IsOpen(toks[n - 1]) then n - 1
    else LastOpenContainer(toks, n - 1)
  }

  /** tokens[toksuper].size++, unless there is no toksuper. */
  function Bump(toks: seq<Token>, super: int): (r: seq<Token>)
    requires -1 <= super < |toks|
    ensures |r| == |toks|
  {
    if super == -1 then toks else toks[super := toks[super].(size := toks[super].size + 1)]
  }

  function Close(toks: seq<Token>, i: nat, end: nat): (r: seq<Token>)
    requires i < |toks|
    ensures |r| == |toks|
  {
    toks[i := toks[i].(end := end)]
  }

  // ---- one iteration ----

  datatype Outcome = Go(st: State) | Stop(e: Error)

  predicate SuperOk(st: State) {
    -1 <= st.super < |st.toks|
  }

  /** Allocates a token; the token above it counts one more child. */
  function Add(st: State, limit: nat, t: Token, pos: nat, super: int): Outcome
    requires SuperOk(st)
  {
    if |st.toks| >= limit then Stop(NoMem)
    else Go(State(pos, Bump(st.toks, st.super) + [t], super, st.count + 1,
                  if st.super == -1 then st.orphans + 1 else st.orphans))
  }

  function CloseBracket(st: State, typ: TokenType): Outcome {
    var i := LastOpen(st.toks, |st.toks|);
    if i == -1 then Stop(Inval)
    else if st.toks[i].typ != typ then Stop(Inval)
    else
      var toks := Close(st.toks, i, st.pos + 1);
      Go(st.(pos := st.pos + 1, toks := toks, super := LastOpen(toks, i + 1)))
  }

  /** At depth 0 toksuper is -1 and the code reads in front of the array; `junk` is what it finds. */
  function Comma(st: State, junk: TokenType): Outcome
    requires SuperOk(st)
  {
    var typ := if st.super == -1 then junk else st.toks[st.super].typ;
    var i := LastOpenContainer(st.toks, |st.toks|);
    Go(st.(pos := st.pos + 1, super := if !IsContainer(typ) && i != -1 then i else st.super))
  }

  function Step(js: string, limit: nat, junk: TokenType, st: State): Outcome
    requires More(js, st.pos) && SuperOk(st)
  {
    var c := js[st.pos];
    if c == '{' || c == '[' then
      Add(st, limit, Token(if c == '{' then Object else Array, st.pos, -1, 0), st.pos + 1, |st.toks|)
    else if c == '}' || c == ']' then
      CloseBracket(st, if c == '}' then Object else Array)
    else if c == '\"' then
      match ScanString(js, st.pos + 1)
      case Failed(e) => Stop(e)
      case Found(q) => Add(st, limit, Token(String, st.pos + 1, q, 0), q + 1, st.super)
    else if IsSpace(c) then
      Go(st.(pos := st.pos + 1))
    else if c == ':' then
      Go(st.(pos := st.pos + 1, super := |st.toks| - 1))
    else if c == ',' then
      Comma(st, junk)
    else
      match ScanPrimitive(js, st.pos)
      case Failed(e) => Stop(e)
      case Found(q) => Add(st, limit, Token(Primitive, st.pos, q, 0), q, st.super)
  }

  lemma StepAdvances(js: string, limit: nat, junk: TokenType, st: State)
    requires More(js, st.pos) && SuperOk(st) && Step(js, limit, junk, st).Go?
    ensures var st' := Step(js, limit, junk, st).st; st.pos < st'.pos <= |js| && SuperOk(st')
  {
    hide ScanString;
    if !EndsPrimitive(js[st.pos]) {
      assert ScanPrimitive(js, st.pos) ==
        if js[st.pos] < ' ' || js[st.pos] >= 127 as char then Failed(Inval) else ScanPrimitive(js, st.pos + 1);
    }
  }

  /** What the check behind the loop makes of the final state. */
  function Final(st: State): Result {
    if LastOpen(st.toks, |st.toks|) != -1 then Err(Part) else Ok(st.count)
  }

  function Run(js: string, limit: nat, junk: TokenType, st: State): (Result, State)
    requires SuperOk(st)
    decreases |js| - st.pos
  {
    if !More(js, st.pos) then (Final(st), st)
    else
      var next := Step(js, limit, junk, st);
      if next.Stop? then (Err(next.e), st)
      else
        StepAdvances(js, limit, junk, st);
        Run(js, limit, junk, next.st)
  }

  /** jsmn_parse on a fresh parser. */
  function Parse(js: string, limit: nat, junk: TokenType): (Result, State) {
    Run(js, limit, junk, INIT)
  }
}
