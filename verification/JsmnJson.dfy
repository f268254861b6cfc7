/** Running the tokenizer on JSON text gives exactly the expected tokens. */
module JsmnJson {
  import opened JsmnSpec
  import opened JsmnSafety
  import opened JsmnLayout

  // ---- text ----

  predicate At(js: string, p: nat, s: string) {
    p + |s| <= |js| && js[p..p + |s|] == s
  }

  lemma AtSplit(js: string, p: nat, s: string, t: string)
    requires At(js, p, s + t)
    ensures At(js, p, s) && At(js, p + |s|, t)
  {
    var u := js[p..p + |s + t|];
    assert u[..|s|] == s && u[|s|..] == t;
    assert js[p..p + |s|] == u[..|s|] && js[p + |s|..p + |s| + |t|] == u[|s|..];
  }

  lemma AtChar(js: string, p: nat, s: string, i: nat)
    requires At(js, p, s) && i < |s|
    ensures js[p + i] == s[i]
  {
    assert js[p + i] == js[p..p + |s|][i];
  }

  /** A primitive may end here. */
  predicate Delimited(js: string, p: nat) {
    p >= |js| || EndsPrimitive(js[p])
  }

  // ---- runs ----

  datatype Input = Input(js: string, limit: nat, junk: TokenType)

  /** From a and from b the run ends the same way. */
  ghost predicate Same(x: Input, a: State, b: State) {
    SuperOk(a) && SuperOk(b) && Run(x.js, x.limit, x.junk, a) == Run(x.js, x.limit, x.junk, b)
  }

  lemma OneStep(x: Input, a: State, b: State)
    requires SuperOk(a) && More(x.js, a.pos) && Step(x.js, x.limit, x.junk, a) == Go(b)
    ensures Same(x, a, b)
  {
    hide Step;
    StepAdvances(x.js, x.limit, x.junk, a);
  }

  lemma {:induction false} SkipWs(x: Input, st: State, w: string)
    requires SuperOk(st) && At(x.js, st.pos, w) && IsWs(w)
    ensures Same(x, st, st.(pos := st.pos + |w|))
    decreases |w|
  {
    if w != "" {
      hide Run;
      AtChar(x.js, st.pos, w, 0);
      var st' := st.(pos := st.pos + 1);
      OneStep(x, st, st');
      AtSplit(x.js, st.pos, w[..1], w[1..]);
      assert w[..1] + w[1..] == w;
      SkipWs(x, st', w[1..]);
    }
  }

  lemma {:induction false} ScansChars(js: string, p: nat, cs: seq<StrChar>)
    requires At(js, p, PrintChars(cs) + "\"") && OkChars(cs)
    ensures ScanString(js, p) == Found(p + |PrintChars(cs)|)
    decreases |cs|
  {
    if cs == [] {
      AtChar(js, p, PrintChars(cs) + "\"", 0);
    } else {
      var c, rest := PrintChar(cs[0]), PrintChars(cs[1..]) + "\"";
      assert PrintChars(cs) + "\"" == c + rest;
      AtSplit(js, p, c, rest);
      ScansChars(js, p + |c|, cs[1..]);
      ScansChar(js, p, cs[0]);
    }
  }

  lemma ScansChar(js: string, p: nat, c: StrChar)
    requires At(js, p, PrintChar(c)) && OkChar(c) && p + |PrintChar(c)| < |js|
    ensures ScanString(js, p) == ScanString(js, p + |PrintChar(c)|)
  {
    AtChar(js, p, PrintChar(c), 0);
    match c
    case Plain(_) =>
    case Escaped(_) => AtChar(js, p, PrintChar(c), 1);
    case Unicode(h0, h1, h2, h3) =>
      var s := PrintChar(c);
      AtChar(js, p, s, 1);
      AtChar(js, p, s, 2);
      AtChar(js, p, s, 3);
      AtChar(js, p, s, 4);
      AtChar(js, p, s, 5);
      hide ScanString;
      FourDigits(js, p + 2);
      UnicodeStep(js, p);
  }

  lemma UnicodeStep(js: string, p: nat)
    requires p + 1 < |js| && js[p] == '\\' && js[p + 1] == 'u' && ScanHex(js, p + 2, 0) == Found(p + 6)
    ensures ScanString(js, p) == ScanString(js, p + 6)
  {
    hide ScanHex;
  }

  lemma FourDigits(js: string, p: nat)
    requires p + 4 <= |js| && IsHex(js[p]) && IsHex(js[p + 1]) && IsHex(js[p + 2]) && IsHex(js[p + 3])
    ensures ScanHex(js, p, 0) == Found(p + 4)
  {
    assert ScanHex(js, p + 4, 4) == Found(p + 4);
    assert ScanHex(js, p + 3, 3) == Found(p + 4);
    assert ScanHex(js, p + 2, 2) == Found(p + 4);
    assert ScanHex(js, p + 1, 1) == Found(p + 4);
  }

  lemma {:induction false} ScansWord(js: string, p: nat, text: string)
    requires At(js, p, text) && Delimited(js, p + |text|)
    requires forall i :: 0 <= i < |text| ==> PrimChar(text[i])
    ensures ScanPrimitive(js, p) == Found(p + |text|)
    decreases |text|
  {
    if text != "" {
      AtChar(js, p, text, 0);
      assert text[..1] + text[1..] == text;
      AtSplit(js, p, text[..1], text[1..]);
      ScansWord(js, p + 1, text[1..]);
    }
  }

  // ---- tokens of a finished value are closed ----

  ghost predicate AllClosed(toks: seq<Token>) {
    forall i :: 0 <= i < |toks| ==> toks[i].end != -1
  }

  lemma ClosedAppend(a: seq<Token>, b: seq<Token>)
    requires AllClosed(a) && AllClosed(b)
    ensures AllClosed(a + b)
  {
  }

  lemma {:induction false} LayoutClosed(v: Json, p: nat)
    ensures AllClosed(Layout(v, p))
    decreases v
  {
    match v
    case Arr(_, items) => ItemsLayoutClosed(items, p + 1);
    case Obj(_, members) => MembersLayoutClosed(members, p + 1);
    case _ =>
  }

  lemma {:induction false} ItemsLayoutClosed(items: Items, p: nat)
    ensures AllClosed(LayoutItems(items, p))
    decreases items
  {
    match items
    case NoItems =>
    case Item(pre, value, post, rest) =>
      hide AllClosed;
      var q := p + |pre| + |Print(value)| + |post| + 1;
      LayoutClosed(value, p + |pre|);
      ItemsLayoutClosed(rest, q);
      ClosedAppend(Layout(value, p + |pre|), LayoutItems(rest, q));
  }

  lemma {:induction false} MembersLayoutClosed(members: Members, p: nat)
    ensures AllClosed(LayoutMembers(members, p))
    decreases members
  {
    match members
    case NoMembers =>
    case Member(pre, key, mid, pre2, value, post, rest) =>
      var k := p + |pre|;
      var q := k + |PrintStr(key)| + |mid| + 1 + |pre2|;
      var one := [Token(String, k + 1, k + 1 + |PrintChars(key)|, 1)];
      hide AllClosed, Print, PrintStr, PrintChars, Layout;
      OneClosed(one[0]);
      LayoutClosed(value, q);
      MembersLayoutClosed(rest, q + |Print(value)| + |post| + 1);
      ClosedAppend(one, Layout(value, q));
      ClosedAppend(one + Layout(value, q), LayoutMembers(rest, q + |Print(value)| + |post| + 1));
  }

  // ---- the innermost open container ----

  /** k is the innermost open token, and a container of the given type. */
  ghost predicate Inside(toks: seq<Token>, k: nat, typ: TokenType) {
    k < |toks| && LastOpen(toks, |toks|) == k && toks[k].typ == typ && IsContainer(typ)
  }

  function AddSize(toks: seq<Token>, k: nat, n: nat): (r: seq<Token>)
    requires k < |toks|
    ensures |r| == |toks|
  {
    toks[k := toks[k].(size := toks[k].size + n)]
  }

  /** Closed tokens behind do not change what is innermost. */
  lemma StillInside(toks: seq<Token>, k: nat, typ: TokenType, n: nat, more: seq<Token>)
    requires Inside(toks, k, typ) && AllClosed(more)
    ensures Inside(AddSize(toks, k, n) + more, k, typ)
  {
    var a := AddSize(toks, k, n);
    var b := a + more;
    LastOpenSame(a, toks, |toks|);
    LastOpenSame(b, a, |toks|);
    LastOpenAbove(b, |toks|, |b|);
  }

  lemma CommaFinds(toks: seq<Token>, k: nat, typ: TokenType, n: nat)
    requires Inside(toks, k, typ) && k < n <= |toks|
    ensures LastOpenContainer(toks, n) == k
    decreases n
  {
    if n > k + 1 {
      CommaFinds(toks, k, typ, n - 1);
    }
  }

  // ---- the effect of a value ----

  predicate IsContainerValue(v: Json) {
    v.Arr? || v.Obj?
  }

  /** Where reading a value leaves the parser. */
  function Effect(st: State, v: Json): State
    requires SuperOk(st)
  {
    State(st.pos + |Print(v)|,
          Bump(st.toks, st.super) + Layout(v, st.pos),
          if IsContainerValue(v) then LastOpen(st.toks, |st.toks|) else st.super,
          st.count + Count(v),
          if st.super == -1 then st.orphans + 1 else st.orphans)
  }

  /** Where the inside of container k and its closing bracket leave the parser. */
  function Sealed(st: State, k: nat, size: nat, layout: seq<Token>, end: nat): State
    requires k < |st.toks|
  {
    State(end, Close(AddSize(st.toks, k, size), k, end) + layout, LastOpen(st.toks, k), st.count + |layout|, st.orphans)
  }

  ghost predicate Ready(x: Input, st: State, n: nat) {
    SuperOk(st) && |st.toks| + n <= x.limit
  }

  lemma BracketCloses(x: Input, st: State, k: nat, typ: TokenType)
    requires SuperOk(st) && Inside(st.toks, k, typ) && st.pos < |x.js| && x.js[st.pos] == Closing(typ)
    ensures Same(x, st, State(st.pos + 1, Close(st.toks, k, st.pos + 1), LastOpen(st.toks, k), st.count, st.orphans))
  {
    hide Run;
    var toks := Close(st.toks, k, st.pos + 1);
    LastOpenSame(toks, st.toks, k);
    LastOpenAbove(toks, k, k + 1);
    OneStep(x, st, State(st.pos + 1, toks, LastOpen(st.toks, k), st.count, st.orphans));
  }

  /** The inside of k, closed tokens behind it included, seen as one closed container. */
  lemma SealsUp(x: Input, st: State, k: nat, typ: TokenType, size: nat, layout: seq<Token>, st': State)
    requires Inside(st.toks, k, typ) && AllClosed(layout)
    requires st'.toks == AddSize(st.toks, k, size) + layout && SuperOk(st')
    requires st'.count == st.count + |layout| && st'.orphans == st.orphans
    requires st'.pos < |x.js| && x.js[st'.pos] == Closing(typ)
    ensures Same(x, st', Sealed(st, k, size, layout, st'.pos + 1))
  {
    hide Run;
    StillInside(st.toks, k, typ, size, layout);
    BracketCloses(x, st', k, typ);
    LastOpenSame(st'.toks, st.toks, k);
    assert Close(st'.toks, k, st'.pos + 1) == Close(AddSize(st.toks, k, size), k, st'.pos + 1) + layout;
  }

  lemma StringToken(x: Input, st: State, cs: seq<StrChar>)
    requires Ready(x, st, 1) && OkChars(cs) && At(x.js, st.pos, PrintStr(cs))
    ensures Same(x, st, Effect(st, Str(cs)))
  {
    hide Run, ScanString, Bump, LastOpen, LastOpenContainer, PrintChars, OkChars, Same;
    var inner := PrintChars(cs) + "\"";
    assert PrintStr(cs) == "\"" + inner;
    AtSplit(x.js, st.pos, "\"", inner);
    AtChar(x.js, st.pos, "\"", 0);
    ScansChars(x.js, st.pos + 1, cs);
    OneStep(x, st, Effect(st, Str(cs)));
  }

  lemma WordToken(x: Input, st: State, text: string)
    requires Ready(x, st, 1) && IsWord(text) && At(x.js, st.pos, text) && Delimited(x.js, st.pos + |text|)
    ensures Same(x, st, Effect(st, Prim(text)))
  {
    hide Run, ScanPrimitive, Bump, LastOpen, LastOpenContainer, Same;
    AtChar(x.js, st.pos, text, 0);
    ScansWord(x.js, st.pos, text);
    OneStep(x, st, Effect(st, Prim(text)));
  }

  // ---- values ----

  lemma SameTrans(x: Input, a: State, b: State, c: State)
    requires Same(x, a, b) && Same(x, b, c)
    ensures Same(x, a, c)
  {
  }

  lemma WsDelimits(js: string, p: nat, w: string, c: char, t: string)
    requires At(js, p, w + ([c] + t)) && IsWs(w) && EndsPrimitive(c)
    ensures Delimited(js, p) && At(js, p, w) && At(js, p + |w|, [c]) && At(js, p + |w| + 1, t) && js[p + |w|] == c
  {
    AtSplit(js, p, w, [c] + t);
    AtSplit(js, p + |w|, [c], t);
    AtChar(js, p + |w|, [c], 0);
    if w != "" {
      AtChar(js, p, w, 0);
    }
  }

  /** An opening bracket. */
  function Opened(st: State, typ: TokenType): State
    requires SuperOk(st)
  {
    State(st.pos + 1, Bump(st.toks, st.super) + [Token(typ, st.pos, -1, 0)], |st.toks|, st.count + 1,
          if st.super == -1 then st.orphans + 1 else st.orphans)
  }

  lemma BracketOpens(x: Input, st: State, typ: TokenType)
    requires Ready(x, st, 1) && IsContainer(typ) && st.pos < |x.js| && x.js[st.pos] == Opening(typ)
    ensures Same(x, st, Opened(st, typ)) && Inside(Opened(st, typ).toks, |st.toks|, typ)
    ensures LastOpen(Opened(st, typ).toks, |st.toks|) == LastOpen(st.toks, |st.toks|)
  {
    hide Run;
    OneStep(x, st, Opened(st, typ));
    LastOpenSame(Opened(st, typ).toks, st.toks, |st.toks|);
  }

  /** Sealing what an opening bracket started gives the token of the whole value. */
  lemma SealedIsEffect(st: State, v: Json, typ: TokenType, size: nat, layout: seq<Token>)
    requires SuperOk(st) && IsContainerValue(v)
    requires Layout(v, st.pos) == [Token(typ, st.pos, st.pos + |Print(v)|, size)] + layout
    requires LastOpen(Opened(st, typ).toks, |st.toks|) == LastOpen(st.toks, |st.toks|)
    ensures Sealed(Opened(st, typ), |st.toks|, size, layout, st.pos + |Print(v)|) == Effect(st, v)
  {
    hide LastOpen, Layout, Print, Count, Bump, Close, AddSize;
    var k, end := |st.toks|, st.pos + |Print(v)|;
    var a, b := Opened(st, typ).toks, Bump(st.toks, st.super);
    ClosesOpened(st, typ, size, end);
    assert b + ([Token(typ, st.pos, end, size)] + layout) == b + [Token(typ, st.pos, end, size)] + layout;
  }

  lemma ClosesOpened(st: State, typ: TokenType, size: nat, end: nat)
    requires SuperOk(st)
    ensures Close(AddSize(Opened(st, typ).toks, |st.toks|, size), |st.toks|, end)
         == Bump(st.toks, st.super) + [Token(typ, st.pos, end, size)]
  {
    hide LastOpen;
  }

  /** Reading one value, wherever it stands. */
  lemma {:induction false} ReadsValue(x: Input, st: State, v: Json)
    requires Ready(x, st, Count(v)) && OkJson(v)
    requires At(x.js, st.pos, Print(v)) && Delimited(x.js, st.pos + |Print(v)|)
    ensures Same(x, st, Effect(st, v))
    decreases v, 1
  {
    hide Run, IsWord, Effect, LastOpen, At, Same;
    match v
    case Prim(text) => WordToken(x, st, text);
    case Str(cs) => StringToken(x, st, cs);
    case Arr(_, _) => ReadsArrayValue(x, st, v);
    case Obj(_, _) => ReadsObjectValue(x, st, v);
  }

  lemma {:induction false} ReadsArrayValue(x: Input, st: State, v: Json)
    requires v.Arr? && Ready(x, st, Count(v)) && OkJson(v) && At(x.js, st.pos, Print(v))
    ensures Same(x, st, Effect(st, v))
    decreases v, 0
  {
    hide Run, Sealed, Effect, Opened, LastOpen, Inside, At, Same, IsWs;
    var Arr(ws, items) := v;
    BracketsAround(x.js, st.pos, "[", if items == NoItems then ws else PrintItems(items), "]");
    BracketOpens(x, st, Array);
    var st1 := Opened(st, Array);
    OpenedParts(st, Array);
    ReadsArray(x, st1, ws, items, |st.toks|);
    SealedIsEffect(st, v, Array, NumItems(items), LayoutItems(items, st.pos + 1));
    SameTrans(x, st, st1, Effect(st, v));
  }

  lemma {:induction false} ReadsObjectValue(x: Input, st: State, v: Json)
    requires v.Obj? && Ready(x, st, Count(v)) && OkJson(v) && At(x.js, st.pos, Print(v))
    ensures Same(x, st, Effect(st, v))
    decreases v, 0
  {
    hide Run, Sealed, Effect, Opened, LastOpen, Inside, At, Same, IsWs;
    var Obj(ws, members) := v;
    BracketsAround(x.js, st.pos, "{", if members == NoMembers then ws else PrintMembers(members), "}");
    BracketOpens(x, st, Object);
    var st1 := Opened(st, Object);
    OpenedParts(st, Object);
    ReadsObject(x, st1, ws, members, |st.toks|);
    SealedIsEffect(st, v, Object, NumMembers(members), LayoutMembers(members, st.pos + 1));
    SameTrans(x, st, st1, Effect(st, v));
  }

  lemma OpenedParts(st: State, typ: TokenType)
    requires SuperOk(st)
    ensures var st1 := Opened(st, typ);
            st1.pos == st.pos + 1 && st1.super == |st.toks| && |st1.toks| == |st.toks| + 1 && SuperOk(st1)
  {
  }

  lemma BracketsAround(js: string, p: nat, a: string, inside: string, b: string)
    requires |a| == 1 && |b| == 1 && At(js, p, a + inside + b)
    ensures p < |js| && js[p] == a[0] && At(js, p + 1, inside + b)
  {
    assert a + inside + b == a + (inside + b);
    AtSplit(js, p, a, inside + b);
    AtChar(js, p, a, 0);
  }

  /** From behind the opening bracket of array k to behind its closing one. */
  lemma {:induction false} ReadsArray(x: Input, st: State, ws: string, items: Items, k: nat)
    requires Ready(x, st, CountItems(items)) && IsWs(ws) && OkItems(items)
    requires st.super == k && Inside(st.toks, k, Array)
    requires At(x.js, st.pos, (if items == NoItems then ws else PrintItems(items)) + "]")
    ensures var end := st.pos + |if items == NoItems then ws else PrintItems(items)| + 1;
            Same(x, st, Sealed(st, k, NumItems(items), LayoutItems(items, st.pos), end))
    decreases items, 1
  {
    hide Run, LastOpen, At, Same, IsWs, Print, PrintStr, Layout, Count, OkJson;
    if items == NoItems {
      EmptyInside(x, st, ws, k, Array);
    } else {
      ReadsItems(x, st, items, k);
    }
  }

  lemma EmptyInside(x: Input, st: State, ws: string, k: nat, typ: TokenType)
    requires SuperOk(st) && IsWs(ws) && Inside(st.toks, k, typ) && At(x.js, st.pos, ws + [Closing(typ)])
    ensures Same(x, st, Sealed(st, k, 0, [], st.pos + |ws| + 1))
  {
    hide Run, LastOpen, Sealed, At, Same, IsWs;
    var st' := st.(pos := st.pos + |ws|);
    AtSplit(x.js, st.pos, ws, [Closing(typ)]);
    AtIndex(x.js, st.pos + |ws|, Closing(typ));
    SkipWs(x, st, ws);
    NothingAdded(st.toks, k);
    SealsUp(x, st, k, typ, 0, [], st');
    SameTrans(x, st, st', Sealed(st, k, 0, [], st.pos + |ws| + 1));
  }

  lemma NothingAdded(toks: seq<Token>, k: nat)
    requires k < |toks|
    ensures AddSize(toks, k, 0) + [] == toks && AllClosed([])
  {
    assert AddSize(toks, k, 0) == toks;
  }

  /** Inside array or object k: a value and the white space around it. */
  lemma ReadsElement(x: Input, st: State, pre: string, v: Json, post: string, c: char, t: string, st': State)
    requires Ready(x, st, Count(v)) && IsWs(pre) && IsWs(post) && EndsPrimitive(c)
    requires At(x.js, st.pos, pre + (Print(v) + (post + ([c] + t))))
    requires Same(x, st.(pos := st.pos + |pre|), Effect(st.(pos := st.pos + |pre|), v))
    requires st' == Effect(st.(pos := st.pos + |pre|), v)
    ensures var p := st.pos + |pre| + |Print(v)| + |post|;
            && st'.pos + |post| == p && Same(x, st, st'.(pos := p))
            && p < |x.js| && x.js[p] == c && At(x.js, p + 1, t)
  {
    hide Run, LastOpen, At, Same, Print, IsWs, Count, Layout, Bump;
    var q := st.pos + |pre| + |Print(v)|;
    AtSplit(x.js, st.pos, pre, Print(v) + (post + ([c] + t)));
    AtSplit(x.js, st.pos + |pre|, Print(v), post + ([c] + t));
    WsDelimits(x.js, q, post, c, t);
    AtIndex(x.js, q + |post|, c);
    SkipWs(x, st, pre);
    SameTrans(x, st, st.(pos := st.pos + |pre|), st');
    SkipWs(x, st', post);
    SameTrans(x, st, st', st'.(pos := q + |post|));
  }

  lemma ElementDelimited(js: string, p: nat, pre: string, v: Json, post: string, c: char, t: string)
    requires At(js, p, pre + (Print(v) + (post + ([c] + t)))) && IsWs(post) && EndsPrimitive(c)
    ensures At(js, p + |pre|, Print(v)) && Delimited(js, p + |pre| + |Print(v)|)
  {
    AtSplit(js, p, pre, Print(v) + (post + ([c] + t)));
    AtSplit(js, p + |pre|, Print(v), post + ([c] + t));
    WsDelimits(js, p + |pre| + |Print(v)|, post, c, t);
  }

  /** Only one more child of k, and the tokens of the value. */
  lemma EffectInside(st: State, v: Json, k: nat, typ: TokenType)
    requires SuperOk(st) && st.super == k && Inside(st.toks, k, typ)
    ensures var st' := Effect(st, v);
            && st'.toks == AddSize(st.toks, k, 1) + Layout(v, st.pos) && st'.super == k
            && st'.count == st.count + Count(v) && st'.orphans == st.orphans && st'.pos == st.pos + |Print(v)|
            && Inside(st'.toks, k, typ) && AllClosed(Layout(v, st.pos))
  {
    LayoutClosed(v, st.pos);
    StillInside(st.toks, k, typ, 1, Layout(v, st.pos));
  }

  lemma ItemText(pre: string, v: Json, post: string, rest: Items)
    ensures rest == NoItems ==>
              PrintItems(Item(pre, v, post, rest)) + "]" == pre + (Print(v) + (post + ("]" + "")))
    ensures rest != NoItems ==>
              PrintItems(Item(pre, v, post, rest)) + "]" == pre + (Print(v) + (post + ("," + (PrintItems(rest) + "]"))))
  {
    hide Print;
    var a := post + (if rest == NoItems then "" else "," + PrintItems(rest));
    assert pre + (Print(v) + a) + "]" == pre + (Print(v) + (a + "]"));
    if rest == NoItems {
      assert a + "]" == post + ("]" + "");
    } else {
      assert a + "]" == post + ("," + (PrintItems(rest) + "]"));
    }
  }

  lemma {:induction false} ReadsItems(x: Input, st: State, items: Items, k: nat)
    requires items.Item? && Ready(x, st, CountItems(items)) && OkItems(items)
    requires st.super == k && Inside(st.toks, k, Array)
    requires At(x.js, st.pos, PrintItems(items) + "]")
    ensures Same(x, st, Sealed(st, k, NumItems(items), LayoutItems(items, st.pos), st.pos + |PrintItems(items)| + 1))
    decreases items, 0
  {
    hide Run, LastOpen, Inside, Sealed, Effect, Print, OkJson, Layout, Count, At, Same;
    var Item(pre, v, post, rest) := items;
    var c := if rest == NoItems then ']' else ',';
    var t := if rest == NoItems then "" else PrintItems(rest) + "]";
    ItemText(pre, v, post, rest);
    ElementDelimited(x.js, st.pos, pre, v, post, c, t);
    var st0 := st.(pos := st.pos + |pre|);
    ReadsValue(x, st0, v);
    var st1 := Effect(st0, v);
    ReadsElement(x, st, pre, v, post, c, t, st1);
    EffectInside(st0, v, k, Array);
    var p := st.pos + |pre| + |Print(v)| + |post|;
    var st2 := st1.(pos := p);
    var layout := Layout(v, st0.pos);
    if rest == NoItems {
      SealsUp(x, st, k, Array, 1, layout, st2);
      assert layout + [] == layout;
      SameTrans(x, st, st2, Sealed(st, k, 1, layout, p + 1));
    } else {
      var st3 := st2.(pos := p + 1);
      ArrayComma(x, st2, k);
      ReadsItems(x, st3, rest, k);
      SealedTwice(st, k, layout, st3, NumItems(rest), LayoutItems(rest, p + 1), p + 1 + |PrintItems(rest)| + 1);
      SameTrans(x, st, st2, st3);
      SameTrans(x, st, st3, Sealed(st3, k, NumItems(rest), LayoutItems(rest, p + 1), p + 1 + |PrintItems(rest)| + 1));
    }
  }

  lemma ArrayComma(x: Input, st: State, k: nat)
    requires SuperOk(st) && st.super == k && Inside(st.toks, k, Array) && st.pos < |x.js| && x.js[st.pos] == ','
    ensures Same(x, st, st.(pos := st.pos + 1))
  {
    hide Run, LastOpen, LastOpenContainer;
    OneStep(x, st, st.(pos := st.pos + 1));
  }

  /** Sealing after one element and the rest is sealing after all of them. */
  lemma SealedTwice(st: State, k: nat, layout: seq<Token>, st': State, n: nat, more: seq<Token>, end: nat)
    requires k < |st.toks| && st'.toks == AddSize(st.toks, k, 1) + layout
    requires st'.count == st.count + |layout| && st'.orphans == st.orphans
    ensures Sealed(st', k, n, more, end) == Sealed(st, k, n + 1, layout + more, end)
  {
    LastOpenSame(st'.toks, st.toks, k);
    hide LastOpen;
    assert Close(AddSize(st'.toks, k, n), k, end) == Close(AddSize(st.toks, k, n + 1), k, end) + layout;
    assert Close(AddSize(st.toks, k, n + 1), k, end) + layout + more
        == Close(AddSize(st.toks, k, n + 1), k, end) + (layout + more);
  }

  /** From behind the opening brace of object k to behind its closing one. */
  lemma {:induction false} ReadsObject(x: Input, st: State, ws: string, members: Members, k: nat)
    requires Ready(x, st, CountMembers(members)) && IsWs(ws) && OkMembers(members)
    requires st.super == k && Inside(st.toks, k, Object)
    requires At(x.js, st.pos, (if members == NoMembers then ws else PrintMembers(members)) + "}")
    ensures var end := st.pos + |if members == NoMembers then ws else PrintMembers(members)| + 1;
            Same(x, st, Sealed(st, k, NumMembers(members), LayoutMembers(members, st.pos), end))
    decreases members, 1
  {
    hide Run, LastOpen, At, Same, IsWs, Print, PrintStr, Layout, Count, OkJson;
    if members == NoMembers {
      EmptyInside(x, st, ws, k, Object);
    } else {
      ReadsMembers(x, st, members, k);
    }
  }

  lemma MemberText(pre: string, key: seq<StrChar>, mid: string, pre2: string, v: Json, post: string, rest: Members)
    ensures var c := if rest == NoMembers then '}' else ',';
            var t := if rest == NoMembers then "" else PrintMembers(rest) + "}";
            PrintMembers(Member(pre, key, mid, pre2, v, post, rest)) + "}" ==
            pre + (PrintStr(key) + (mid + (":" + (pre2 + (Print(v) + (post + ([c] + t)))))))
  {
    hide Print, PrintStr;
    var a := post + (if rest == NoMembers then "" else "," + PrintMembers(rest));
    var t := if rest == NoMembers then "" else PrintMembers(rest) + "}";
    assert a + "}" == post + ([if rest == NoMembers then '}' else ','] + t);
    var k := PrintStr(key);
    assert (pre + (k + (mid + (":" + (pre2 + (Print(v) + a)))))) + "}"
        == pre + (k + (mid + (":" + (pre2 + (Print(v) + (a + "}"))))));
  }

  /** A key and its colon: the key token becomes the super token. */
  function Keyed(st: State, key: seq<StrChar>, k: nat, p: nat, end: nat): State
    requires k < |st.toks|
  {
    State(end, AddSize(st.toks, k, 1) + [Token(String, p + 1, p + 1 + |PrintChars(key)|, 0)],
          |st.toks|, st.count + 1, st.orphans)
  }

  lemma KeyText(js: string, p: nat, pre: string, key: string, mid: string, t: string)
    requires At(js, p, pre + (key + (mid + (":" + t)))) && IsWs(mid)
    ensures var k := p + |pre|; var m := k + |key|;
            && At(js, p, pre) && At(js, k, key) && At(js, m, mid) && m + |mid| < |js| && js[m + |mid|] == ':'
            && At(js, m + |mid| + 1, t)
  {
    hide At;
    AtSplit(js, p, pre, key + (mid + (":" + t)));
    AtSplit(js, p + |pre|, key, mid + (":" + t));
    WsDelimits(js, p + |pre| + |key|, mid, ':', t);
    AtIndex(js, p + |pre| + |key| + |mid|, ':');
  }

  lemma AtIndex(js: string, p: nat, c: char)
    requires At(js, p, [c])
    ensures p < |js| && js[p] == c
  {
    AtChar(js, p, [c], 0);
  }

  lemma ReadsKey(x: Input, st: State, pre: string, key: seq<StrChar>, mid: string, k: nat, t: string)
    requires Ready(x, st, 1) && IsWs(pre) && OkChars(key) && IsWs(mid) && st.super == k && Inside(st.toks, k, Object)
    requires At(x.js, st.pos, pre + (PrintStr(key) + (mid + (":" + t))))
    ensures var q := st.pos + |pre| + |PrintStr(key)| + |mid| + 1;
            At(x.js, q, t) && Same(x, st, Keyed(st, key, k, st.pos + |pre|, q))
  {
    hide Run, LastOpen, PrintStr, At, Same, OkChars, IsWs;
    var p := st.pos + |pre|;
    KeyText(x.js, st.pos, pre, PrintStr(key), mid, t);
    SkipWs(x, st, pre);
    StringToken(x, st.(pos := p), key);
    var st1 := Effect(st.(pos := p), Str(key));
    SameTrans(x, st, st.(pos := p), st1);
    SkipWs(x, st1, mid);
    var st2 := st1.(pos := st1.pos + |mid|);
    SameTrans(x, st, st1, st2);
    KeyEffect(st, key, k, p);
    ColonStep(x, st2);
    SameTrans(x, st, st2, st2.(pos := st2.pos + 1, super := |st2.toks| - 1));
  }

  lemma KeyEffect(st: State, key: seq<StrChar>, k: nat, p: nat)
    requires SuperOk(st) && st.super == k && k < |st.toks|
    ensures var st1 := Effect(st.(pos := p), Str(key));
            && st1.toks == AddSize(st.toks, k, 1) + [Token(String, p + 1, p + 1 + |PrintChars(key)|, 0)]
            && st1.pos == p + |PrintStr(key)| && st1.count == st.count + 1 && st1.orphans == st.orphans && SuperOk(st1)
  {
  }

  lemma ColonStep(x: Input, st: State)
    requires SuperOk(st) && st.pos < |x.js| && x.js[st.pos] == ':'
    ensures Same(x, st, st.(pos := st.pos + 1, super := |st.toks| - 1))
  {
    hide Run;
    OneStep(x, st, st.(pos := st.pos + 1, super := |st.toks| - 1));
  }

  /** The value behind a key: one more child of k, and a key of size 1 in front of the value's tokens. */
  lemma EffectKeyed(st: State, key: seq<StrChar>, k: nat, p: nat, end: nat, q: nat, v: Json)
    requires SuperOk(st) && Inside(st.toks, k, Object)
    ensures var st0 := Keyed(st, key, k, p, end).(pos := q);
            var layout := [Token(String, p + 1, p + 1 + |PrintChars(key)|, 1)] + Layout(v, q);
            && SuperOk(st0)
            && var st' := Effect(st0, v);
               && st'.toks == AddSize(st.toks, k, 1) + layout && (st'.super == k || st'.super == |st.toks|)
               && st'.count == st.count + |layout| && st'.orphans == st.orphans && st'.pos == q + |Print(v)|
               && AllClosed(layout) && Inside(st'.toks, k, Object)
               && st'.toks[|st.toks|].typ == String && SuperOk(st')
  {
    hide LastOpen, Layout, Print, PrintChars, AllClosed;
    var one := Token(String, p + 1, p + 1 + |PrintChars(key)|, 0);
    var layout := [one.(size := 1)] + Layout(v, q);
    LayoutClosed(v, q);
    OneClosed(one);
    OneClosed(one.(size := 1));
    ClosedAppend([one.(size := 1)], Layout(v, q));
    StillInside(st.toks, k, Object, 1, [one]);
    StillInside(st.toks, k, Object, 1, layout);
    KeyBumped(AddSize(st.toks, k, 1), one, Layout(v, q));
  }

  lemma OneClosed(t: Token)
    requires t.end != -1
    ensures AllClosed([t])
  {
  }

  lemma KeyBumped(a: seq<Token>, one: Token, l: seq<Token>)
    ensures Bump(a + [one], |a|) + l == a + ([one.(size := one.size + 1)] + l)
  {
    assert Bump(a + [one], |a|) == a + [one.(size := one.size + 1)];
  }

  lemma ObjectComma(x: Input, st: State, k: nat)
    requires SuperOk(st) && Inside(st.toks, k, Object) && st.pos < |x.js| && x.js[st.pos] == ','
    requires st.super == k || (st.super >= 0 && st.toks[st.super].typ == String)
    ensures Same(x, st, st.(pos := st.pos + 1, super := k))
  {
    hide Run, LastOpen, LastOpenContainer;
    CommaFinds(st.toks, k, Object, |st.toks|);
    OneStep(x, st, st.(pos := st.pos + 1, super := k));
  }

  lemma {:induction false} ReadsMembers(x: Input, st: State, members: Members, k: nat)
    requires members.Member? && Ready(x, st, CountMembers(members)) && OkMembers(members)
    requires st.super == k && Inside(st.toks, k, Object)
    requires At(x.js, st.pos, PrintMembers(members) + "}")
    ensures Same(x, st, Sealed(st, k, NumMembers(members), LayoutMembers(members, st.pos),
                               st.pos + |PrintMembers(members)| + 1))
    decreases members, 0
  {
    hide Run, LastOpen, Inside, Sealed, Effect, Print, PrintStr, OkJson, OkChars, Layout, Count, At, Same, Keyed;
    hide Close, AddSize;
    var Member(pre, key, mid, pre2, v, post, rest) := members;
    var c := if rest == NoMembers then '}' else ',';
    var t := if rest == NoMembers then "" else PrintMembers(rest) + "}";
    MemberText(pre, key, mid, pre2, v, post, rest);
    var p := st.pos + |pre|;
    var q := p + |PrintStr(key)| + |mid| + 1 + |pre2|;
    var r := q + |Print(v)| + |post|;
    var layout := [Token(String, p + 1, p + 1 + |PrintChars(key)|, 1)] + Layout(v, q);
    var st3 := ReadsMember(x, st, pre, key, mid, pre2, v, post, c, t, k);
    MemberLayout(members, st.pos, layout, r + 1);
    if rest == NoMembers {
      SealsUp(x, st, k, Object, 1, layout, st3);
      SameTrans(x, st, st3, Sealed(st, k, 1, layout, r + 1));
    } else {
      var st4 := st3.(pos := r + 1, super := k);
      ObjectComma(x, st3, k);
      SameTrans(x, st, st3, st4);
      ReadsMembers(x, st4, rest, k);
      var end := r + 1 + |PrintMembers(rest)| + 1;
      SealedTwice(st, k, layout, st4, NumMembers(rest), LayoutMembers(rest, r + 1), end);
      SameTrans(x, st, st4, Sealed(st4, k, NumMembers(rest), LayoutMembers(rest, r + 1), end));
    }
  }

  /** One member, up to the comma or the brace behind it. */
  lemma {:induction false} ReadsMember(x: Input, st: State, pre: string, key: seq<StrChar>, mid: string,
                                       pre2: string, v: Json, post: string, c: char, t: string, k: nat)
      returns (st': State)
    requires Ready(x, st, 1 + Count(v)) && IsWs(pre) && OkChars(key)
    requires IsWs(mid) && IsWs(pre2) && OkJson(v) && IsWs(post)
    requires st.super == k && Inside(st.toks, k, Object) && EndsPrimitive(c)
    requires At(x.js, st.pos, pre + (PrintStr(key) + (mid + (":" + (pre2 + (Print(v) + (post + ([c] + t))))))))
    ensures var p := st.pos + |pre|;
            var q := p + |PrintStr(key)| + |mid| + 1 + |pre2|;
            var layout := [Token(String, p + 1, p + 1 + |PrintChars(key)|, 1)] + Layout(v, q);
            && st'.pos == q + |Print(v)| + |post| && st'.toks == AddSize(st.toks, k, 1) + layout && AllClosed(layout)
            && st'.count == st.count + |layout| && st'.orphans == st.orphans && SuperOk(st')
            && Inside(st'.toks, k, Object)
            && (st'.super == k || (st'.super >= 0 && st'.toks[st'.super].typ == String))
            && Same(x, st, st') && st'.pos < |x.js| && x.js[st'.pos] == c && At(x.js, st'.pos + 1, t)
    decreases v, 2
  {
    hide Run, LastOpen, Inside, Effect, Print, PrintStr, OkJson, OkChars, Layout, Count, At, Same, Keyed, AddSize;
    hide IsWs, AllClosed;
    var p := st.pos + |pre|;
    var e := p + |PrintStr(key)| + |mid| + 1;
    ReadsKey(x, st, pre, key, mid, k, pre2 + (Print(v) + (post + ([c] + t))));
    var st1 := Keyed(st, key, k, p, e);
    KeyedParts(st, key, k, p, e);
    ElementDelimited(x.js, e, pre2, v, post, c, t);
    var q := e + |pre2|;
    EffectKeyed(st, key, k, p, e, q, v);
    ReadsValue(x, st1.(pos := q), v);
    var st2 := Effect(st1.(pos := q), v);
    ReadsElement(x, st1, pre2, v, post, c, t, st2);
    st' := st2.(pos := q + |Print(v)| + |post|);
    SameTrans(x, st, st1, st');
  }

  lemma KeyedParts(st: State, key: seq<StrChar>, k: nat, p: nat, end: nat)
    requires k < |st.toks|
    ensures var st1 := Keyed(st, key, k, p, end); st1.pos == end && |st1.toks| == |st.toks| + 1 && SuperOk(st1)
  {
  }

  lemma MemberLayout(members: Members, pos: nat, layout: seq<Token>, end: nat)
    requires members.Member?
    requires var p := pos + |members.pre|; var q := p + |PrintStr(members.key)| + |members.mid| + 1 + |members.pre2|;
             && layout == [Token(String, p + 1, p + 1 + |PrintChars(members.key)|, 1)] + Layout(members.value, q)
             && end == q + |Print(members.value)| + |members.post| + 1
    ensures LayoutMembers(members, pos) == layout + LayoutMembers(members.rest, end)
    ensures members.rest == NoMembers ==> LayoutMembers(members, pos) == layout
    ensures |PrintMembers(members)| ==
            |members.pre| + |PrintStr(members.key)| + |members.mid| + 1 + |members.pre2| + |Print(members.value)|
              + |members.post| + if members.rest == NoMembers then 0 else 1 + |PrintMembers(members.rest)|
  {
    hide Layout, Print, PrintStr, PrintChars;
    assert layout + [] == layout;
  }

  // ---- main results ----

  /**
   For every JSON text, whatever white space it contains, and enough tokens: jsmn_parse returns
   the number of values and keys, and the token array is exactly the pre-order layout - types,
   spans, one child per element, one per member, and one per key.
   */
  lemma ParsesJson(pre: string, v: Json, post: string, limit: nat, junk: TokenType)
    requires IsWs(pre) && IsWs(post) && OkJson(v) && Count(v) <= limit
    ensures var (r, st) := Parse(pre + Print(v) + post, limit, junk);
            r == Ok(Count(v)) && st.toks == Layout(v, |pre|)
  {
    hide Run, Layout, Print, OkJson, Count, LastOpen, At, Same, IsWs, AllClosed;
    var js := pre + Print(v) + post;
    var x := Input(js, limit, junk);
    WholeText(pre, Print(v), post);
    SkipWs(x, INIT, pre);
    var st0 := INIT.(pos := |pre|);
    ReadsValue(x, st0, v);
    var st1 := Effect(st0, v);
    SameTrans(x, INIT, st0, st1);
    SkipWs(x, st1, post);
    var st2 := st1.(pos := |js|);
    SameTrans(x, INIT, st1, st2);
    LayoutClosed(v, |pre|);
    assert [] + Layout(v, |pre|) == Layout(v, |pre|);
    SameResult(x, INIT, st2);
    AllClosedEnds(js, limit, junk, st2);
  }

  lemma SameResult(x: Input, a: State, b: State)
    requires Same(x, a, b)
    ensures SuperOk(a) && SuperOk(b) && Run(x.js, x.limit, x.junk, a) == Run(x.js, x.limit, x.junk, b)
  {
  }

  lemma WholeText(pre: string, text: string, post: string)
    requires IsWs(post)
    ensures var js := pre + text + post;
            At(js, 0, pre) && At(js, |pre|, text) && At(js, |pre| + |text|, post) && Delimited(js, |pre| + |text|)
  {
    var js := pre + text + post;
    assert js[|pre|..|pre| + |text|] == text && js[|pre| + |text|..|js|] == post && js[0..|pre|] == pre;
    if post != "" {
      assert js[|pre| + |text|] == post[0];
    }
  }

  lemma AllClosedEnds(js: string, limit: nat, junk: TokenType, st: State)
    requires SuperOk(st) && AllClosed(st.toks) && st.pos == |js|
    ensures Run(js, limit, junk, st) == (Ok(st.count), st)
  {
    assert LastOpen(st.toks, |st.toks|) == -1;
  }

  /** With fewer tokens than a run needs, the parser reports just that, on any input. */
  lemma {:induction false} TooFewTokens(js: string, limit: nat, less: nat, junk: TokenType, st: State)
    requires SuperOk(st) && Run(js, limit, junk, st).0.Ok?
    requires |st.toks| <= less < |Run(js, limit, junk, st).1.toks|
    ensures Run(js, less, junk, st).0 == Err(NoMem)
    decreases |js| - st.pos
  {
    hide ScanString, ScanPrimitive, LastOpen, LastOpenContainer;
    if More(js, st.pos) {
      var st' := Step(js, limit, junk, st).st;
      StepAdvances(js, limit, junk, st);
      if Step(js, less, junk, st).Go? {
        TooFewTokens(js, limit, less, junk, st');
      }
    }
  }

  /** So a JSON text parses exactly when the array has a slot for every value and key. */
  lemma ParsesIffRoom(pre: string, v: Json, post: string, limit: nat, junk: TokenType)
    requires IsWs(pre) && IsWs(post) && OkJson(v)
    ensures Parse(pre + Print(v) + post, limit, junk).0.Ok? <==> Count(v) <= limit
    ensures limit < Count(v) ==> Parse(pre + Print(v) + post, limit, junk).0 == Err(NoMem)
  {
    hide Run, Layout, Print, OkJson, Count;
    if Count(v) <= limit {
      ParsesJson(pre, v, post, limit, junk);
    } else {
      ParsesJson(pre, v, post, Count(v), junk);
      TooFewTokens(pre + Print(v) + post, Count(v), limit, junk, INIT);
    }
  }
}
