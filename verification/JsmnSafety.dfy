/** What holds of the token array after every successful run, whatever the input was. */
module JsmnSafety {
  import opened JsmnSpec

  function Opening(t: TokenType): char {
    if t == Object then '{' else '['
  }

  function Closing(t: TokenType): char {
    if t == Object then '}' else ']'
  }

  /** A token marks what its type says, and lies in the text read so far. */
  ghost predicate Marks(js: string, pos: nat, t: Token) {
    && pos <= |js|
    && match t.typ
       case Object | Array =>
         && 0 <= t.start < pos && js[t.start] == Opening(t.typ)
         && (t.end == -1 || (t.start < t.end <= pos && js[t.end - 1] == Closing(t.typ)))
       case String => 1 <= t.start <= t.end < pos && js[t.start - 1] == '\"' && js[t.end] == '\"'
       case Primitive => 0 <= t.start < t.end <= pos
  }

  /** The span of b lies behind the span of a or, closed, inside it. */
  predicate Apart(a: Token, b: Token) {
    a.end != -1 ==> b.start >= a.end || (b.end != -1 && b.end <= a.end)
  }

  ghost predicate Laminar(toks: seq<Token>) {
    forall i, j :: 0 <= i < j < |toks| ==> toks[i].start < toks[j].start && Apart(toks[i], toks[j])
  }

  ghost predicate AllMark(js: string, pos: nat, toks: seq<Token>) {
    forall i :: 0 <= i < |toks| ==> Marks(js, pos, toks[i])
  }

  function SizeSum(toks: seq<Token>): nat {
    if toks == [] then 0 else SizeSum(toks[..|toks| - 1]) + toks[|toks| - 1].size
  }

  ghost predicate Inv(js: string, st: State) {
    && SuperOk(st)
    && st.pos <= |js|
    && st.count == |st.toks|
    && SizeSum(st.toks) + st.orphans == st.count
    && (st.super == -1 ==> LastOpen(st.toks, |st.toks|) == -1)
    && AllMark(js, st.pos, st.toks)
    && Laminar(st.toks)
  }

  // ---- bookkeeping ----

  lemma {:induction false} SumBump(toks: seq<Token>, super: int)
    requires -1 <= super < |toks|
    ensures SizeSum(Bump(toks, super)) == SizeSum(toks) + if super == -1 then 0 else 1
    decreases |toks|
  {
    if super >= 0 {
      var n := |toks| - 1;
      if super == n {
        assert Bump(toks, super)[..n] == toks[..n];
      } else {
        SumBump(toks[..n], super);
        assert Bump(toks, super)[..n] == Bump(toks[..n], super);
      }
    }
  }

  lemma SumAppend(toks: seq<Token>, t: Token)
    ensures SizeSum(toks + [t]) == SizeSum(toks) + t.size
  {
    assert (toks + [t])[..|toks|] == toks;
  }

  lemma {:induction false} SumClose(toks: seq<Token>, i: nat, end: nat)
    requires i < |toks|
    ensures SizeSum(Close(toks, i, end)) == SizeSum(toks)
    decreases |toks|
  {
    var n := |toks| - 1;
    if i == n {
      assert Close(toks, i, end)[..n] == toks[..n];
    } else {
      SumClose(toks[..n], i, end);
      assert Close(toks, i, end)[..n] == Close(toks[..n], i, end);
    }
  }

  /** Only spans and types matter to the search for the innermost open token. */
  lemma {:induction false} LastOpenSame(a: seq<Token>, b: seq<Token>, n: nat)
    requires n <= |a| && n <= |b|
    requires forall i :: 0 <= i < n ==> IsOpen(a[i]) == IsOpen(b[i])
    ensures LastOpen(a, n) == LastOpen(b, n)
    decreases n
  {
    if n > 0 {
      LastOpenSame(a, b, n - 1);
    }
  }

  lemma {:induction false} LastOpenAbove(toks: seq<Token>, m: nat, n: nat)
    requires m <= n <= |toks| && forall i :: m <= i < n ==> !IsOpen(toks[i])
    ensures LastOpen(toks, n) == LastOpen(toks, m)
    decreases n
  {
    if m < n {
      LastOpenAbove(toks, m, n - 1);
    }
  }

  lemma MarksLater(js: string, pos: nat, pos': nat, t: Token)
    requires Marks(js, pos, t) && pos <= pos' <= |js|
    ensures Marks(js, pos', t)
  {
  }

  // ---- every iteration keeps the invariant ----

  lemma MarksBounds(js: string, pos: nat, t: Token)
    requires Marks(js, pos, t)
    ensures 0 <= t.start < pos && t.end <= pos
  {
  }

  lemma AddMarks(js: string, pos: nat, toks: seq<Token>, super: int, t: Token, pos': nat)
    requires -1 <= super < |toks| && pos <= pos' <= |js|
    requires AllMark(js, pos, toks) && Marks(js, pos', t)
    ensures AllMark(js, pos', Bump(toks, super) + [t])
  {
    hide Marks;
    var r := Bump(toks, super) + [t];
    forall i | 0 <= i < |r|
      ensures Marks(js, pos', r[i])
    {
      if i < |toks| {
        MarksLater(js, pos, pos', toks[i]);
        MarksAnySize(js, pos', toks[i], r[i].size);
      }
    }
  }

  lemma MarksAnySize(js: string, pos: nat, t: Token, n: nat)
    requires Marks(js, pos, t)
    ensures Marks(js, pos, t.(size := n))
  {
  }

  lemma AddLaminar(js: string, pos: nat, toks: seq<Token>, super: int, t: Token)
    requires -1 <= super < |toks|
    requires AllMark(js, pos, toks) && Laminar(toks) && t.start >= pos
    ensures Laminar(Bump(toks, super) + [t])
  {
    hide Marks;
    var r := Bump(toks, super) + [t];
    forall i, j | 0 <= i < j < |r|
      ensures r[i].start < r[j].start && Apart(r[i], r[j])
    {
      if j == |toks| {
        MarksBounds(js, pos, toks[i]);
      } else {
        assert toks[i].start < toks[j].start && Apart(toks[i], toks[j]);
      }
    }
  }

  lemma AddKeeps(js: string, limit: nat, st: State, t: Token, pos: nat, super: int)
    requires Inv(js, st) && Add(st, limit, t, pos, super).Go? && t.size == 0
    requires st.pos <= pos <= |js| && t.start >= st.pos && Marks(js, pos, t)
    requires (super == st.super && !IsOpen(t)) || super == |st.toks|
    ensures Inv(js, Add(st, limit, t, pos, super).st)
  {
    hide Laminar, AllMark, Marks;
    var st' := Add(st, limit, t, pos, super).st;
    AddMarks(js, st.pos, st.toks, st.super, t, pos);
    AddLaminar(js, st.pos, st.toks, st.super, t);
    SumBump(st.toks, st.super);
    SumAppend(Bump(st.toks, st.super), t);
    if super == -1 {
      LastOpenSame(st.toks, st'.toks, |st.toks|);
    }
  }

  lemma CloseSpans(js: string, pos: nat, toks: seq<Token>, i: nat)
    requires i < |toks| && i == LastOpen(toks, |toks|) && pos < |js| && js[pos] == Closing(toks[i].typ)
    requires AllMark(js, pos, toks) && Laminar(toks)
    ensures IsContainer(toks[i].typ)
    ensures AllMark(js, pos + 1, Close(toks, i, pos + 1)) && Laminar(Close(toks, i, pos + 1))
  {
    var r := Close(toks, i, pos + 1);
    forall j | 0 <= j < |r|
      ensures Marks(js, pos + 1, r[j])
    {
      assert Marks(js, pos, toks[j]);
    }
    forall j, k | 0 <= j < k < |r|
      ensures r[j].start < r[k].start && Apart(r[j], r[k])
    {
      assert toks[j].start < toks[k].start && Apart(toks[j], toks[k]);
      assert Marks(js, pos, toks[k]) && Marks(js, pos, toks[j]);
    }
  }

  lemma CloseKeeps(js: string, st: State, typ: TokenType)
    requires Inv(js, st) && More(js, st.pos) && IsContainer(typ) && js[st.pos] == Closing(typ)
    requires CloseBracket(st, typ).Go?
    ensures Inv(js, CloseBracket(st, typ).st)
  {
    hide Laminar, AllMark, Marks;
    var i := LastOpen(st.toks, |st.toks|);
    CloseSpans(js, st.pos, st.toks, i);
    SumClose(st.toks, i, st.pos + 1);
    var toks := Close(st.toks, i, st.pos + 1);
    LastOpenAbove(toks, i + 1, |toks|);
  }

  lemma AllMarkLater(js: string, pos: nat, pos': nat, toks: seq<Token>)
    requires AllMark(js, pos, toks) && pos <= pos' <= |js|
    ensures AllMark(js, pos', toks)
  {
    forall i | 0 <= i < |toks|
      ensures Marks(js, pos', toks[i])
    {
      MarksLater(js, pos, pos', toks[i]);
    }
  }

  lemma NoTokensNoneOpen(st: State)
    requires SuperOk(st) && st.toks == []
    ensures LastOpen(st.toks, |st.toks|) == -1
  {
  }

  lemma StepKeeps(js: string, limit: nat, junk: TokenType, st: State)
    requires Inv(js, st) && More(js, st.pos) && Step(js, limit, junk, st).Go?
    ensures Inv(js, Step(js, limit, junk, st).st)
  {
    hide Laminar, AllMark, ScanString, ScanPrimitive, LastOpen, LastOpenContainer, SizeSum;
    StepAdvances(js, limit, junk, st);
    var c, pos := js[st.pos], st.pos;
    if c == '{' || c == '[' {
      AddKeeps(js, limit, st, Token(if c == '{' then Object else Array, pos, -1, 0), pos + 1, |st.toks|);
    } else if c == '}' || c == ']' {
      CloseKeeps(js, st, if c == '}' then Object else Array);
    } else if c == '\"' {
      var q := ScanString(js, pos + 1).at;
      AddKeeps(js, limit, st, Token(String, pos + 1, q, 0), q + 1, st.super);
    } else if IsSpace(c) || c == ':' || c == ',' {
      AllMarkLater(js, pos, pos + 1, st.toks);
      if st.toks == [] {
        NoTokensNoneOpen(st);
      }
    } else {
      var q := ScanPrimitive(js, pos).at;
      AddKeeps(js, limit, st, Token(Primitive, pos, q, 0), q, st.super);
    }
  }

  lemma {:induction false} RunKeeps(js: string, limit: nat, junk: TokenType, st: State)
    requires Inv(js, st)
    ensures Inv(js, Run(js, limit, junk, st).1)
    ensures Run(js, limit, junk, st).0.Ok? ==> Run(js, limit, junk, st).0 == Final(Run(js, limit, junk, st).1)
    decreases |js| - st.pos
  {
    hide Inv, Step;
    assert SuperOk(st) by { InvSuper(js, st); }
    if More(js, st.pos) && Step(js, limit, junk, st).Go? {
      StepAdvances(js, limit, junk, st);
      StepKeeps(js, limit, junk, st);
      RunKeeps(js, limit, junk, Step(js, limit, junk, st).st);
    }
  }

  lemma InvSuper(js: string, st: State)
    requires Inv(js, st)
    ensures SuperOk(st)
  {
  }

  lemma InitInv(js: string)
    ensures Inv(js, INIT)
  {
  }

  // ---- main results ----

  /**
   On every input on which jsmn_parse succeeds: it returns the number of tokens; starts strictly
   increase; any two spans are disjoint or nested; every container is closed by its own kind of
   bracket; and the sizes add up to the tokens that were created under another one.
   */
  lemma ParsedTokens(js: string, limit: nat, junk: TokenType)
    requires Parse(js, limit, junk).0.Ok?
    ensures var (r, st) := Parse(js, limit, junk); var toks := st.toks;
            && r.n == |toks|
            && SizeSum(toks) + st.orphans == |toks|
            && (forall i :: 0 <= i < |toks| ==> Marks(js, |js|, toks[i]) && toks[i].end != -1)
            && (forall i, j :: 0 <= i < j < |toks| ==>
                  && toks[i].start < toks[j].start
                  && (toks[j].start >= toks[i].end || toks[j].end <= toks[i].end))
  {
    hide Run, SizeSum;
    InitInv(js);
    RunKeeps(js, limit, junk, INIT);
    var st := Parse(js, limit, junk).1;
    AllMarkLater(js, st.pos, |js|, st.toks);
    assert forall i :: 0 <= i < |st.toks| ==> !IsOpen(st.toks[i]);
    forall i | 0 <= i < |st.toks|
      ensures st.toks[i].end != -1
    {
      assert Marks(js, |js|, st.toks[i]);
    }
    forall i, j | 0 <= i < j < |st.toks|
      ensures st.toks[i].start < st.toks[j].start
      ensures st.toks[j].start >= st.toks[i].end || st.toks[j].end <= st.toks[i].end
    {
      assert Apart(st.toks[i], st.toks[j]);
    }
  }

  lemma NoneOpenNoContainer(toks: seq<Token>, n: nat)
    requires n <= |toks| && forall i :: 0 <= i < n ==> !IsOpen(toks[i])
    ensures LastOpenContainer(toks, n) == -1
  {
  }

  /** The word in front of the token array that a comma at depth 0 reads never matters. */
  lemma {:induction false} JunkIsHarmless(js: string, limit: nat, junk: TokenType, junk': TokenType, st: State)
    requires Inv(js, st)
    ensures Run(js, limit, junk, st) == Run(js, limit, junk', st)
    decreases |js| - st.pos
  {
    if More(js, st.pos) {
      CommaIgnoresJunk(st, junk, junk');
      hide Inv, LastOpen, LastOpenContainer, ScanString, ScanPrimitive, Comma;
      assert SuperOk(st) by { InvSuper(js, st); }
      assert Step(js, limit, junk, st) == Step(js, limit, junk', st);
      if Step(js, limit, junk, st).Go? {
        StepAdvances(js, limit, junk, st);
        StepKeeps(js, limit, junk, st);
        JunkIsHarmless(js, limit, junk, junk', Step(js, limit, junk, st).st);
      }
    }
  }

  lemma CommaIgnoresJunk(st: State, junk: TokenType, junk': TokenType)
    requires SuperOk(st) && (st.super == -1 ==> LastOpen(st.toks, |st.toks|) == -1)
    ensures Comma(st, junk) == Comma(st, junk')
  {
    if st.super == -1 {
      assert forall i :: 0 <= i < |st.toks| ==> !IsOpen(st.toks[i]);
      NoneOpenNoContainer(st.toks, |st.toks|);
    }
  }
}
