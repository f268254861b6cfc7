/**
 What the tokenizer takes for a string and for a primitive on any text, JSON or not, why it fails,
 and that it reads a C string.
 */
module JsmnScan {
  import opened JsmnSpec
  import opened JsmnLayout
  import opened JsmnJson

  // ---- strings ----

  /** Control characters are let through, too. */
  predicate Loose(c: StrChar) {
    match c
    case Plain(c) => c as int != 0 && c as int != 0x22 && c as int != 0x5C
    case _ => OkChar(c)
  }

  predicate AllLoose(cs: seq<StrChar>) {
    forall i :: 0 <= i < |cs| ==> Loose(cs[i])
  }

  /** A backslash that starts no escape: another character behind it, or no hexadecimal digit among the four. */
  predicate BadEscape(js: string, r: nat) {
    && r + 1 < |js| && js[r] as int == 0x5C && !EscapeChar(js[r + 1])
    && (js[r + 1] == 'u' ==> HexFails(js, r + 2, 4))
  }

  predicate HexDigits(js: string, p: nat, n: nat) {
    p + n <= |js| && forall i :: p <= i < p + n ==> HexChar(js[i])
  }

  /** Behind n hexadecimal digits comes something else; not the end of the text, which stops quietly. */
  predicate BadHex(js: string, p: nat, n: nat) {
    HexDigits(js, p, n) && p + n < |js| && js[p + n] != '\0' && !HexChar(js[p + n])
  }

  predicate HexFails(js: string, p: nat, n: nat) {
    exists k | 0 <= k < n :: BadHex(js, p, k)
  }

  predicate Prefix(js: string, p: nat, cs: seq<StrChar>, q: nat) {
    AllLoose(cs) && At(js, p, PrintChars(cs)) && q == p + |PrintChars(cs)|
  }

  lemma {:induction false} HexVerdict(js: string, p: nat, i: nat)
    requires i <= 4 && p <= |js|
    ensures match ScanHex(js, p, i)
            case Failed(e) =>
              e == Inval && HexFails(js, p, 4 - i)
            case Found(q) =>
              && q <= p + (4 - i) && HexDigits(js, p, q - p)
              && (q < p + (4 - i) ==> !More(js, q))
              && !HexFails(js, p, 4 - i)
    decreases 4 - i
  {
    CharsAt(js, p);
    if i < 4 && More(js, p) {
      if IsHex(js[p]) {
        HexVerdict(js, p + 1, i + 1);
        HexShift(js, p, i);
      } else {
        assert BadHex(js, p, 0);
      }
    }
  }

  lemma CharsAt(js: string, p: nat)
    ensures p < |js| ==> (IsHex(js[p]) <==> HexChar(js[p])) && (IsEscape(js[p]) <==> EscapeChar(js[p]))
  {
    if p < |js| {
      CharClasses(js[p]);
    }
  }

  lemma HexShift(js: string, p: nat, i: nat)
    requires i < 4 && p < |js| && HexChar(js[p])
    ensures HexFails(js, p + 1, 4 - (i + 1)) <==> HexFails(js, p, 4 - i)
  {
    var q := p + 1;
    if k :| 0 <= k < 4 - (i + 1) && BadHex(js, q, k) {
      assert BadHex(js, p, k + 1);
    }
    if k :| 0 <= k < 4 - i && BadHex(js, p, k) {
      assert BadHex(js, q, k - 1);
    }
  }

  /** The scan passes over loose characters. */
  lemma {:induction false} PassesOver(js: string, p: nat, cs: seq<StrChar>)
    requires AllLoose(cs) && At(js, p, PrintChars(cs))
    ensures ScanString(js, p) == ScanString(js, p + |PrintChars(cs)|)
    decreases |cs|
  {
    hide ScanString, PrintChar, Loose, At;
    if cs != [] {
      var c, rest := PrintChar(cs[0]), PrintChars(cs[1..]);
      AtSplit(js, p, c, rest);
      PassesOne(js, p, cs[0]);
      PassesOver(js, p + |c|, cs[1..]);
    }
  }

  lemma PassesOne(js: string, p: nat, c: StrChar)
    requires At(js, p, PrintChar(c)) && Loose(c)
    ensures ScanString(js, p) == ScanString(js, p + |PrintChar(c)|)
  {
    AtChar(js, p, PrintChar(c), 0);
    match c
    case Plain(_) =>
    case Escaped(_) => AtChar(js, p, PrintChar(c), 1);
    case Unicode(h0, h1, h2, h3) =>
      var s := PrintChar(c);
      AtChar(js, p, s, 1);
      AtChar(js, p, s, 2);
      AtChar(js, p, s, 3);
      AtChar(js, p, s, 4);
      AtChar(js, p, s, 5);
      hide ScanString;
      FourDigits(js, p + 2);
      UnicodeStep(js, p);
  }

  /** How far a string is well formed, and what stands there. */
  lemma {:induction false} StringVerdict(js: string, p: nat) returns (cs: seq<StrChar>, r: nat)
    requires p <= |js|
    ensures Prefix(js, p, cs, r)
    ensures match ScanString(js, p)
            case Found(q) => q == r && r < |js| && js[r] == '\"'
            case Failed(e) => (e == Inval && BadEscape(js, r)) || (e == Part && !BadEscape(js, r) && !Quoted(js, r))
    decreases |js| - p
  {
    hide ScanHex, Prefix, BadHex;
    cs, r := [], p;
    NothingPassed(js, p);
    if More(js, p) && js[p] == '\\' {
      if p + 1 < |js| {
        cs, r := EscapeVerdict(js, p);
      }
    } else if More(js, p) && js[p] != '\"' {
      cs, r := StringVerdict(js, p + 1);
      assert js[p..p + 1] == PrintChar(Plain(js[p]));
      cs := Longer(js, p, Plain(js[p]), cs, r);
    }
  }

  lemma NothingPassed(js: string, p: nat)
    requires p <= |js|
    ensures Prefix(js, p, [], p)
  {
  }

  lemma {:induction false} EscapeVerdict(js: string, p: nat) returns (cs: seq<StrChar>, r: nat)
    requires p + 1 < |js| && js[p] == '\\'
    ensures Prefix(js, p, cs, r)
    ensures match ScanString(js, p)
            case Found(q) => q == r && r < |js| && js[r] == '\"'
            case Failed(e) => (e == Inval && BadEscape(js, r)) || (e == Part && !BadEscape(js, r) && !Quoted(js, r))
    decreases |js| - p, 0
  {
    hide ScanHex, Prefix, BadHex;
    cs, r := [], p;
    NothingPassed(js, p);
    CharClasses(js[p + 1]);
    if IsEscape(js[p + 1]) {
      cs, r := StringVerdict(js, p + 2);
      assert js[p..p + 2] == PrintChar(Escaped(js[p + 1]));
      cs := Longer(js, p, Escaped(js[p + 1]), cs, r);
    } else if js[p + 1] == 'u' {
      HexVerdict(js, p + 2, 0);
      var h := ScanHex(js, p + 2, 0);
      if h.Found? && h.at == p + 6 {
        var c := Unicode(js[p + 2], js[p + 3], js[p + 4], js[p + 5]);
        cs, r := StringVerdict(js, p + 6);
        SixCharacters(js, p);
        cs := Longer(js, p, c, cs, r);
      }
    }
  }

  lemma SixCharacters(js: string, p: nat)
    requires p + 6 <= |js| && js[p] == '\\' && js[p + 1] == 'u'
    ensures At(js, p, PrintChar(Unicode(js[p + 2], js[p + 3], js[p + 4], js[p + 5])))
  {
  }

  predicate Quoted(js: string, r: nat) {
    r < |js| && js[r] as int == 0x22
  }

  lemma Longer(js: string, p: nat, c: StrChar, cs: seq<StrChar>, r: nat) returns (more: seq<StrChar>)
    requires Loose(c) && At(js, p, PrintChar(c)) && Prefix(js, p + |PrintChar(c)|, cs, r)
    ensures Prefix(js, p, more, r)
  {
    more := [c] + cs;
    assert PrintChars(more) == PrintChar(c) + PrintChars(cs);
    AtJoin(js, p, PrintChar(c), PrintChars(cs));
  }

  lemma AtJoin(js: string, p: nat, s: string, t: string)
    requires At(js, p, s) && At(js, p + |s|, t)
    ensures At(js, p, s + t)
  {
    assert js[p..p + |s + t|] == js[p..p + |s|] + js[p + |s|..p + |s| + |t|];
  }

  /**
   A string ends at q exactly if it is closed there and everything before is characters and
   escapes; it is invalid exactly if such a stretch leads to a bad escape; else it is unfinished.
   */
  lemma StringExactly(js: string, p: nat, q: nat)
    requires p <= |js|
    ensures ScanString(js, p) == Found(q) <==> Quoted(js, q) && exists cs :: Prefix(js, p, cs, q)
    ensures ScanString(js, p) == Failed(Inval) <==> exists cs, r :: Prefix(js, p, cs, r) && BadEscape(js, r)
    ensures ScanString(js, p) == Failed(Part) <==>
            forall cs, r :: Prefix(js, p, cs, r) ==> !Quoted(js, r) && !BadEscape(js, r)
    ensures ScanString(js, p).Failed? ==> ScanString(js, p).e != NoMem
  {
    hide ScanString, Prefix, BadEscape, Quoted;
    var cs0, r0 := StringVerdict(js, p);
    forall cs, r | Prefix(js, p, cs, r)
      ensures Quoted(js, r) ==> ScanString(js, p) == Found(r)
      ensures BadEscape(js, r) ==> ScanString(js, p) == Failed(Inval)
    {
      StopsHere(js, p, cs, r);
    }
    QuotedIs(js, r0);
  }

  lemma QuotedIs(js: string, r: nat)
    ensures Quoted(js, r) <==> r < |js| && js[r] == '\"'
  {
  }

  lemma StopsHere(js: string, p: nat, cs: seq<StrChar>, r: nat)
    requires Prefix(js, p, cs, r)
    ensures Quoted(js, r) ==> ScanString(js, p) == Found(r)
    ensures BadEscape(js, r) ==> ScanString(js, p) == Failed(Inval)
  {
    PassesOver(js, p, cs);
    hide ScanHex, BadHex, PrintChars;
    if BadEscape(js, r) {
      CharClasses(js[r + 1]);
      HexVerdict(js, r + 2, 0);
    }
  }

  // ---- primitives ----

  predicate AllPrim(js: string, p: nat, q: nat) {
    p <= q <= |js| && forall i :: p <= i < q ==> PrimChar(js[i])
  }

  /** The text ends here, or the value does. */
  predicate WordEnds(js: string, q: nat) {
    q >= |js| || js[q] as int == 0 || WsChar(js[q]) || Structural(js[q])
  }

  /** A primitive ends at q exactly if it is printable up to there and a delimiter follows; else it is invalid. */
  lemma {:induction false} PrimitiveExactly(js: string, p: nat, q: nat)
    requires p <= |js|
    ensures ScanPrimitive(js, p) == Found(q) <==> AllPrim(js, p, q) && WordEnds(js, q)
    ensures ScanPrimitive(js, p).Failed? ==> ScanPrimitive(js, p).e == Inval
    decreases |js| - p
  {
    if p < |js| {
      CharClasses(js[p]);
      if PrimChar(js[p]) && q > p {
        PrimitiveExactly(js, p + 1, q);
      }
      if PrimChar(js[p]) {
        PrimitiveExactly(js, p + 1, p + 1);
      }
    }
  }

  // ---- the text is a C string ----

  lemma {:induction false} HexNul(js: string, tail: string, p: nat, i: nat)
    requires i <= 4 && p <= |js|
    ensures ScanHex(js + "\0" + tail, p, i) == ScanHex(js, p, i)
    ensures ScanHex(js, p, i).Found? ==> ScanHex(js, p, i).at <= |js|
    decreases 4 - i
  {
    if i < 4 && More(js, p) && IsHex(js[p]) {
      HexNul(js, tail, p + 1, i + 1);
    }
  }

  lemma {:induction false} StringNul(js: string, tail: string, p: nat)
    requires p <= |js| && (js != "" ==> js[|js| - 1] != '\\')
    ensures ScanString(js + "\0" + tail, p) == ScanString(js, p)
    decreases |js| - p
  {
    hide ScanHex;
    if More(js, p) && js[p] != '\"' {
      if js[p] == '\\' {
        if IsEscape(js[p + 1]) {
          StringNul(js, tail, p + 2);
        } else if js[p + 1] == 'u' {
          HexNul(js, tail, p + 2, 0);
          if ScanHex(js, p + 2, 0).Found? {
            StringNul(js, tail, ScanHex(js, p + 2, 0).at);
          }
        }
      } else {
        StringNul(js, tail, p + 1);
      }
    }
  }

  lemma {:induction false} PrimitiveNul(js: string, tail: string, p: nat)
    requires p <= |js|
    ensures ScanPrimitive(js + "\0" + tail, p) == ScanPrimitive(js, p)
    decreases |js| - p
  {
    if More(js, p) {
      PrimitiveNul(js, tail, p + 1);
    }
  }

  lemma StepNul(js: string, tail: string, limit: nat, junk: TokenType, st: State)
    requires More(js, st.pos) && SuperOk(st) && (js[|js| - 1] != '\\')
    ensures More(js + "\0" + tail, st.pos)
    ensures Step(js + "\0" + tail, limit, junk, st) == Step(js, limit, junk, st)
  {
    hide ScanString, ScanPrimitive, LastOpen, LastOpenContainer;
    StringNul(js, tail, st.pos + 1);
    PrimitiveNul(js, tail, st.pos);
  }

  /** What follows a NUL is not looked at, unless a backslash stands in front of the NUL. */
  lemma {:induction false} NulEndsText(js: string, tail: string, limit: nat, junk: TokenType, st: State)
    requires SuperOk(st) && st.pos <= |js| && (js != "" ==> js[|js| - 1] != '\\')
    ensures Run(js + "\0" + tail, limit, junk, st) == Run(js, limit, junk, st)
    decreases |js| - st.pos
  {
    hide Step;
    if More(js, st.pos) {
      StepNul(js, tail, limit, junk, st);
      if Step(js, limit, junk, st).Go? {
        StepAdvances(js, limit, junk, st);
        NulEndsText(js, tail, limit, junk, Step(js, limit, junk, st).st);
      }
    }
  }

  // ---- why a text is refused ----

  /** A closing bracket that does not close the innermost open container. */
  predicate BadBracket(js: string, st: State)
    requires st.pos < |js|
  {
    && (js[st.pos] == '}' || js[st.pos] == ']')
    && var i := LastOpen(st.toks, |st.toks|);
       i == -1 || st.toks[i].typ != if js[st.pos] == '}' then Object else Array
  }

  /** A bracket, a quote, or what can only be a primitive. */
  predicate StartsToken(c: char) {
    !WsChar(c) && c != ':' && c != ',' && c != '}' && c != ']'
  }

  predicate StartsWord(c: char) {
    StartsToken(c) && c != '{' && c != '[' && c != '\"'
  }

  /** The state in which a run ended and what it says of the text. */
  ghost predicate Verdict(js: string, limit: nat, r: Result, st: State) {
    match r
    case Ok(n) => !More(js, st.pos) && LastOpen(st.toks, |st.toks|) == -1 && n == st.count
    case Err(Part) =>
      if More(js, st.pos) then js[st.pos] == '\"' && ScanString(js, st.pos + 1) == Failed(Part)
      else LastOpen(st.toks, |st.toks|) != -1
    case Err(Inval) =>
      && More(js, st.pos)
      && (BadBracket(js, st)
          || (js[st.pos] == '\"' && ScanString(js, st.pos + 1) == Failed(Inval))
          || (StartsWord(js[st.pos]) && ScanPrimitive(js, st.pos) == Failed(Inval)))
    case Err(NoMem) => More(js, st.pos) && |st.toks| >= limit && StartsToken(js[st.pos])
  }

  lemma StopVerdict(js: string, limit: nat, junk: TokenType, st: State)
    requires More(js, st.pos) && SuperOk(st) && Step(js, limit, junk, st).Stop?
    ensures Verdict(js, limit, Err(Step(js, limit, junk, st).e), st)
  {
    hide LastOpen, LastOpenContainer;
    CharClasses(js[st.pos]);
    StringExactly(js, st.pos + 1, 0);
    PrimitiveExactly(js, st.pos, 0);
    hide ScanString, ScanPrimitive;
  }

  /** Every run ends for the reason that its result names. */
  lemma {:induction false} RunVerdict(js: string, limit: nat, junk: TokenType, st: State)
    requires SuperOk(st)
    ensures Verdict(js, limit, Run(js, limit, junk, st).0, Run(js, limit, junk, st).1)
    decreases |js| - st.pos
  {
    hide Step, Verdict, ScanString, ScanPrimitive;
    if !More(js, st.pos) {
      EndVerdict(js, limit, st);
    } else if Step(js, limit, junk, st).Stop? {
      StopVerdict(js, limit, junk, st);
    } else {
      StepAdvances(js, limit, junk, st);
      RunVerdict(js, limit, junk, Step(js, limit, junk, st).st);
    }
  }

  lemma EndVerdict(js: string, limit: nat, st: State)
    requires !More(js, st.pos)
    ensures Verdict(js, limit, Final(st), st)
  {
  }
}
