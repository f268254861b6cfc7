/** The functions of jsmn.c, working on the token array in place. */
module Jsmn {
  import opened JsmnSpec
  import opened JsmnSafety

  datatype Status = Done | Fail(e: Error)

  class Parser {
    const tokens: array<Token>
    var pos: nat
    var toknext: nat
    var toksuper: int

    /** jsmn_init. */
    constructor (tokens: array<Token>)
      ensures this.tokens == tokens && pos == 0 && toknext == 0 && toksuper == -1
    {
      this.tokens := tokens;
      pos, toknext, toksuper := 0, 0, -1;
    }

    /** The state of the main loop that the fields stand for. */
    ghost function Abs(count: nat, orphans: nat): State
      reads this, tokens
      requires toknext <= tokens.Length
    {
      State(pos, tokens[..toknext], toksuper, count, orphans)
    }

    ghost predicate Valid()
      reads this, tokens
    {
      toknext <= tokens.Length && -1 <= toksuper < toknext
    }

    /** jsmn_alloc_token: -1 stands for NULL. */
    method AllocToken() returns (i: int)
      requires Valid()
      modifies this`toknext, tokens
      ensures old(toknext) >= tokens.Length ==> i == -1 && toknext == old(toknext) && tokens[..] == old(tokens[..])
      ensures old(toknext) < tokens.Length ==>
                i == old(toknext) && toknext == i + 1 && Valid()
                && tokens[i] == old(tokens[i]).(start := -1, end := -1, size := 0) && tokens[..i] == old(tokens[..i])
    {
      if toknext >= tokens.Length {
        return -1;
      }
      i := toknext;
      toknext := toknext + 1;
      tokens[i] := tokens[i].(start := -1, end := -1, size := 0);
    }

    /** jsmn_fill_token. */
    method FillToken(i: nat, typ: TokenType, start: int, end: int)
      requires i < tokens.Length
      modifies tokens
      ensures tokens[i] == Token(typ, start, end, 0) && tokens[..i] == old(tokens[..i])
    {
      tokens[i] := tokens[i].(typ := typ);
      tokens[i] := tokens[i].(start := start);
      tokens[i] := tokens[i].(end := end);
      tokens[i] := tokens[i].(size := 0);
    }

    /** jsmn_parse_primitive: leaves pos on the last character of the primitive. */
    method ParsePrimitive(js: string) returns (r: Status)
      requires Valid() && More(js, pos) && !EndsPrimitive(js[pos])
      modifies this`pos, this`toknext, tokens
      ensures Valid()
      ensures match ScanPrimitive(js, old(pos))
              case Failed(e) => r == Fail(e) && Abs(0, 0) == old(Abs(0, 0))
              case Found(q) =>
                if old(toknext) >= tokens.Length then r == Fail(NoMem) && Abs(0, 0) == old(Abs(0, 0))
                else
                  && r == Done && pos + 1 == q && toknext == old(toknext) + 1
                  && tokens[..toknext] == old(tokens[..toknext]) + [Token(Primitive, old(pos), q, 0)]
    {
      var start := pos;
      while More(js, pos) && !EndsPrimitive(js[pos])
        invariant start <= pos <= |js| && (pos == start ==> More(js, pos) && !EndsPrimitive(js[pos]))
        invariant ScanPrimitive(js, pos) == ScanPrimitive(js, start)
        invariant Valid() && toknext == old(toknext) && Abs(0, 0) == old(Abs(0, 0)).(pos := pos)
        decreases |js| - pos
      {
        if js[pos] < ' ' || js[pos] >= 127 as char {
          pos := start;
          return Fail(Inval);
        }
        pos := pos + 1;
      }
      var i := AllocToken();
      if i == -1 {
        assert tokens[..toknext] == tokens[..][..toknext];
        pos := start;
        return Fail(NoMem);
      }
      FillToken(i, Primitive, start, pos);
      assert tokens[..toknext] == tokens[..i] + [tokens[i]];
      pos := pos - 1;
      r := Done;
    }

    /** The loop over the digits after backslash u; pos ends behind them. */
    method SkipHex(js: string) returns (ok: bool)
      modifies this`pos
      ensures match ScanHex(js, old(pos), 0)
              case Failed(_) => !ok
              case Found(q) => ok && pos == q
    {
      var i := 0;
      while i < 4 && More(js, pos)
        invariant 0 <= i <= 4 && old(pos) <= pos && ScanHex(js, pos, i) == ScanHex(js, old(pos), 0)
      {
        if !IsHex(js[pos]) {
          return false;
        }
        pos := pos + 1;
        i := i + 1;
      }
      ok := true;
    }

    /** jsmn_parse_string: leaves pos on the closing quote. */
    method ParseString(js: string) returns (r: Status)
      requires Valid() && More(js, pos)
      modifies this`pos, this`toknext, tokens
      ensures Valid()
      ensures match ScanString(js, old(pos) + 1)
              case Failed(e) => r == Fail(e) && Abs(0, 0) == old(Abs(0, 0))
              case Found(q) =>
                if old(toknext) >= tokens.Length then r == Fail(NoMem) && Abs(0, 0) == old(Abs(0, 0))
                else
                  && r == Done && pos == q && toknext == old(toknext) + 1
                  && tokens[..toknext] == old(tokens[..toknext]) + [Token(String, old(pos) + 1, q, 0)]
    {
      var start := pos;
      pos := pos + 1;
      while More(js, pos)
        invariant start < pos && ScanString(js, pos) == ScanString(js, start + 1)
        invariant Valid() && toknext == old(toknext) && Abs(0, 0) == old(Abs(0, 0)).(pos := pos)
        decreases |js| - pos
      {
        var c := js[pos];
        if c == '\"' {
          var i := AllocToken();
          if i == -1 {
            assert tokens[..toknext] == tokens[..][..toknext];
            pos := start;
            return Fail(NoMem);
          }
          FillToken(i, String, start + 1, pos);
          assert tokens[..toknext] == tokens[..i] + [tokens[i]];
          return Done;
        }
        if c == '\\' && pos + 1 < |js| {
          pos := pos + 1;
          if IsEscape(js[pos]) {
          } else if js[pos] == 'u' {
            pos := pos + 1;
            var ok := SkipHex(js);
            if !ok {
              pos := start;
              return Fail(Inval);
            }
            pos := pos - 1;
          } else {
            pos := start;
            return Fail(Inval);
          }
        }
        pos := pos + 1;
      }
      pos := start;
      r := Fail(Part);
    }

    /** Both loops that look for an open token backwards. */
    method FindOpen(from: nat) returns (i: int)
      requires from <= tokens.Length
      ensures i == LastOpen(tokens[..], from)
    {
      i := from - 1;
      while i >= 0
        invariant -1 <= i < from && LastOpen(tokens[..], i + 1) == LastOpen(tokens[..], from)
      {
        if tokens[i].start != -1 && tokens[i].end == -1 {
          return;
        }
        i := i - 1;
      }
    }

    method BumpSuper()
      requires Valid()
      modifies tokens
      ensures Valid() && tokens[..toknext] == Bump(old(tokens[..toknext]), toksuper)
    {
      if toksuper != -1 {
        tokens[toksuper] := tokens[toksuper].(size := tokens[toksuper].size + 1);
      }
    }

    /** The case of a quote. */
    method TakeString(js: string) returns (e: Status)
      requires Valid() && More(js, pos)
      modifies this`pos, this`toknext, tokens
      ensures Valid()
      ensures match ScanString(js, old(pos) + 1)
              case Failed(x) => e == Fail(x)
              case Found(q) =>
                if old(toknext) >= tokens.Length then e == Fail(NoMem)
                else
                  && e == Done && pos == q
                  && tokens[..toknext] == Bump(old(tokens[..toknext]), toksuper) + [Token(String, old(pos) + 1, q, 0)]
    {
      hide ScanString, Bump;
      ghost var before := tokens[..toknext];
      e := ParseString(js);
      if e == Done {
        BumpFront(tokens[..toknext], before, tokens[toknext - 1], toksuper);
        BumpSuper();
      }
    }

    /** The case of any other character. */
    method TakePrimitive(js: string) returns (e: Status)
      requires Valid() && More(js, pos) && !EndsPrimitive(js[pos])
      modifies this`pos, this`toknext, tokens
      ensures Valid()
      ensures match ScanPrimitive(js, old(pos))
              case Failed(x) => e == Fail(x)
              case Found(q) =>
                if old(toknext) >= tokens.Length then e == Fail(NoMem)
                else
                  && e == Done && pos + 1 == q
                  && tokens[..toknext] == Bump(old(tokens[..toknext]), toksuper) + [Token(Primitive, old(pos), q, 0)]
    {
      hide ScanPrimitive, Bump;
      ghost var before := tokens[..toknext];
      e := ParsePrimitive(js);
      if e == Done {
        BumpFront(tokens[..toknext], before, tokens[toknext - 1], toksuper);
        BumpSuper();
      }
    }

    /** The case of an opening bracket; pos stays on it. */
    method OpenBracket(typ: TokenType) returns (ok: bool)
      requires Valid()
      modifies this, tokens
      ensures Valid() && ok == (old(toknext) < tokens.Length)
      ensures ok ==> toknext == old(toknext) + 1 && toksuper == old(toknext) && pos == old(pos)
      ensures ok ==> tokens[..toknext] == Bump(old(tokens[..toknext]), old(toksuper)) + [Token(typ, pos, -1, 0)]
    {
      hide Bump;
      ghost var before := tokens[..toknext];
      var i := AllocToken();
      if i == -1 {
        return false;
      }
      BumpFront(tokens[..toknext], before, tokens[i], toksuper);
      assert tokens[..toknext] == tokens[..i] + [tokens[i]];
      BumpSuper();
      ghost var bumped := tokens[..toknext];
      tokens[i] := tokens[i].(typ := typ);
      tokens[i] := tokens[i].(start := pos);
      assert tokens[..toknext] == bumped[..i] + [tokens[i]];
      toksuper := toknext - 1;
      ok := true;
    }

    lemma BumpFront(toks: seq<Token>, front: seq<Token>, t: Token, super: int)
      requires toks == front + [t] && -1 <= super < |front|
      ensures Bump(toks, super) == Bump(front, super) + [t]
    {
    }

    /** The case of a closing bracket: both backward scans. */
    method CloseBracket(typ: TokenType) returns (ok: bool)
      requires Valid()
      modifies this, tokens
      ensures Valid()
      ensures match JsmnSpec.CloseBracket(old(Abs(0, 0)), typ)
              case Stop(e) => !ok && e == Inval && Abs(0, 0) == old(Abs(0, 0))
              case Go(st) => ok && Abs(0, 0) == st.(pos := old(pos))
    {
      hide LastOpen;
      ghost var a := tokens[..toknext];
      var i := FindOpen(toknext);
      LastOpenSame(tokens[..], a, toknext);
      if i == -1 || tokens[i].typ != typ {
        return false;
      }
      toksuper := -1;
      tokens[i] := tokens[i].(end := pos + 1);
      assert tokens[..toknext] == Close(a, i, pos + 1);
      var j := FindOpen(i + 1);
      LastOpenSame(tokens[..], tokens[..toknext], i + 1);
      if j >= 0 {
        toksuper := j;
      }
      ok := true;
    }

    /** The case of a comma; `junk` is the type read in front of the array at depth 0. */
    method Comma(junk: TokenType)
      requires Valid()
      modifies this`toksuper
      ensures Valid() && JsmnSpec.Comma(old(Abs(0, 0)), junk) == Go(Abs(0, 0).(pos := pos + 1))
    {
      hide LastOpenContainer;
      var typ := if toksuper == -1 then junk else tokens[toksuper].typ;
      if typ != Array && typ != Object {
        var i := toknext - 1;
        ghost var a := tokens[..toknext];
        while i >= 0
          invariant -1 <= i < toknext && toksuper == old(toksuper)
          invariant LastOpenContainer(a, i + 1) == LastOpenContainer(a, toknext)
        {
          ContainerStep(a, i);
          if tokens[i].typ == Array || tokens[i].typ == Object {
            if tokens[i].start != -1 && tokens[i].end == -1 {
              toksuper := i;
              break;
            }
          }
          i := i - 1;
        }
      }
    }

    lemma ContainerStep(a: seq<Token>, i: nat)
      requires i < |a|
      ensures LastOpenContainer(a, i + 1) ==
              if IsContainer(a[i].typ) && IsOpen(a[i]) then i else LastOpenContainer(a, i)
    {
    }

    /** jsmn_parse on a fresh parser: the result and the tokens are those of the specification. */
    method Parse(js: string, junk: TokenType) returns (r: Result)
      requires pos == 0 && toknext == 0 && toksuper == -1
      modifies this, tokens
      ensures r == JsmnSpec.Parse(js, tokens.Length, junk).0
      ensures r.Ok? ==> toknext <= tokens.Length && tokens[..toknext] == JsmnSpec.Parse(js, tokens.Length, junk).1.toks
    {
      hide Run, ScanString, ScanPrimitive, LastOpen, LastOpenContainer, Bump;
      var count := 0;
      ghost var orphans := 0;
      ghost var limit := tokens.Length;
      assert Abs(0, 0) == INIT;
      while More(js, pos)
        invariant Valid() && pos <= |js|
        invariant Run(js, limit, junk, Abs(count, orphans)) == JsmnSpec.Parse(js, limit, junk)
        decreases |js| - pos
      {
        ghost var st := Abs(count, orphans);
        RunStep(js, limit, junk, st);
        var e, added := Iterate(js, junk, count, orphans);
        if e.Fail? {
          return Err(e.e);
        }
        StepAdvances(js, limit, junk, st);
        orphans := Step(js, limit, junk, st).st.orphans;
        count := count + added;
        pos := pos + 1;
      }
      RunEnds(js, limit, junk, Abs(count, orphans));
      var i := FindOpen(toknext);
      LastOpenSame(tokens[..], tokens[..toknext], toknext);
      r := if i >= 0 then Err(Part) else Ok(count);
    }

    /** One pass of the main loop; pos is advanced by the loop itself. */
    method Iterate(js: string, junk: TokenType, ghost count: nat, ghost orphans: nat) returns (e: Status, added: nat)
      requires Valid() && More(js, pos)
      modifies this, tokens
      ensures match Step(js, tokens.Length, junk, old(Abs(count, orphans)))
              case Stop(x) => e == Fail(x)
              case Go(st) =>
                && e == Done && Valid() && pos + 1 == st.pos && toksuper == st.super
                && tokens[..toknext] == st.toks && st.count == count + added
    {
      hide Step;
      var c := js[pos];
      if c == '{' || c == '[' || c == '}' || c == ']' {
        e, added := IterateBracket(js, junk, count, orphans);
      } else {
        e, added := IterateOther(js, junk, count, orphans);
      }
    }

    method IterateBracket(js: string, junk: TokenType, ghost count: nat, ghost orphans: nat)
        returns (e: Status, added: nat)
      requires Valid() && More(js, pos) && js[pos] in "{[}]"
      modifies this, tokens
      ensures match Step(js, tokens.Length, junk, old(Abs(count, orphans)))
              case Stop(x) => e == Fail(x)
              case Go(st) =>
                && e == Done && Valid() && pos + 1 == st.pos && toksuper == st.super
                && tokens[..toknext] == st.toks && st.count == count + added
    {
      hide LastOpen, Bump;
      e, added := Done, 0;
      var c := js[pos];
      if c == '{' || c == '[' {
        added := 1;
        var ok := OpenBracket(if c == '{' then Object else Array);
        if !ok {
          e := Fail(NoMem);
        }
      } else {
        var ok := CloseBracket(if c == '}' then Object else Array);
        if !ok {
          e := Fail(Inval);
        }
      }
    }

    method IterateOther(js: string, junk: TokenType, ghost count: nat, ghost orphans: nat)
        returns (e: Status, added: nat)
      requires Valid() && More(js, pos) && js[pos] !in "{[}]"
      modifies this, tokens
      ensures match Step(js, tokens.Length, junk, old(Abs(count, orphans)))
              case Stop(x) => e == Fail(x)
              case Go(st) =>
                && e == Done && Valid() && pos + 1 == st.pos && toksuper == st.super
                && tokens[..toknext] == st.toks && st.count == count + added
    {
      hide ScanString, ScanPrimitive, LastOpen, LastOpenContainer, Bump;
      e, added := Done, 0;
      var c := js[pos];
      if c == '\"' {
        added := 1;
        e := TakeString(js);
      } else if IsSpace(c) {
      } else if c == ':' {
        toksuper := toknext - 1;
      } else if c == ',' {
        Comma(junk);
      } else {
        added := 1;
        e := TakePrimitive(js);
      }
    }
  }

  lemma RunStep(js: string, limit: nat, junk: TokenType, st: State)
    requires SuperOk(st) && More(js, st.pos)
    ensures Step(js, limit, junk, st).Stop? ==> Run(js, limit, junk, st) == (Err(Step(js, limit, junk, st).e), st)
    ensures Step(js, limit, junk, st).Go? ==>
              SuperOk(Step(js, limit, junk, st).st)
              && Run(js, limit, junk, st) == Run(js, limit, junk, Step(js, limit, junk, st).st)
  {
    hide Step;
    if Step(js, limit, junk, st).Go? {
      StepAdvances(js, limit, junk, st);
    }
  }

  lemma RunEnds(js: string, limit: nat, junk: TokenType, st: State)
    requires SuperOk(st) && !More(js, st.pos)
    ensures Run(js, limit, junk, st) == (Final(st), st)
  {
  }
}
