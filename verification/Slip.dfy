/**
 SLIP framing (RFC 1055), encoded and decoded in place, and the loop that drains received
 frames from a buffer.
 */
module Slip {
  import opened Bytes
  import opened Splice

  const END: byte := 0xC0
  const ESC: byte := 0xDB
  const END_REPLACE: byte := 0xDC
  const ESC_REPLACE: byte := 0xDD

  // ---- frames ----

  predicate Special(b: byte) {
    b == END || b == ESC
  }

  function EscapeByte(b: byte): (r: seq<byte>)
    ensures |r| == if Special(b) then 2 else 1
  {
    if b == END then [ESC, END_REPLACE] else if b == ESC then [ESC, ESC_REPLACE] else [b]
  }

  function Escape(p: seq<byte>): (r: seq<byte>)
    ensures |r| >= |p|
  {
    if p == [] then [] else Escape(p[..|p| - 1]) + EscapeByte(p[|p| - 1])
  }

  function Frame(p: seq<byte>): seq<byte> {
    [END] + Escape(p) + [END]
  }

  function Frames(ps: seq<seq<byte>>): seq<byte> {
    if ps == [] then [] else Frame(ps[0]) + Frames(ps[1..])
  }

  // ---- what the decoder makes of any bytes ----

  /** `used` bytes up to and with the first END, unless there is none. */
  datatype Scanned = Scanned(used: nat, text: seq<byte>, done: bool)

  function Unescape(b: byte): (r: seq<byte>)
    ensures |r| <= 1
  {
    if b == END_REPLACE then [END] else if b == ESC_REPLACE then [ESC] else []
  }

  function Scan(s: seq<byte>): (r: Scanned)
    ensures r.used <= |s| && |r.text| <= |s| && (r.done ==> |r.text| < r.used)
  {
    if s == [] then Scanned(0, [], false)
    else if s[0] == ESC then
      if |s| == 1 then Scanned(0, [], false)
      else
        var r := Scan(s[2..]);
        Scanned(2 + r.used, Unescape(s[1]) + r.text, r.done)
    else if s[0] == END then Scanned(1, [], true)
    else
      var r := Scan(s[1..]);
      Scanned(1 + r.used, [s[0]] + r.text, r.done)
  }

  predicate Whole(s: seq<byte>) {
    s != [] && s[0] == END
  }

  function Inside(s: seq<byte>): Scanned {
    Scan(if Whole(s) then s[1..] else s)
  }

  /** The number of bytes that a frame takes; 0 when it is not complete. */
  function Parsed(s: seq<byte>): (n: nat)
    ensures n <= |s|
  {
    if !Inside(s).done then 0 else Inside(s).used + if Whole(s) then 1 else 0
  }

  /** The payload to hand on; empty for nothing. */
  function Payload(s: seq<byte>): seq<byte> {
    if Inside(s).done && Whole(s) then Inside(s).text else []
  }

  // ---- lemmas about frames ----

  lemma {:induction false} EscapeFront(b: byte, p: seq<byte>)
    ensures Escape([b] + p) == EscapeByte(b) + Escape(p)
  {
    if p == [] {
      assert [b] + p == [b];
      assert Escape([b]) == Escape([]) + EscapeByte(b);
    } else {
      var q := p[..|p| - 1];
      EscapeFront(b, q);
      assert ([b] + p)[..|p|] == [b] + q;
      assert EscapeByte(b) + (Escape(q) + EscapeByte(p[|p| - 1]))
          == EscapeByte(b) + Escape(q) + EscapeByte(p[|p| - 1]);
    }
  }

  /** Bytes without END in which every ESC has its partner: what may lie between two ENDs. */
  ghost predicate Closed(s: seq<byte>) {
    s == []
    || (s[0] == ESC && |s| >= 2 && s[1] != END && Closed(s[2..]))
    || (!Special(s[0]) && Closed(s[1..]))
  }

  lemma ScanPlain(b: byte, t: seq<byte>)
    requires !Special(b)
    ensures Scan([b] + t) == Scanned(1 + Scan(t).used, [b] + Scan(t).text, Scan(t).done)
  {
    assert ([b] + t)[1..] == t;
  }

  lemma ScanPair(c: byte, t: seq<byte>)
    ensures Scan([ESC, c] + t) == Scanned(2 + Scan(t).used, Unescape(c) + Scan(t).text, Scan(t).done)
  {
    assert ([ESC, c] + t)[2..] == t;
  }

  lemma ScanEnd(t: seq<byte>)
    ensures Scan([END] + t) == Scanned(1, [], true)
  {
  }

  /** Behind a closed stretch the decoder stops at the END, whatever follows it. */
  lemma {:induction false} ScanClosed(s: seq<byte>, tail: seq<byte>)
    requires Closed(s)
    ensures Scan(s + [END] + tail) == Scanned(|s| + 1, Scan(s + [END]).text, true)
    decreases |s|
  {
    hide Scan, Unescape;
    if s == [] {
      ScanEnd(tail);
      ScanEnd([]);
      assert s + [END] + tail == [END] + tail && s + [END] == [END] + [];
    } else {
      var k := if s[0] == ESC then 2 else 1;
      var rest := s[k..];
      ScanClosed(rest, tail);
      assert s + [END] + tail == s[..k] + (rest + [END] + tail);
      assert s + [END] == s[..k] + (rest + [END]);
      if s[0] == ESC {
        assert s[..2] == [ESC, s[1]];
        ScanPair(s[1], rest + [END] + tail);
        ScanPair(s[1], rest + [END]);
      } else {
        assert s[..1] == [s[0]];
        ScanPlain(s[0], rest + [END] + tail);
        ScanPlain(s[0], rest + [END]);
      }
    }
  }

  lemma ClosedFront(b: byte, s: seq<byte>)
    requires Closed(s)
    ensures Closed(EscapeByte(b) + s)
  {
    if Special(b) {
      assert (EscapeByte(b) + s)[2..] == s;
    } else {
      assert (EscapeByte(b) + s)[1..] == s;
    }
  }

  lemma ScanEscaped(b: byte, t: seq<byte>)
    ensures Scan(EscapeByte(b) + t).text == [b] + Scan(t).text
  {
    hide Scan;
    if b == END {
      ScanPair(END_REPLACE, t);
    } else if b == ESC {
      ScanPair(ESC_REPLACE, t);
    } else {
      ScanPlain(b, t);
    }
  }

  /** The escaped payload is closed, and unescapes to the payload. */
  lemma {:induction false} EscapeClosed(p: seq<byte>)
    ensures Closed(Escape(p)) && Scan(Escape(p) + [END]).text == p
    decreases |p|
  {
    hide Escape, Closed, EscapeByte, Scan;
    if p == [] {
      NoEscape();
    } else {
      var b, q := p[0], p[1..];
      assert p == [b] + q;
      EscapeFront(b, q);
      EscapeClosed(q);
      ClosedFront(b, Escape(q));
      ScanEscaped(b, Escape(q) + [END]);
      assert EscapeByte(b) + (Escape(q) + [END]) == EscapeByte(b) + Escape(q) + [END];
    }
  }

  lemma NoEscape()
    ensures Escape([]) == [] && Closed([]) && Scan([] + [END]).text == []
  {
    assert [] + [END] == [END];
  }

  /** Any suffix of an escaped payload is closed, even one that cuts an escape in two. */
  lemma {:induction false} SuffixClosed(s: seq<byte>, k: nat)
    requires Closed(s) && k <= |s|
    requires forall i :: 0 <= i < |s| - 1 && s[i] == ESC ==> s[i + 1] != ESC
    ensures Closed(s[k..])
    decreases |s|
  {
    if k == 0 {
    } else if s[0] == ESC {
      if k == 1 {
        assert s[1..][1..] == s[2..];
      } else {
        SuffixClosed(s[2..], k - 2);
        assert s[2..][k - 2..] == s[k..];
      }
    } else {
      SuffixClosed(s[1..], k - 1);
      assert s[1..][k - 1..] == s[k..];
    }
  }

  lemma {:induction false} EscapesAreApart(p: seq<byte>)
    ensures forall i :: 0 <= i < |Escape(p)| - 1 && Escape(p)[i] == ESC ==> Escape(p)[i + 1] != ESC
    ensures p != [] ==> Escape(p)[|Escape(p)| - 1] != ESC
  {
    if p != [] {
      EscapesAreApart(p[..|p| - 1]);
    }
  }

  /** Decoding a frame, whatever follows it, gives its payload and its length. */
  lemma FrameDecodes(p: seq<byte>, tail: seq<byte>)
    ensures Parsed(Frame(p) + tail) == |Frame(p)| && Payload(Frame(p) + tail) == p
  {
    hide Scan, Escape, Closed;
    EscapeClosed(p);
    ScanClosed(Escape(p), tail);
    assert (Frame(p) + tail)[1..] == Escape(p) + [END] + tail;
  }

  /** A stretch without an END in front is passed over up to its END and dropped. */
  lemma FragmentDropped(s: seq<byte>, tail: seq<byte>)
    requires Closed(s) && s != []
    ensures Parsed(s + [END] + tail) == |s| + 1 && Payload(s + [END] + tail) == []
  {
    hide Scan;
    ScanClosed(s, tail);
    assert (s + [END] + tail)[0] == s[0] != END;
  }

  /** A lone END is taken for the start of an empty frame that ends where the next one starts. */
  lemma LoneEnd(p: seq<byte>, tail: seq<byte>)
    ensures Parsed([END] + Frame(p) + tail) == 2 && Payload([END] + Frame(p) + tail) == []
  {
    hide Escape;
    var s := [END] + Frame(p) + tail;
    assert s[1..][0] == END;
  }

  // ---- the drain loop ----

  /** The payloads that are handed on, one for each call of the sink. */
  function Delivered(s: seq<byte>): seq<seq<byte>>
    decreases |s|
  {
    if Parsed(s) == 0 then []
    else (if Payload(s) != [] then [Payload(s)] else []) + Delivered(s[Parsed(s)..])
  }

  /** What stays in the buffer, partly rewritten by the decoder. */
  function Remaining(s: seq<byte>): (r: seq<byte>)
    ensures |r| <= |s|
    decreases |s|
  {
    if Parsed(s) == 0 then Over(s, 0, Inside(s).text) else Remaining(s[Parsed(s)..])
  }

  /** Whole frames are all delivered, in order, and nothing stays behind. */
  lemma {:induction false} FramesDelivered(ps: seq<seq<byte>>)
    requires forall i :: 0 <= i < |ps| ==> ps[i] != []
    ensures Delivered(Frames(ps)) == ps && Remaining(Frames(ps)) == []
  {
    hide Escape, Scan, Frame, Payload, Parsed;
    if ps == [] {
      NothingThere();
    } else {
      var more := Frames(ps[1..]);
      FrameDecodes(ps[0], more);
      FrameNotEmpty(ps[0]);
      FramesDelivered(ps[1..]);
      assert (Frame(ps[0]) + more)[|Frame(ps[0])|..] == more;
      assert [ps[0]] + ps[1..] == ps;
    }
  }

  lemma NothingThere()
    ensures Parsed([]) == 0 && Delivered([]) == [] && Remaining([]) == []
  {
  }

  lemma FrameNotEmpty(p: seq<byte>)
    ensures |Frame(p)| >= 2
  {
  }

  /**
   The buffer starts with the rest of a frame whose beginning was lost. All later frames are
   delivered, unless only the final END is left of it: then the next one is lost as well.
   */
  lemma LaterFramesDelivered(p: seq<byte>, k: nat, ps: seq<seq<byte>>)
    requires k <= |Escape(p)| && forall i :: 0 <= i < |ps| ==> ps[i] != []
    ensures Delivered(Escape(p)[k..] + [END] + Frames(ps)) == ps <==> k < |Escape(p)| || ps == []
    ensures k == |Escape(p)| && ps != [] ==> Delivered(Escape(p)[k..] + [END] + Frames(ps)) == ps[1..]
    ensures k < |Escape(p)| || ps != [] ==> Remaining(Escape(p)[k..] + [END] + Frames(ps)) == []
  {
    hide Escape, Scan, Closed, Frame, Payload, Parsed, Remaining, Delivered;
    var cut := Escape(p)[k..];
    EscapeClosed(p);
    EscapesAreApart(p);
    SuffixClosed(Escape(p), k);
    if cut != [] {
      AfterFragment(cut, ps);
    } else {
      assert cut + [END] == [END];
      if ps == [] {
        assert [END] + Frames(ps) == [END];
        OnlyEnd();
      } else {
        AfterLoneEnd(ps);
      }
    }
  }

  lemma AfterFragment(cut: seq<byte>, ps: seq<seq<byte>>)
    requires Closed(cut) && cut != [] && forall i :: 0 <= i < |ps| ==> ps[i] != []
    ensures Delivered(cut + [END] + Frames(ps)) == ps && Remaining(cut + [END] + Frames(ps)) == []
  {
    hide Escape, Scan, Closed, Frame, Payload, Parsed, Frames;
    FragmentDropped(cut, Frames(ps));
    FramesDelivered(ps);
    var s := cut + [END] + Frames(ps);
    assert s[|cut| + 1..] == Frames(ps);
  }

  lemma OnlyEnd()
    ensures Delivered([END]) == []
  {
  }

  lemma AfterLoneEnd(ps: seq<seq<byte>>)
    requires ps != [] && forall i :: 0 <= i < |ps| ==> ps[i] != []
    ensures Delivered([END] + Frames(ps)) == ps[1..] && Remaining([END] + Frames(ps)) == []
    ensures ps[1..] != ps
  {
    hide Escape, Scan, Closed, Payload, Parsed, Frame, Frames, Delivered, Remaining;
    var p, more := ps[0], Frames(ps[1..]);
    var s := [END] + Frames(ps);
    LoneEnd(p, more);
    EscapeClosed(p);
    EscapeLength(p);
    AfterFragment(Escape(p), ps[1..]);
    FramesSplit(ps);
    Skip(s, Escape(p) + [END] + more);
    assert |ps[1..]| == |ps| - 1;
  }

  lemma FramesSplit(ps: seq<seq<byte>>)
    requires ps != []
    ensures var s := [END] + Frames(ps);
            s == [END] + Frame(ps[0]) + Frames(ps[1..]) && s[2..] == Escape(ps[0]) + [END] + Frames(ps[1..])
  {
    hide Escape;
    Regroup(Escape(ps[0]), Frames(ps[1..]));
  }

  lemma Regroup(e: seq<byte>, more: seq<byte>)
    ensures [END] + (([END] + e + [END]) + more) == [END] + ([END] + e + [END]) + more
    ensures ([END] + (([END] + e + [END]) + more))[2..] == e + [END] + more
  {
    var f := [END] + e + [END];
    assert ([END] + (f + more))[1..] == f + more;
    assert (f + more)[1..] == (e + [END]) + more by {
      assert f == [END] + (e + [END]);
    }
    assert ([END] + (f + more))[2..] == (f + more)[1..];
  }

  lemma Skip(s: seq<byte>, t: seq<byte>)
    requires Parsed(s) == 2 && Payload(s) == [] && s[2..] == t
    ensures Delivered(s) == Delivered(t) && Remaining(s) == Remaining(t)
  {
    hide Parsed, Payload;
  }

  lemma EscapeLength(p: seq<byte>)
    ensures p != [] ==> Escape(p) != []
  {
  }
}
