/** The SLIP functions on a buffer, in place, and the loop that drains received frames. */
module SlipInline {
  import opened Bytes
  import opened Slip
  import opened Splice

  lemma EscapeStep(p: seq<byte>, i: nat)
    requires i < |p|
    ensures Escape(p[..i + 1]) == Escape(p[..i]) + EscapeByte(p[i])
  {
    assert p[..i + 1][..i] == p[..i];
  }

  lemma {:induction false} EscapePrefix(p: seq<byte>, i: nat)
    requires i <= |p|
    ensures Escape(p[..i]) <= Escape(p)
    decreases |p|
  {
    if i == |p| {
      assert p[..i] == p;
    } else {
      EscapePrefix(p[..|p| - 1], i);
      assert p[..|p| - 1][..i] == p[..i];
    }
  }

  lemma {:induction false} NoEscapes(p: seq<byte>)
    requires |Escape(p)| == |p|
    ensures Escape(p) == p
    decreases |p|
  {
    if p != [] {
      NoEscapes(p[..|p| - 1]);
    }
  }

  /** The escaped rest of the payload and the END, as the backward loop has written them. */
  ghost function Written(p: seq<byte>, i: nat): (r: seq<byte>)
    requires i <= |p|
  {
    EscapePrefix(p, i);
    Escape(p)[|Escape(p[..i])|..] + [END]
  }

  lemma WrittenStep(p: seq<byte>, i: nat)
    requires i < |p|
    ensures Written(p, i) == EscapeByte(p[i]) + Written(p, i + 1)
  {
    hide Escape;
    EscapeStep(p, i);
    EscapePrefix(p, i + 1);
    var e, n := Escape(p), |Escape(p[..i])|;
    var k := n + |EscapeByte(p[i])|;
    assert e[..k] == Escape(p[..i]) + EscapeByte(p[i]);
    assert e[n..k] == EscapeByte(p[i]);
    assert e[n..] == e[n..k] + e[k..];
  }

  /** The size of the frame, counted before anything is written. */
  method FrameSize(buf: array<byte>, dst: nat, len: nat) returns (size: nat)
    requires dst + len <= buf.Length
    ensures size == |Frame(buf[dst..dst + len])|
  {
    hide Escape;
    ghost var p := buf[dst..dst + len];
    assert p[..0] == [];
    EscapeEmpty();
    size := 2;
    var from := dst;
    while from < dst + len
      invariant dst <= from <= dst + len
      invariant size == 2 + |Escape(p[..from - dst])|
    {
      EscapeStep(p, from - dst);
      if buf[from] == END || buf[from] == ESC {
        size := size + 1;
      }
      from, size := from + 1, size + 1;
    }
    assert p[..len] == p;
  }

  lemma EscapeEmpty()
    ensures Escape([]) == []
  {
  }

  /**
   Encodes len bytes where they lie; the frame grows to the right. Without special bytes they
   move by one, otherwise the loop writes backwards and never reaches a byte it still has to read.
   */
  method EncodeInline(buf: array<byte>, dst: nat, len: nat) returns (size: nat)
    requires dst + len <= buf.Length
    requires len > 0 ==> dst + |Frame(buf[dst..dst + len])| <= buf.Length
    modifies buf
    ensures len == 0 ==> size == 0 && buf[..] == old(buf[..])
    ensures len > 0 ==>
              && size == |Frame(old(buf[dst..dst + len]))|
              && buf[..] == Over(old(buf[..]), dst, Frame(old(buf[dst..dst + len])))
  {
    if len == 0 {
      return 0;
    }
    ghost var p: seq<byte> := buf[dst..dst + len];
    size := FrameSize(buf, dst, len);
    if size == len + 2 {
      Unescaped(p);
      Shift(buf, dst, len);
      return;
    }
    Backwards(buf, dst, len, size);
  }

  lemma Unescaped(p: seq<byte>)
    requires |Frame(p)| == |p| + 2
    ensures Frame(p) == [END] + p + [END]
  {
    NoEscapes(p);
  }

  /** memmove by one byte, between two ENDs. */
  method Shift(buf: array<byte>, dst: nat, len: nat)
    requires dst + len + 2 <= buf.Length
    modifies buf
    ensures buf[..] == Over(old(buf[..]), dst, [END] + old(buf[dst..dst + len]) + [END])
  {
    forall i | 0 <= i < len {
      buf[dst + 1 + i] := buf[dst + i];
    }
    buf[dst] := END;
    buf[dst + len + 1] := END;
  }

  /** The bytes for one byte of the payload, the last one first. */
  method PutBackwards(buf: array<byte>, to: nat, b: byte) returns (to': int)
    requires to < buf.Length && to + 1 >= |EscapeByte(b)|
    modifies buf
    ensures to' == to - |EscapeByte(b)|
    ensures buf[..] == Over(old(buf[..]), to' + 1, EscapeByte(b))
  {
    to' := to;
    if b == END {
      buf[to'] := END_REPLACE;
      to' := to' - 1;
      buf[to'] := ESC;
      to' := to' - 1;
    } else if b == ESC {
      buf[to'] := ESC_REPLACE;
      to' := to' - 1;
      buf[to'] := ESC;
      to' := to' - 1;
    } else {
      buf[to'] := b;
      to' := to' - 1;
    }
  }

  method Backwards(buf: array<byte>, dst: nat, len: nat, size: nat)
    requires len > 0 && dst + size <= buf.Length && dst + len <= buf.Length
    requires size == |Frame(buf[dst..dst + len])|
    modifies buf
    ensures buf[..] == Over(old(buf[..]), dst, Frame(old(buf[dst..dst + len])))
  {
    hide Escape, Written, Frame, Over, EscapeByte;
    ghost var m: seq<byte> := buf[..];
    ghost var p: seq<byte> := buf[dst..dst + len];
    FrameLength(p);
    WrittenLast(p);
    var to: int := dst + size - 1;
    EndAt(m, dst + size - 1);
    buf[to] := END;
    to := to - 1;
    var from: int := dst + len - 1;
    while from >= dst
      invariant dst - 1 <= from < dst + len
      invariant to == dst + |Escape(p[..from + 1 - dst])|
      invariant to + 1 + |Written(p, from + 1 - dst)| == dst + size
      invariant buf[..] == Over(m, to + 1, Written(p, from + 1 - dst))
      decreases from
    {
      ghost var i: nat := from - dst;
      EscapeStep(p, i);
      WrittenStep(p, i);
      OverAt(m, to + 1, Written(p, i + 1), from);
      assert buf[from] == buf[..][from] == p[i];
      OverThen(m, to + 1 - |EscapeByte(p[i])|, EscapeByte(p[i]), Written(p, i + 1));
      to := PutBackwards(buf, to, buf[from]);
      from := from - 1;
    }
    WrittenFirst(p);
    OverThen(m, dst, [END], Written(p, 0));
    EndAt(buf[..], dst);
    buf[to] := END;
  }

  lemma EndAt(m: seq<byte>, i: nat)
    requires i < |m|
    ensures m[i := END] == Over(m, i, [END])
  {
  }

  lemma FrameLength(p: seq<byte>)
    ensures |Frame(p)| == |Escape(p)| + 2
  {
  }

  lemma WrittenLast(p: seq<byte>)
    ensures Written(p, |p|) == [END] && p[..|p|] == p
  {
    hide Escape;
    assert p[..|p|] == p;
  }

  lemma WrittenFirst(p: seq<byte>)
    ensures [END] + Written(p, 0) == Frame(p) && Escape(p[..0]) == []
  {
    hide Escape;
    assert p[..0] == [];
    EscapeEmpty();
  }

  /**
   Decodes the frame at the front of len bytes where they lie; returns the length of the frame
   and of its payload. The payload never gets ahead of the bytes that are still to be read, and
   nothing behind it changes.
   */
  method DecodeInline(buf: array<byte>, dst: nat, len: nat) returns (parsed: nat, size: nat)
    requires dst + len <= buf.Length
    modifies buf
    ensures parsed == Parsed(old(buf[dst..dst + len])) && size == |Payload(old(buf[dst..dst + len]))|
    ensures |Inside(old(buf[dst..dst + len])).text| <= len
    ensures buf[..] == Over(old(buf[..]), dst, Inside(old(buf[dst..dst + len])).text)
  {
    hide Scan, Over, Continues;
    ghost var m: seq<byte> := buf[..];
    ghost var s: seq<byte> := buf[dst..dst + len];
    var src, ptr := dst, dst;
    var end := dst + len;
    var whole := false;
    if src < end && buf[src] == END {
      whole := true;
      src := src + 1;
    }
    ghost var start := src;
    ghost var inner: seq<byte> := m[start..end];
    ghost var text: seq<byte> := [];
    assert inner == if Whole(s) then s[1..] else s;
    OverNothing(m, dst);
    ContinuesAtFirst(inner);
    while src < end
      invariant dst <= ptr <= src <= end && start <= src && ptr == dst + |text|
      invariant buf[..] == Over(m, dst, text)
      invariant Continues(inner, src - start, text, m[src..end])
      decreases end - src
    {
      ghost var rest: seq<byte> := m[src..end];
      OverAt(m, dst, text, src);
      if src + 1 < end {
        OverAt(m, dst, text, src + 1);
      }
      assert buf[src] == buf[..][src] == rest[0];
      if buf[src] == ESC {
        if src == end - 1 {
          Incomplete(inner, src - start, text, rest);
          break;
        }
        assert buf[src + 1] == buf[..][src + 1] == rest[1];
        EscapeContinues(inner, src - start, text, rest);
        assert rest[2..] == m[src + 2..end];
        src := src + 1;
        if buf[src] == END_REPLACE {
          OverOne(m, dst, text, END);
          buf[ptr] := END;
          ptr := ptr + 1;
        } else if buf[src] == ESC_REPLACE {
          OverOne(m, dst, text, ESC);
          buf[ptr] := ESC;
          ptr := ptr + 1;
        } else {
          assert text + [] == text;
        }
        text := text + Unescape(rest[1]);
        src := src + 1;
      } else if buf[src] == END {
        Complete(inner, src - start, text, rest);
        src := src + 1;
        return src - dst, if whole then ptr - dst else 0;
      } else {
        PlainContinues(inner, src - start, text, rest);
        assert rest[1..] == m[src + 1..end];
        OverOne(m, dst, text, rest[0]);
        text := text + [rest[0]];
        buf[ptr] := buf[src];
        ptr, src := ptr + 1, src + 1;
      }
    }
    Incomplete(inner, src - start, text, m[src..end]);
    return 0, 0;
  }

  lemma OverOne(m: seq<byte>, off: nat, data: seq<byte>, b: byte)
    requires off + |data| < |m|
    ensures Over(m, off, data)[off + |data| := b] == Over(m, off, data + [b])
  {
  }

  /** The scan of the whole is what was scanned so far and the scan of the rest. */
  ghost predicate Continues(s: seq<byte>, used: nat, text: seq<byte>, rest: seq<byte>) {
    Scan(s) == Scanned(used + Scan(rest).used, text + Scan(rest).text, Scan(rest).done)
  }

  lemma ContinuesAtFirst(s: seq<byte>)
    ensures Continues(s, 0, [], s)
  {
    hide Scan;
    assert [] + Scan(s).text == Scan(s).text;
  }

  lemma EscapeContinues(s: seq<byte>, used: nat, text: seq<byte>, rest: seq<byte>)
    requires Continues(s, used, text, rest) && |rest| >= 2 && rest[0] == ESC
    ensures Continues(s, used + 2, text + Unescape(rest[1]), rest[2..])
  {
    hide Scan, Unescape;
    ScanPair(rest[1], rest[2..]);
    assert rest == [ESC, rest[1]] + rest[2..];
    var more := Scan(rest[2..]).text;
    assert text + (Unescape(rest[1]) + more) == text + Unescape(rest[1]) + more;
  }

  lemma PlainContinues(s: seq<byte>, used: nat, text: seq<byte>, rest: seq<byte>)
    requires Continues(s, used, text, rest) && rest != [] && !Special(rest[0])
    ensures Continues(s, used + 1, text + [rest[0]], rest[1..])
  {
    hide Scan;
    ScanPlain(rest[0], rest[1..]);
    assert rest == [rest[0]] + rest[1..];
    var more := Scan(rest[1..]).text;
    assert text + ([rest[0]] + more) == text + [rest[0]] + more;
  }

  lemma Complete(s: seq<byte>, used: nat, text: seq<byte>, rest: seq<byte>)
    requires Continues(s, used, text, rest) && rest != [] && rest[0] == END
    ensures Scan(s) == Scanned(used + 1, text, true)
  {
    assert text + [] == text;
  }

  lemma Incomplete(s: seq<byte>, used: nat, text: seq<byte>, rest: seq<byte>)
    requires Continues(s, used, text, rest) && (rest == [] || rest == [ESC])
    ensures Scan(s) == Scanned(used, text, false)
  {
    assert text + [] == text;
  }

  /**
   Encoding a payload and decoding it where it lies gives it back, and the bytes behind its frame
   do not matter and do not change.
   */
  method RoundTrip(buf: array<byte>, dst: nat, len: nat, avail: nat) returns (parsed: nat, size: nat)
    requires len > 0 && dst + avail <= buf.Length && dst + len <= buf.Length
    requires |Frame(buf[dst..dst + len])| <= avail
    modifies buf
    ensures parsed == |Frame(old(buf[dst..dst + len]))| && size == len
    ensures buf[dst..dst + len] == old(buf[dst..dst + len])
    ensures buf[..dst] == old(buf[..dst]) && buf[dst + parsed..] == old(buf[dst + parsed..])
  {
    hide Frame, Parsed, Payload, Inside, Over;
    ghost var m: seq<byte> := buf[..];
    ghost var p: seq<byte> := buf[dst..dst + len];
    FrameLength(p);
    var n := EncodeInline(buf, dst, len);
    ghost var e: seq<byte> := buf[..];
    FrameInFront(m, dst, Frame(p), avail);
    FrameDecodes(p, m[dst + |Frame(p)|..dst + avail]);
    assert buf[dst..dst + avail] == e[dst..dst + avail];
    parsed, size := DecodeInline(buf, dst, avail);
    WholePayload(dst, avail, e, p);
    OverParts(m, dst, Frame(p));
    OverParts(e, dst, p);
    assert buf[dst..dst + len] == buf[..][dst..dst + len];
    assert buf[dst + parsed..] == e[dst + len..][parsed - len..];
    assert e[dst + len..][parsed - len..] == e[dst + parsed..];
  }

  lemma FrameInFront(m: seq<byte>, dst: nat, f: seq<byte>, avail: nat)
    requires |f| <= avail && dst + avail <= |m|
    ensures Over(m, dst, f)[dst..dst + avail] == f + m[dst + |f|..dst + avail]
  {
  }

  lemma WholePayload(dst: nat, avail: nat, e: seq<byte>, p: seq<byte>)
    requires dst + avail <= |e| && p != [] && Payload(e[dst..dst + avail]) == p
    ensures Inside(e[dst..dst + avail]).text == p
  {
    hide Inside;
  }

  // ---- the receive path ----

  /**
   Hands every payload in the first len bytes to a sink that takes them all, and moves what is
   left to the front.
   */
  method DrainFrames(buf: array<byte>, len: nat) returns (sent: seq<seq<byte>>, left: nat)
    requires len <= buf.Length
    modifies buf
    ensures sent == Delivered(old(buf[..len]))
    ensures left == |Remaining(old(buf[..len]))| && buf[..left] == Remaining(old(buf[..len]))
  {
    hide Parsed, Payload, Inside, Over, Scan, Remaining, Delivered;
    ghost var s: seq<byte> := buf[..len];
    var ptr: nat, recvd: nat := 0, len;
    sent := [];
    assert [] + Delivered(s) == Delivered(s) && buf[0..len] == s;
    NothingThere();
    while recvd > 0
      invariant ptr + recvd <= buf.Length
      invariant Delivered(s) == sent + Delivered(buf[ptr..ptr + recvd])
      invariant Remaining(s) == Remaining(buf[ptr..ptr + recvd])
      decreases recvd
    {
      ghost var m: seq<byte> := buf[..];
      ghost var rest: seq<byte> := buf[ptr..ptr + recvd];
      var parsed, size := DecodeInline(buf, ptr, recvd);
      ghost var now: seq<byte> := buf[..];
      Decoded(m, ptr, recvd);
      if size > 0 {
        assert buf[ptr..ptr + size] == now[ptr..ptr + size];
        sent := sent + [buf[ptr..ptr + size]];
      }
      if parsed > 0 {
        assert buf[ptr + parsed..ptr + recvd] == now[ptr + parsed..ptr + recvd];
        ptr := ptr + parsed;
        recvd := recvd - parsed;
      } else {
        assert buf[ptr..ptr + recvd] == now[ptr..ptr + recvd];
        break;
      }
    }
    if recvd > 0 {
      MoveFront(buf, ptr, recvd);
    } else {
      assert buf[ptr..ptr + recvd] == [];
    }
    left := recvd;
  }

  /** memmove */
  method MoveFront(buf: array<byte>, ptr: nat, n: nat)
    requires ptr + n <= buf.Length
    modifies buf
    ensures buf[..n] == old(buf[ptr..ptr + n])
  {
    forall i | 0 <= i < n {
      buf[i] := buf[ptr + i];
    }
  }

  /** What one call of the decoder contributes. */
  lemma Decoded(m: seq<byte>, ptr: nat, recvd: nat)
    requires ptr + recvd <= |m|
    ensures var s := m[ptr..ptr + recvd];
            var now := Over(m, ptr, Inside(s).text);
            && |Inside(s).text| <= recvd && |Payload(s)| <= recvd && |now| == |m|
            && (Parsed(s) > 0 ==>
                  && Delivered(s) == (if Payload(s) != [] then [Payload(s)] else [])
                                     + Delivered(now[ptr + Parsed(s)..ptr + recvd])
                  && now[ptr..ptr + |Payload(s)|] == Payload(s)
                  && Remaining(s) == Remaining(now[ptr + Parsed(s)..ptr + recvd]))
            && (Parsed(s) == 0 ==>
                  Delivered(s) == [] && Payload(s) == [] && Remaining(s) == now[ptr..ptr + recvd])
  {
    hide Scan, Over, Parsed, Payload, Inside, Delivered, Remaining;
    var s: seq<byte> := m[ptr..ptr + recvd];
    var text: seq<byte> := Inside(s).text;
    OneFrame(s);
    if Parsed(s) > 0 {
      OverParts(m, ptr, text);
      Behind(m, ptr, text, ptr + Parsed(s), ptr + recvd);
      assert m[ptr + Parsed(s)..ptr + recvd] == s[Parsed(s)..];
    } else {
      OverInside(m, ptr, recvd, text);
    }
  }

  lemma OneFrame(s: seq<byte>)
    ensures |Inside(s).text| <= |s|
    ensures Parsed(s) > 0 ==>
              && |Inside(s).text| <= Parsed(s) && (Payload(s) == Inside(s).text || Payload(s) == [])
              && Delivered(s) == (if Payload(s) != [] then [Payload(s)] else []) + Delivered(s[Parsed(s)..])
              && Remaining(s) == Remaining(s[Parsed(s)..])
    ensures Parsed(s) == 0 ==> Delivered(s) == [] && Payload(s) == [] && Remaining(s) == Over(s, 0, Inside(s).text)
  {
    hide Scan, Over;
  }

  lemma OverInside(m: seq<byte>, off: nat, n: nat, data: seq<byte>)
    requires |data| <= n && off + n <= |m|
    ensures Over(m, off, data)[off..off + n] == Over(m[off..off + n], 0, data)
  {
    var now := Over(m, off, data);
    Behind(m, off, data, off + |data|, off + n);
    OverParts(m, off, data);
    assert now[off..off + n] == now[off..off + |data|] + now[off + |data|..off + n];
    assert m[off..off + n][|data|..] == m[off + |data|..off + n];
  }

  lemma Behind(m: seq<byte>, off: nat, data: seq<byte>, i: nat, j: nat)
    requires off + |data| <= i <= j <= |m|
    ensures Over(m, off, data)[i..j] == m[i..j]
  {
  }
}
