/**
 The functions of varchunk.h, working in place on the element buffer. Each method runs the
 protocol steps it is made of; the values its two atomic loads may return are parameters, since
 the other side decides them.
 */
module Varchunk {
  import opened Bytes
  import opened Splice
  import opened VarchunkProtocol

  ghost predicate PowerOfTwo(n: nat) {
    n == 1 || (n > 1 && n % 2 == 0 && PowerOfTwo(n / 2))
  }

  lemma PowerOfTwoDoubles(n: nat)
    requires PowerOfTwo(n)
    ensures PowerOfTwo(n * 2)
  {
    assert n * 2 / 2 == n;
  }

  lemma PowerOfTwoIsGood(n: nat)
    requires PowerOfTwo(n)
    ensures GoodSize(n)
  {
    if n >= 8 {
      assert PowerOfTwo(n / 2) && PowerOfTwo(n / 2 / 2);
      assert n / 2 % 2 == 0 && n / 2 / 2 % 2 == 0;
    }
  }

  /** varchunk_body_size: the smallest power of two that is not below the minimum. */
  method BodySize(minimum: nat) returns (size: nat)
    ensures PowerOfTwo(size) && minimum <= size
    ensures size == 1 || size / 2 < minimum
  {
    size := 1;
    while size < minimum
      invariant PowerOfTwo(size) && (size == 1 || size / 2 < minimum)
      decreases minimum - size
    {
      PowerOfTwoDoubles(size);
      size := size * 2;
    }
  }

  class Ring {
    const size: nat
    const buf: array<byte>
    var head: nat
    var tail: nat
    var rsvd: nat
    var gapd: nat
    ghost var model: State

    ghost predicate Valid()
      reads this, buf
    {
      && Inv(model)
      && size == model.size && buf[..] == model.buf
      && head == model.head && tail == model.tail
      && rsvd == model.rsvd && gapd == model.gapd
    }

    /** The chunks that were committed and not yet released, oldest first. */
    ghost function Contents(): seq<seq<byte>>
      reads this
    {
      Datas(model.queue)
    }

    constructor (minimum: nat)
      ensures Valid() && fresh(buf) && Contents() == []
      ensures PowerOfTwo(size) && minimum <= size
    {
      var n := BodySize(minimum);
      PowerOfTwoIsGood(n);
      var b := new byte[n](_ => 0);
      size, buf := n, b;
      head, tail, rsvd, gapd := 0, 0, 0, 0;
      model := VarchunkProtocol.Init(n, b[..]);
      InitInv(n, b[..]);
    }

    /** varchunk_write_request_max: `tailSeen` is the value the acquiring load of tail returns. */
    method WriteRequestMax(minimum: nat, tailSeen: nat, ghost lag: nat) returns (r: Option<nat>, maximum: nat)
      requires Valid() && (model.ppc.Idle? || model.ppc.Writing?)
      requires Enabled(model, LoadTail(lag)) && tailSeen == DoLoadTail(model, lag).tailSeen
      modifies this
      ensures Valid() && Contents() == old(Contents())
      ensures Slot(size, tailSeen)
      ensures model == DoReserve(DoLoadTail(old(model), lag), minimum)
      ensures r.Some? <==> model.ppc.Writing?
      ensures r.Some? ==> r.value == model.ppc.at + HEADER
      ensures r.Some? ==> (FitsIn(maximum, minimum) <==> minimum <= MAX_CHUNK)
      ensures maximum == rsvd
      ensures var used, need := Total(model.queue) + lag, 2 * HEADER + CPad(minimum);
              && (r.Some? <==> FreeFrom(size, tailSeen, used, head, need) || FreeFrom(size, tailSeen, used, 0, need))
              && (r.Some? ==> LongestFree(size, tailSeen, used, r.value - HEADER, maximum))
    {
      hide Total, Tiled, Datas, Mask, Header, Wrap, Aligned, CPad, Request, FitsIn, FreeFrom, LongestFree;
      model := Next(model, LoadTail(lag));
      r, maximum := ReserveRegion(minimum, tailSeen);
      WrapAdd(size, tailSeen, lag, Total(model.queue));
      GrantedExactly(size, head, tailSeen, Total(model.queue) + lag, minimum);
      if r.Some? {
        RoomExactly(size, head, tailSeen, minimum);
      }
      model := Next(model, Reserve(minimum));
    }

    /** The body of varchunk_write_request_max after its two loads. */
    method ReserveRegion(minimum: nat, tailSeen: nat) returns (r: Option<nat>, maximum: nat)
      requires head < size && tailSeen < size
      modifies this`rsvd, this`gapd
      ensures maximum == rsvd
      ensures match Request(size, head, tailSeen, minimum)
              case Refused => r == None && rsvd == 0 && gapd == 0
              case Region(at, n, gap) => r == Some(at + HEADER) && rsvd == n && gapd == gap
    {
      hide Mask, CPad;
      var padded := 2 * HEADER + CPad(minimum);
      var space: int;
      if head > tailSeen {
        space := Mask(tailSeen + size - head, size) - 1;
      } else if head < tailSeen {
        space := (tailSeen - head) - 1;
      } else {
        space := size - 1;
      }
      var end := head + space;
      r, rsvd, gapd := None, 0, 0;
      if end > size {
        var len1 := size - head;
        if len1 < padded {
          var len2 := Mask(end, size);
          if len2 >= padded {
            r, rsvd, gapd := Some(HEADER), len2, len1;
          }
        } else {
          r, rsvd := Some(head + HEADER), len1;
        }
      } else if space >= padded {
        r, rsvd := Some(head + HEADER), space;
      }
      maximum := rsvd;
    }

    method PutHeader(off: nat, n: word, gap: word)
      requires off + HEADER <= buf.Length
      modifies buf
      ensures buf[..] == Over(old(buf[..]), off, Header(n, gap))
    {
      var h := Header(n, gap);
      forall i | 0 <= i < HEADER {
        buf[off + i] := h[i];
      }
      assert buf[..] == Over(old(buf[..]), off, h);
    }

    /** The headers in front of the draft: one for the gap, if there is one, and one for the chunk. */
    method PutHeaders(written: nat)
      requires Valid() && model.ppc.Writing? && Fits(model, written)
      modifies this`model, buf
      ensures Valid() && model.ppc == HeaderWritten(old(model).ppc.at, written)
      ensures Draft(model) == old(Draft(model)) && Contents() == old(Contents())
      ensures model.delivered == old(model.delivered) && model.lag == old(model.lag)
    {
      hide Total, Tiled, Datas, Mask, Header, Wrap, Aligned, Pad8, CPad, Over, CommitAt, Slot, Extent;
      ghost var s0 := model;
      StepRefinesQueue(s0, WriteGap(written));
      WriteGapKeeps(s0, written);
      if gapd > 0 {
        PutHeader(head, gapd - HEADER, 1);
      }
      ghost var s1 := Next(s0, WriteGap(written));
      WriteHeaderKeeps(s1);
      StepRefinesQueue(s1, WriteHeader);
      PutHeader(if gapd > 0 then 0 else head, written, 0);
      model := Next(s1, WriteHeader);
    }

    /** varchunk_write_advance: publishes the first `written` bytes of the draft as one chunk. */
    method WriteAdvance(written: nat)
      requires Valid() && model.ppc.Writing? && Fits(model, written)
      modifies this, buf
      ensures Valid() && model.ppc.Idle?
      ensures written <= |old(Draft(model))|
      ensures Contents() == old(Contents()) + [old(Draft(model))[..written]]
      ensures model.delivered == old(model.delivered) && model.lag == old(model.lag)
    {
      hide Total, Tiled, Datas, Mask, Header, Wrap, Aligned, Pad8, CPad, Over, CommitAt, Slot, Extent;
      PutHeaders(written);
      StepRefinesQueue(model, StoreHead);
      head := Mask(head + (gapd + HEADER + CPad(written)), size);
      model := Next(model, StoreHead);
    }

    /** varchunk_read_request: `headSeen` is the value the acquiring load of head returns. */
    method ReadRequest(headSeen: nat, ghost seen: nat) returns (r: Option<nat>, toread: nat)
      requires Valid() && !model.cpc.Skipped? && Enabled(model, LoadHead(seen))
      requires headSeen == DoLoadHead(model, seen).headSeen
      modifies this
      ensures Valid() && Contents() == old(Contents()) && model.delivered == old(model.delivered)
      ensures r.Some? <==> seen > 0
      ensures r.Some? ==> HEADER <= r.value && r.value + toread <= size
      ensures r.Some? ==> model.cpc == Holding(r.value - HEADER, toread)
      ensures r.Some? ==> Contents() != [] && buf[r.value..r.value + toread] == Contents()[0]
      ensures r.None? ==> toread == 0 && tail == old(tail)
    {
      hide Total, Tiled, Mask, Header, HeaderGap, HeaderSize, Wrap, Aligned, Pad8, ReadSpace, Skip;
      StepRefinesQueue(model, LoadHead(seen));
      model := Next(model, LoadHead(seen));
      GapIsRecognised(model);
      StepRefinesQueue(model, Examine);
      ghost var s1 := Next(model, Examine);
      var space := ReadSpace(size, headSeen, tail);
      if space > 0 {
        var end := tail + space;
        if end > size && HeaderGap(buf[..], tail) != 0 {
          var len1 := size - tail;
          tail := Mask(tail + len1, size);
          StepRefinesQueue(s1, TakeAfterGap);
          model := Next(s1, TakeAfterGap);
          r, toread := Some(HEADER), HeaderSize(buf[..], 0);
        } else {
          model := s1;
          r, toread := Some(tail + HEADER), HeaderSize(buf[..], tail);
        }
        HeldChunk(model);
      } else {
        model := s1;
        r, toread := None, 0;
      }
    }

    /** varchunk_read_advance: gives the chunk in hand back to the producer. */
    method ReadAdvance()
      requires Valid() && model.cpc.Holding?
      modifies this
      ensures Valid() && model.cpc.Waiting?
      ensures old(Contents()) != [] && Contents() == old(Contents())[1..]
      ensures model.delivered == old(model.delivered) + [old(Contents())[0]]
    {
      hide Total, Tiled, Mask, Header, HeaderSize, Wrap, Aligned, Pad8, CPad;
      StepRefinesQueue(model, Release);
      HeldChunk(model);
      tail := Mask(tail + (HEADER + CPad(HeaderSize(buf[..], tail))), size);
      model := Next(model, Release);
    }
  }
}
