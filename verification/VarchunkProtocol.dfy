/**
 The single-producer single-consumer ring of varchunk.h as a transition system.

 A state holds the shared memory (the element buffer and the two masked indices), what each
 side remembers between its own steps, and the history the theorems speak of. A producer step
 and a consumer step may alternate in any order. Each side only knows a possibly stale value of
 the other side's index: `lag` is how many bytes the consumer has released that the producer has
 not yet noticed, `seen` is how many committed chunks the consumer has noticed. A load may pick
 up any value at least as recent as the previous one, which is what acquire and release give.
 */
module VarchunkProtocol {
  import opened Bytes
  import opened Splice

  const HEADER: nat := 8

  /** The largest chunk whose padded size is a 32-bit number. */
  const MAX_CHUNK: nat := WORD_LIMIT - 8

  /**
   VARCHUNK_PAD: it clears the low bits with the complement of a 32-bit 7, which on a wider number
   clears everything above 32 bits too.
   */
  function CPad(n: nat): (r: nat)
    ensures Aligned(r) && r <= MAX_CHUNK
  {
    Pad8(n) % WORD_LIMIT
  }

  /** The macro rounds up to a multiple of 8 exactly up to the largest chunk; above, it falls short. */
  lemma PadsExactly(n: nat)
    ensures CPad(n) < WORD_LIMIT && exists k: nat :: Pad8(n) == CPad(n) + k * WORD_LIMIT
    ensures CPad(n) == Pad8(n) <==> n <= MAX_CHUNK
    ensures n <= CPad(n) <==> n <= MAX_CHUNK
  {
    assert Pad8(n) == CPad(n) + (Pad8(n) / WORD_LIMIT) * WORD_LIMIT;
  }

  // ---- masked indices ----

  /** The C masks with size - 1, which for a power of two is the remainder. */
  function Mask(x: nat, size: nat): (r: nat)
    requires size > 0
    ensures r < size
  {
    x % size
  }

  /** The buffer offset that lies `d` bytes after offset `off`, for d up to one lap. */
  function Wrap(size: nat, off: nat, d: nat): nat {
    if off + d >= size then off + d - size else off + d
  }

  lemma MaskIsWrap(x: nat, size: nat)
    requires 0 < size && x < 2 * size
    ensures Mask(x, size) == if x < size then x else x - size
  {
    if x < size {
      assert x / size == 0;
    } else {
      assert x == size + (x - size);
      assert (x - size) / size == 0;
      assert x / size == 1 by { DivOnce(x, size); }
    }
  }

  lemma DivOnce(x: nat, size: nat)
    requires 0 < size <= x < 2 * size
    ensures x / size == 1
  {
    var q := x / size;
    assert x == size * q + x % size;
    assert q >= 2 ==> size * q >= size * 2;
    assert q <= 0 ==> size * q <= 0;
  }

  // ---- the request computation (varchunk_write_request_max) ----

  datatype Grant =
    | Refused
    | Region(at: nat, rsvd: nat, gapd: nat)  // at: offset of the element header

  function WriteSpace(size: nat, head: nat, tail: nat): int
    requires size > 0 && head < size && tail < size
  {
    if head > tail then Mask(tail + size - head, size) - 1
    else if head < tail then (tail - head) - 1
    else size - 1
  }

  function Request(size: nat, head: nat, tail: nat, minimum: nat): Grant
    requires size > 0 && head < size && tail < size
  {
    var padded := 2 * HEADER + CPad(minimum);
    var space := WriteSpace(size, head, tail);
    var end := head + space;
    if end > size then
      var len1 := size - head;
      if len1 < padded then
        var len2 := Mask(end, size);
        if len2 < padded then Refused else Region(0, len2, len1)
      else
        Region(head, len1, 0)
    else
      if space < padded then Refused else Region(head, space, 0)
  }

  function ReadSpace(size: nat, head: nat, tail: nat): nat
    requires size > 0 && head < size && tail < size
  {
    if head > tail then head - tail else Mask(head + size - tail, size)
  }

  // ---- element headers in memory ----

  function Header(size: word, gap: word): (s: seq<byte>)
    ensures |s| == HEADER
  {
    Le32(size) + Le32(gap)
  }

  function HeaderSize(buf: seq<byte>, off: nat): word
    requires off + HEADER <= |buf|
  {
    FromLe32(buf[off..off + 4])
  }

  function HeaderGap(buf: seq<byte>, off: nat): word
    requires off + HEADER <= |buf|
  {
    FromLe32(buf[off + 4..off + 8])
  }

  lemma HeaderRoundTrip(buf: seq<byte>, off: nat, size: word, gap: word)
    requires off + HEADER <= |buf| && buf[off..off + HEADER] == Header(size, gap)
    ensures HeaderSize(buf, off) == size && HeaderGap(buf, off) == gap
  {
    Le32RoundTrip(size);
    Le32RoundTrip(gap);
    var h := buf[off..off + HEADER];
    assert buf[off..off + 4] == h[..4] == Le32(size);
    assert buf[off + 4..off + 8] == h[4..] == Le32(gap);
  }

  /** In memory the size comes first, then the gap flag, each with its least significant byte first. */
  lemma HeaderBytes(size: word, gap: word)
    ensures var h := Header(size, gap);
            && h[0] == size % 256 && h[1] == size / 0x100 % 256
            && h[2] == size / 0x1_0000 % 256 && h[3] == size / 0x100_0000
            && h[4] == gap % 256 && h[5] == gap / 0x100 % 256
            && h[6] == gap / 0x1_0000 % 256 && h[7] == gap / 0x100_0000
  {
    Le32Bytes(size);
    Le32Bytes(gap);
  }

  // ---- what the ring contains ----

  /** One write_advance: an optional gap up to the end of the buffer, then one chunk. */
  datatype Commit = Commit(gap: nat, data: seq<byte>)

  function Footprint(n: nat): nat {
    HEADER + Pad8(n)
  }

  function Extent(c: Commit): nat {
    c.gap + Footprint(|c.data|)
  }

  function Total(q: seq<Commit>): nat {
    if q == [] then 0 else Extent(q[0]) + Total(q[1..])
  }

  function Datas(q: seq<Commit>): (r: seq<seq<byte>>)
    ensures |r| == |q|
  {
    seq(|q|, i requires 0 <= i < |q| => q[i].data)
  }

  ghost predicate ChunkAt(size: nat, buf: seq<byte>, off: nat, data: seq<byte>)
    requires |buf| == size
  {
    && Aligned(off)
    && off + Footprint(|data|) <= size
    && |data| <= MAX_CHUNK
    && buf[off..off + HEADER] == Header(|data|, 0)
    && buf[off + HEADER..off + HEADER + |data|] == data
  }

  /** A commit lies at `off`: a gap ends exactly at the end of the buffer, its chunk is at offset 0. */
  ghost predicate CommitAt(size: nat, buf: seq<byte>, off: nat, c: Commit)
    requires |buf| == size
  {
    if c.gap == 0 then
      ChunkAt(size, buf, off, c.data)
    else
      && Aligned(off)
      && off + c.gap == size
      && HEADER <= c.gap < HEADER + WORD_LIMIT
      && buf[off..off + HEADER] == Header(c.gap - HEADER, 1)
      && ChunkAt(size, buf, 0, c.data)
  }

  /** The commits of q tile the circular region that starts at `off`. */
  ghost predicate Tiled(size: nat, buf: seq<byte>, off: nat, q: seq<Commit>)
    requires |buf| == size
    decreases q
  {
    q == [] || (CommitAt(size, buf, off, q[0]) && Tiled(size, buf, Wrap(size, off, Extent(q[0])), q[1..]))
  }

  // ---- states ----

  datatype ProducerPc =
    | Idle
    | Writing(at: nat)
    | GapWritten(at: nat, written: nat)
    | HeaderWritten(at: nat, written: nat)

  datatype ConsumerPc =
    | Waiting
    | Skipped
    | Holding(at: nat, toread: nat)

  datatype State = State(
    size: nat, buf: seq<byte>, head: nat, tail: nat,     // shared memory
    rsvd: nat, gapd: nat, tailSeen: nat, ppc: ProducerPc, // producer
    headSeen: nat, cpc: ConsumerPc,                       // consumer
    queue: seq<Commit>, seen: nat, lag: nat,              // history
    committed: seq<seq<byte>>, delivered: seq<seq<byte>>)

  /** All powers of two are; those below 8 leave no room for a header. */
  predicate GoodSize(size: nat) {
    size > 0 && (size >= HEADER ==> Aligned(size))
  }

  function Init(size: nat, buf: seq<byte>): State
    requires GoodSize(size) && |buf| == size
  {
    State(size, buf, 0, 0, 0, 0, 0, Idle, 0, Waiting, [], 0, 0, [], [])
  }

  /** An offset at which an element header can stand, if the buffer is large enough for one. */
  predicate Slot(size: nat, off: nat) {
    Aligned(off) && off < size
  }

  /** All four indices are offsets of possible elements. */
  predicate Shape(s: State) {
    && GoodSize(s.size) && |s.buf| == s.size
    && Slot(s.size, s.head)
    && Slot(s.size, s.tail)
    && Slot(s.size, s.tailSeen)
    && Slot(s.size, s.headSeen)
  }

  ghost predicate IndicesOk(s: State) {
    && Shape(s)
    && Aligned(s.lag)
    && Total(s.queue) + s.lag < s.size
    && s.head == Wrap(s.size, s.tail, Total(s.queue))
    && s.tail == Wrap(s.size, s.tailSeen, s.lag)
    && s.seen <= |s.queue|
    && s.headSeen == Wrap(s.size, s.tail, Total(s.queue[..s.seen]))
  }

  /** The granted region, gap included, lies in front of head and short of one lap. */
  ghost predicate GrantOk(s: State, at: nat)
    requires IndicesOk(s)
  {
    && (s.gapd == 0 ==> at == s.head)
    && (s.gapd > 0 ==> at == 0 && s.head + s.gapd == s.size && HEADER <= s.gapd < HEADER + WORD_LIMIT)
    && at + s.rsvd <= s.size
    && HEADER <= s.rsvd
    && Total(s.queue) + s.lag + s.gapd + s.rsvd < s.size
  }

  /** What a commit must satisfy to lie in a region of rsvd bytes. */
  predicate FitsIn(rsvd: nat, written: nat) {
    written <= MAX_CHUNK && Footprint(written) <= rsvd
  }

  predicate Fits(s: State, written: nat) {
    FitsIn(s.rsvd, written)
  }

  ghost predicate ProducerOk(s: State)
    requires IndicesOk(s)
  {
    match s.ppc
    case Idle => true
    case Writing(at) => GrantOk(s, at)
    case GapWritten(at, w) => GrantOk(s, at) && Fits(s, w) && GapInPlace(s)
    case HeaderWritten(at, w) =>
      GrantOk(s, at) && Fits(s, w) && GapInPlace(s) && s.buf[at..at + HEADER] == Header(w, 0)
  }

  ghost predicate GapInPlace(s: State)
    requires IndicesOk(s)
  {
    s.gapd > 0 ==>
      && HEADER <= s.gapd < HEADER + WORD_LIMIT && s.head + HEADER <= s.size
      && s.buf[s.head..s.head + HEADER] == Header(s.gapd - HEADER, 1)
  }

  ghost predicate ConsumerOk(s: State) {
    match s.cpc
    case Waiting => true
    case Skipped => 0 < s.seen <= |s.queue| && s.queue[0].gap == 0 && s.tail == 0
    case Holding(at, n) => 0 < s.seen <= |s.queue| && s.queue[0].gap == 0 && at == s.tail && n == |s.queue[0].data|
  }

  ghost predicate Inv(s: State) {
    && IndicesOk(s)
    && Tiled(s.size, s.buf, s.tail, s.queue)
    && ProducerOk(s)
    && ConsumerOk(s)
    && s.committed == s.delivered + Datas(s.queue)
  }

  // ---- steps ----

  datatype Step =
    | LoadTail(lag: nat)
    | Reserve(minimum: nat)
    | Fill(i: nat, b: byte)
    | WriteGap(written: nat)
    | WriteHeader
    | StoreHead
    | LoadHead(seen: nat)
    | Examine
    | TakeAfterGap
    | Release

  /** Program order on either side, and what the interface asks of its two users. */
  predicate Enabled(s: State, step: Step) {
    match step
    case LoadTail(lag) => lag <= s.lag && Aligned(lag)
    case Reserve(_) => s.ppc.Idle? || s.ppc.Writing?
    case Fill(i, _) => s.ppc.Writing? && HEADER + i < s.rsvd
    case WriteGap(w) => s.ppc.Writing? && Fits(s, w)
    case WriteHeader => s.ppc.GapWritten?
    case StoreHead => s.ppc.HeaderWritten?
    case LoadHead(n) => s.seen <= n <= |s.queue|
    case Examine => !s.cpc.Skipped?
    case TakeAfterGap => s.cpc.Skipped?
    case Release => s.cpc.Holding?
  }

  function Back(size: nat, off: nat, d: nat): nat
    requires d <= size
  {
    if off >= d then off - d else off + size - d
  }

  ghost function DoLoadTail(s: State, lag: nat): State
    requires IndicesOk(s) && lag <= s.lag
  {
    s.(lag := lag, tailSeen := Back(s.size, s.tail, lag))
  }

  ghost function DoReserve(s: State, minimum: nat): State
    requires Shape(s)
  {
    match Request(s.size, s.head, s.tailSeen, minimum)
    case Refused => s.(rsvd := 0, gapd := 0, ppc := Idle)
    case Region(at, rsvd, gapd) => s.(rsvd := rsvd, gapd := gapd, ppc := Writing(at))
  }

  ghost function DoFill(s: State, i: nat, b: byte): State
    requires s.ppc.Writing? && s.ppc.at + HEADER + i < |s.buf|
  {
    s.(buf := s.buf[s.ppc.at + HEADER + i := b])
  }

  ghost function DoWriteGap(s: State, written: nat): State
    requires Shape(s) && s.ppc.Writing?
    requires s.gapd > 0 ==> HEADER <= s.gapd < HEADER + WORD_LIMIT && s.head + HEADER <= s.size
  {
    s.(buf := if s.gapd > 0 then Over(s.buf, s.head, Header(s.gapd - HEADER, 1)) else s.buf,
       ppc := GapWritten(s.ppc.at, written))
  }

  ghost function DoWriteHeader(s: State): State
    requires Shape(s) && s.ppc.GapWritten? && s.ppc.at + HEADER <= s.size && s.ppc.written < WORD_LIMIT
  {
    s.(buf := Over(s.buf, s.ppc.at, Header(s.ppc.written, 0)),
       ppc := HeaderWritten(s.ppc.at, s.ppc.written))
  }

  ghost function DoStoreHead(s: State): State
    requires Shape(s) && s.ppc.HeaderWritten? && s.ppc.at + HEADER + s.ppc.written <= s.size
  {
    var data := s.buf[s.ppc.at + HEADER..s.ppc.at + HEADER + s.ppc.written];
    s.(head := Mask(s.head + (s.gapd + HEADER + CPad(s.ppc.written)), s.size),
       ppc := Idle,
       queue := s.queue + [Commit(s.gapd, data)],
       committed := s.committed + [data])
  }

  ghost function DoLoadHead(s: State, seen: nat): State
    requires seen <= |s.queue|
  {
    s.(seen := seen, headSeen := Wrap(s.size, s.tail, Total(s.queue[..seen])))
  }

  /** The commits after the consumer has stepped over the gap of the first one. */
  function Skip(q: seq<Commit>): seq<Commit>
    requires q != []
  {
    [q[0].(gap := 0)] + q[1..]
  }

  ghost function DoExamine(s: State): State
    requires Shape(s) && (ReadSpace(s.size, s.headSeen, s.tail) > 0 ==> s.tail + HEADER <= s.size)
  {
    var space := ReadSpace(s.size, s.headSeen, s.tail);
    if space == 0 then
      s.(cpc := Waiting)
    else if s.tail + space > s.size && HeaderGap(s.buf, s.tail) != 0 then
      s.(tail := Mask(s.tail + (s.size - s.tail), s.size), cpc := Skipped,
         queue := if s.queue == [] then [] else Skip(s.queue),
         lag := s.lag + (s.size - s.tail))
    else
      s.(cpc := Holding(s.tail, HeaderSize(s.buf, s.tail)))
  }

  ghost function DoTakeAfterGap(s: State): State
    requires Shape(s) && HEADER <= s.size
  {
    s.(cpc := Holding(0, HeaderSize(s.buf, 0)))
  }

  ghost function DoRelease(s: State): State
    requires Shape(s) && s.cpc.Holding? && 0 < s.seen <= |s.queue|
    requires s.tail + HEADER <= s.size && s.cpc.at + HEADER + s.cpc.toread <= s.size
  {
    var at, n := s.cpc.at, s.cpc.toread;
    var n' := HeaderSize(s.buf, s.tail);
    s.(tail := Mask(s.tail + (HEADER + CPad(n')), s.size),
       cpc := Waiting,
       queue := s.queue[1..], seen := s.seen - 1,
       lag := s.lag + Footprint(n'),
       delivered := s.delivered + [s.buf[at + HEADER..at + HEADER + n]])
  }

  // ---- circular arithmetic ----

  lemma TotalAppend(q: seq<Commit>, r: seq<Commit>)
    ensures Total(q + r) == Total(q) + Total(r)
  {
    if q == [] {
      assert q + r == r;
    } else {
      assert (q + r)[0] == q[0] && (q + r)[1..] == q[1..] + r;
      TotalAppend(q[1..], r);
    }
  }

  lemma TotalSplit(q: seq<Commit>, k: nat)
    requires k <= |q|
    ensures Total(q) == Total(q[..k]) + Total(q[k..])
  {
    assert q[..k] + q[k..] == q;
    TotalAppend(q[..k], q[k..]);
  }

  /** The lengths of a non-empty queue are at least one element header. */
  lemma TotalPositive(q: seq<Commit>)
    ensures q != [] ==> Total(q) >= HEADER
    ensures q == [] ==> Total(q) == 0
  {
  }

  /** Two memories agree on `len` bytes from `off`, counted around the end of the buffer. */
  ghost predicate AgreeOn(size: nat, a: seq<byte>, b: seq<byte>, off: nat, len: nat)
    requires |a| == |b| == size && off <= size && len <= size
  {
    forall d :: 0 <= d < len ==> a[Wrap(size, off, d)] == b[Wrap(size, off, d)]
  }

  lemma AgreeSlice(size: nat, a: seq<byte>, b: seq<byte>, off: nat, len: nat, lo: nat, n: nat, d: nat)
    requires |a| == |b| == size && off < size && len <= size
    requires AgreeOn(size, a, b, off, len)
    requires lo + n <= size && d + n <= len && lo == Wrap(size, off, d)
    ensures a[lo..lo + n] == b[lo..lo + n]
  {
    var x, y := a[lo..lo + n], b[lo..lo + n];
    forall i | 0 <= i < n
      ensures x[i] == y[i]
    {
      assert lo + i == Wrap(size, off, d + i);
    }
  }

  lemma ChunkAgrees(size: nat, a: seq<byte>, b: seq<byte>, off: nat, len: nat, o: nat, data: seq<byte>, d: nat)
    requires |a| == |b| == size && off < size && len <= size
    requires AgreeOn(size, a, b, off, len)
    requires ChunkAt(size, a, o, data)
    requires d + Footprint(|data|) <= len && o == Wrap(size, off, d)
    ensures ChunkAt(size, b, o, data)
  {
    AgreeSlice(size, a, b, off, len, o, HEADER, d);
    assert o + HEADER == Wrap(size, off, d + HEADER) || |data| == 0;
    if |data| > 0 {
      AgreeSlice(size, a, b, off, len, o + HEADER, |data|, d + HEADER);
    }
  }

  /** Memory outside the unread region does not matter to what the ring contains. */
  lemma {:induction false} TiledFrame(size: nat, a: seq<byte>, b: seq<byte>, off: nat, q: seq<Commit>)
    requires |a| == |b| == size && off < size && Total(q) < size
    requires Tiled(size, a, off, q) && AgreeOn(size, a, b, off, Total(q))
    ensures Tiled(size, b, off, q)
    decreases q
  {
    if q != [] {
      hide Pad8, Header;
      var c := q[0];
      var next := Wrap(size, off, Extent(c));
      if c.gap == 0 {
        ChunkAgrees(size, a, b, off, Total(q), off, c.data, 0);
      } else {
        AgreeSlice(size, a, b, off, Total(q), off, HEADER, 0);
        ChunkAgrees(size, a, b, off, Total(q), 0, c.data, c.gap);
      }
      forall d | 0 <= d < Total(q[1..])
        ensures a[Wrap(size, next, d)] == b[Wrap(size, next, d)]
      {
        assert Wrap(size, next, d) == Wrap(size, off, Extent(c) + d);
      }
      TiledFrame(size, a, b, next, q[1..]);
    }
  }

  lemma {:induction false} TiledAppend(size: nat, buf: seq<byte>, off: nat, q: seq<Commit>, c: Commit)
    requires |buf| == size && off < size && Total(q) < size
    requires Tiled(size, buf, off, q) && CommitAt(size, buf, Wrap(size, off, Total(q)), c)
    ensures Tiled(size, buf, off, q + [c])
    decreases q
  {
    if q == [] {
      assert q + [c] == [c];
    } else {
      var next := Wrap(size, off, Extent(q[0]));
      assert Wrap(size, next, Total(q[1..])) == Wrap(size, off, Total(q));
      TiledAppend(size, buf, next, q[1..], c);
      assert (q + [c])[0] == q[0] && (q + [c])[1..] == q[1..] + [c];
    }
  }

  /** Positions at different distances below one lap are different bytes. */
  lemma WrapDistinct(size: nat, off: nat, d: nat, e: nat)
    requires off < size && d < size && e < size && d != e
    ensures Wrap(size, off, d) != Wrap(size, off, e)
  {
  }

  /** Every byte of the granted region, gap header included, lies behind the unread region. */
  lemma GrantIsAhead(s: State, at: nat, w: nat) returns (e: nat)
    requires IndicesOk(s) && GrantOk(s, at)
    requires at <= w < at + s.rsvd || (s.gapd > 0 && s.head <= w < s.size)
    ensures Total(s.queue) <= e < s.size && w == Wrap(s.size, s.tail, e)
  {
    var used := Total(s.queue);
    e := if s.gapd > 0 && s.head <= w then used + (w - s.head) else used + s.gapd + (w - at);
  }

  lemma WriteKeepsTiled(s: State, at: nat, w: nat, data: seq<byte>)
    requires IndicesOk(s) && GrantOk(s, at) && Tiled(s.size, s.buf, s.tail, s.queue)
    requires (at <= w && w + |data| <= at + s.rsvd) || (s.gapd > 0 && s.head <= w && w + |data| <= s.size)
    ensures w + |data| <= s.size
    ensures Tiled(s.size, Over(s.buf, w, data), s.tail, s.queue)
  {
    var b := Over(s.buf, w, data);
    forall d | 0 <= d < Total(s.queue)
      ensures s.buf[Wrap(s.size, s.tail, d)] == b[Wrap(s.size, s.tail, d)]
    {
      var i := Wrap(s.size, s.tail, d);
      OverAt(s.buf, w, data, i);
      if w <= i < w + |data| {
        var e := GrantIsAhead(s, at, i);
        WrapDistinct(s.size, s.tail, d, e);
      }
    }
    TiledFrame(s.size, s.buf, b, s.tail, s.queue);
  }

  // ---- every step keeps the invariant ----

  lemma LoadTailKeeps(s: State, lag: nat)
    requires Inv(s) && Enabled(s, LoadTail(lag))
    ensures Inv(DoLoadTail(s, lag))
  {
    hide Aligned, Back, Wrap, Total, Tiled, Datas;
    BackIsSlot(s.size, s.tail, lag);
  }

  lemma OnlyZero(n: nat)
    requires Aligned(n) && n < HEADER
    ensures n == 0
  {
  }

  lemma BackIsSlot(size: nat, tail: nat, lag: nat)
    requires GoodSize(size) && Slot(size, tail) && lag < size && Aligned(lag)
    ensures Slot(size, Back(size, tail, lag)) && tail == Wrap(size, Back(size, tail, lag), lag)
  {
    hide Aligned;
    if size < HEADER {
      OnlyZero(lag);
      OnlyZero(tail);
    } else {
      AlignedSum(lag, tail);
      AlignedSum(tail, size);
      AlignedSum(tail, lag);
      if tail < lag {
        AlignedSum(lag - tail, size);
      }
    }
  }

  lemma WrapIsSlot(size: nat, off: nat, d: nat)
    requires GoodSize(size) && Slot(size, off) && d <= size && Aligned(d)
    ensures Slot(size, Wrap(size, off, d))
  {
    hide Aligned;
    if size < HEADER {
      OnlyZero(off);
      OnlyZero(d);
    } else {
      AlignedSum(off, d);
      AlignedSum(size, off + d);
      AlignedSum(off + d, size);
      if off + d >= size {
        AlignedSum(off + d - size, size);
      }
    }
  }

  /** What a granted request promises, from the producer's own, possibly stale, view. */
  lemma RequestBounds(size: nat, head: nat, tail: nat, used: nat, minimum: nat)
    requires GoodSize(size) && Slot(size, head) && Slot(size, tail) && used < size && head == Wrap(size, tail, used)
    ensures match Request(size, head, tail, minimum)
            case Refused => true
            case Region(at, rsvd, gapd) =>
              && 2 * HEADER + CPad(minimum) <= rsvd
              && at + rsvd <= size
              && (gapd == 0 ==> at == head)
              && (gapd > 0 ==> at == 0 && head + gapd == size && HEADER <= gapd < HEADER + WORD_LIMIT)
              && used + gapd + rsvd < size
  {
    hide CPad, Mask, Aligned;
    SpaceIsFree(size, head, tail, used);
    var space := size - used - 1;
    if head + space > size {
      MaskIsWrap(head + space, size);
      EndsAreAligned(size, head, tail);
      GapIsAligned(size, head);
    }
  }

  lemma GapIsAligned(size: nat, head: nat)
    requires GoodSize(size) && Slot(size, head)
    ensures size >= HEADER ==> head + HEADER <= size
  {
  }

  lemma EndsAreAligned(size: nat, head: nat, tail: nat)
    requires Slot(size, head) && Slot(size, tail)
    ensures tail < head ==> tail + HEADER <= head
    ensures head < tail ==> head + HEADER <= tail
  {
    AlignedSum(tail, head);
    AlignedSum(head, tail);
  }

  lemma SpaceIsFree(size: nat, head: nat, tail: nat, used: nat)
    requires size > 0 && head < size && tail < size && used < size && head == Wrap(size, tail, used)
    ensures WriteSpace(size, head, tail) == size - used - 1
  {
    if head > tail {
      MaskIsWrap(tail + size - head, size);
    }
  }

  lemma ReserveKeeps(s: State, minimum: nat)
    requires Inv(s) && Enabled(s, Reserve(minimum))
    ensures Inv(DoReserve(s, minimum))
  {
    hide Aligned, CPad, Request, Total, Tiled;
    RequestBounds(s.size, s.head, s.tailSeen, Total(s.queue) + s.lag, minimum);
  }

  lemma FillKeeps(s: State, i: nat, b: byte)
    requires Inv(s) && Enabled(s, Fill(i, b))
    ensures Inv(DoFill(s, i, b))
  {
    hide Aligned, Tiled, Total, Pad8, Header, Wrap;
    var w := s.ppc.at + HEADER + i;
    WriteKeepsTiled(s, s.ppc.at, w, [b]);
    assert Over(s.buf, w, [b]) == s.buf[w := b];
  }

  lemma OverRead(buf: seq<byte>, off: nat, data: seq<byte>, lo: nat, hi: nat)
    requires off + |data| <= |buf| && lo <= hi <= |buf|
    ensures Over(buf, off, data)[off..off + |data|] == data
    ensures hi <= off || off + |data| <= lo ==> Over(buf, off, data)[lo..hi] == buf[lo..hi]
  {
    var r := Over(buf, off, data);
    assert r[off..off + |data|] == data;
    if hi <= off || off + |data| <= lo {
      var x, y := r[lo..hi], buf[lo..hi];
      forall i | 0 <= i < hi - lo
        ensures x[i] == y[i]
      {
        OverAt(buf, off, data, lo + i);
      }
    }
  }

  lemma WriteGapKeeps(s: State, written: nat)
    requires Inv(s) && Enabled(s, WriteGap(written))
    ensures s.gapd > 0 ==> HEADER <= s.gapd < HEADER + WORD_LIMIT && s.head + HEADER <= s.size
    ensures Inv(DoWriteGap(s, written))
  {
    hide Aligned, Tiled, Total, Pad8, Header, Over, Wrap;
    if s.gapd > 0 {
      var h := Header(s.gapd - HEADER, 1);
      WriteKeepsTiled(s, s.ppc.at, s.head, h);
      OverRead(s.buf, s.head, h, 0, 0);
    }
  }

  lemma WriteHeaderKeeps(s: State)
    requires Inv(s) && Enabled(s, WriteHeader)
    ensures s.ppc.written < WORD_LIMIT && s.ppc.at + HEADER <= s.size && Inv(DoWriteHeader(s))
  {
    hide Aligned, Tiled, Total, Pad8, Header, Over, Wrap;
    var h := Header(s.ppc.written, 0);
    WriteKeepsTiled(s, s.ppc.at, s.ppc.at, h);
    OverRead(s.buf, s.ppc.at, h, s.head, s.head + HEADER);
  }

  lemma StoreHeadKeeps(s: State)
    requires Inv(s) && Enabled(s, StoreHead)
    ensures s.ppc.at + HEADER + s.ppc.written <= s.size && Inv(DoStoreHead(s))
  {
    hide Aligned, Header, Total, Tiled, CommitAt, Mask, Pad8, Wrap;
    var at, w := s.ppc.at, s.ppc.written;
    var data := s.buf[at + HEADER..at + HEADER + w];
    var c := Commit(s.gapd, data);
    NewCommitInPlace(s, data);
    var s' := DoStoreHead(s);
    TiledAppend(s.size, s.buf, s.tail, s.queue, c);
    TotalSingle(c);
    TotalAppend(s.queue, [c]);
    WrapAdd(s.size, s.tail, Total(s.queue), Extent(c));
    assert s'.queue[..s.seen] == s.queue[..s.seen];
    assert Datas(s'.queue) == Datas(s.queue) + [data];
  }

  /** Storing head publishes exactly the element that was written. */
  lemma NewCommitInPlace(s: State, data: seq<byte>)
    requires IndicesOk(s) && ProducerOk(s) && Enabled(s, StoreHead)
    requires s.ppc.at + HEADER + s.ppc.written <= s.size
    requires data == s.buf[s.ppc.at + HEADER..s.ppc.at + HEADER + s.ppc.written]
    ensures CommitAt(s.size, s.buf, s.head, Commit(s.gapd, data))
    ensures Aligned(Extent(Commit(s.gapd, data)))
    ensures Extent(Commit(s.gapd, data)) <= s.gapd + s.rsvd
    ensures Mask(s.head + Extent(Commit(s.gapd, data)), s.size) == Wrap(s.size, s.head, Extent(Commit(s.gapd, data)))
    ensures Slot(s.size, Mask(s.head + Extent(Commit(s.gapd, data)), s.size))
  {
    hide Total, Header, Aligned, Pad8, Mask;
    assert Aligned(0) && Aligned(HEADER) by { ZeroIsAligned(); }
    ExtentIsAligned(s.size, s.buf, s.head, Commit(s.gapd, data));
    StoredHead(s.size, s.head, Extent(Commit(s.gapd, data)));
  }

  lemma ZeroIsAligned()
    ensures Aligned(0) && Aligned(HEADER)
  {
  }

  lemma ExtentIsAligned(size: nat, buf: seq<byte>, off: nat, c: Commit)
    requires |buf| == size && GoodSize(size) && CommitAt(size, buf, off, c)
    ensures Aligned(Extent(c))
  {
    hide Header, Pad8, Aligned;
    ZeroIsAligned();
    AlignedSum(HEADER, Pad8(|c.data|));
    if c.gap > 0 {
      AlignedSum(off, size);
      AlignedSum(c.gap, Footprint(|c.data|));
    }
  }

  lemma TotalSingle(c: Commit)
    ensures Total([c]) == Extent(c)
  {
  }

  lemma WrapAdd(size: nat, off: nat, d: nat, e: nat)
    requires off < size && d + e < size
    ensures Wrap(size, Wrap(size, off, d), e) == Wrap(size, off, d + e)
  {
  }

  lemma StoredHead(size: nat, head: nat, extent: nat)
    requires GoodSize(size) && Slot(size, head) && extent <= size && Aligned(extent)
    ensures Mask(head + extent, size) == Wrap(size, head, extent)
    ensures Slot(size, Mask(head + extent, size))
  {
    hide Aligned;
    MaskIsWrap(head + extent, size);
    WrapIsSlot(size, head, extent);
  }

  lemma LoadHeadKeeps(s: State, seen: nat)
    requires Inv(s) && Enabled(s, LoadHead(seen))
    ensures Inv(DoLoadHead(s, seen))
  {
    hide Aligned, Header, Tiled, CommitAt, Wrap, Pad8, Total;
    TotalSplit(s.queue, seen);
    TotalMultiple(s.size, s.buf, s.tail, s.queue, seen);
    WrapIsSlot(s.size, s.tail, Total(s.queue[..seen]));
  }

  /** Offsets stay multiples of 8 while walking from element to element. */
  lemma {:induction false} TotalMultiple(size: nat, buf: seq<byte>, off: nat, q: seq<Commit>, k: nat)
    requires |buf| == size && GoodSize(size) && Slot(size, off) && k <= |q| && Total(q) < size
    requires Tiled(size, buf, off, q)
    ensures Aligned(Total(q[..k]))
    decreases q
  {
    hide Header, Pad8, CommitAt, Aligned, Wrap;
    ZeroIsAligned();
    if k > 0 {
      var next := Wrap(size, off, Extent(q[0]));
      ExtentIsAligned(size, buf, off, q[0]);
      WrapIsSlot(size, off, Extent(q[0]));
      assert q[..k][0] == q[0] && q[..k][1..] == q[1..][..k - 1];
      TotalMultiple(size, buf, next, q[1..], k - 1);
      AlignedSum(Extent(q[0]), Total(q[1..][..k - 1]));
    }
  }

  /** What the consumer computes from its loaded head is the size of the commits it has noticed. */
  lemma ReadSpaceIsVisible(size: nat, head: nat, tail: nat, visible: nat)
    requires 0 < size && head < size && tail < size && visible < size && head == Wrap(size, tail, visible)
    ensures ReadSpace(size, head, tail) == visible
  {
    if head <= tail {
      MaskIsWrap(head + size - tail, size);
    }
  }

  lemma VisibleBounds(q: seq<Commit>, k: nat)
    requires k <= |q|
    ensures Total(q[..k]) <= Total(q)
    ensures k == 0 ==> Total(q[..k]) == 0
    ensures k > 0 ==> Extent(q[0]) <= Total(q[..k])
  {
    TotalSplit(q, k);
    if k > 0 {
      assert q[..k][0] == q[0];
    }
  }

  /**
   The wrapping test of the reader tells gaps from chunks: when something is visible, the
   element at tail is a gap exactly if the visible region wraps and the header says so. In
   particular the branch that does not look at the gap flag never meets a gap.
   */
  lemma GapIsRecognised(s: State)
    requires Inv(s)
    ensures ReadSpace(s.size, s.headSeen, s.tail) == Total(s.queue[..s.seen])
    ensures s.seen == 0 <==> Total(s.queue[..s.seen]) == 0
    ensures s.seen > 0 ==> s.tail + HEADER <= s.size
    ensures s.seen > 0 ==>
              (s.queue[0].gap > 0 <==> s.tail + Total(s.queue[..s.seen]) > s.size && HeaderGap(s.buf, s.tail) != 0)
    ensures s.seen > 0 && s.queue[0].gap == 0 ==> HeaderSize(s.buf, s.tail) == |s.queue[0].data|
    ensures s.seen > 0 && s.queue[0].gap > 0 ==>
              HeaderSize(s.buf, 0) == |s.queue[0].data| && s.tail + s.queue[0].gap == s.size
  {
    hide Total, Header, Pad8, Aligned, HeaderGap, HeaderSize;
    VisibleBounds(s.queue, s.seen);
    ReadSpaceIsVisible(s.size, s.headSeen, s.tail, Total(s.queue[..s.seen]));
    if s.seen > 0 {
      var c := s.queue[0];
      if c.gap > 0 {
        HeaderRoundTrip(s.buf, s.tail, c.gap - HEADER, 1);
        HeaderRoundTrip(s.buf, 0, |c.data|, 0);
      } else {
        HeaderRoundTrip(s.buf, s.tail, |c.data|, 0);
      }
    }
  }

  lemma {:induction false} TiledAt(size: nat, buf: seq<byte>, off: nat, q: seq<Commit>, k: nat)
    requires |buf| == size && off < size && k < |q| && Total(q) < size
    requires Tiled(size, buf, off, q)
    ensures Total(q[..k]) + Extent(q[k]) <= Total(q)
    ensures CommitAt(size, buf, Wrap(size, off, Total(q[..k])), q[k])
    decreases q
  {
    hide CommitAt, Pad8;
    if k > 0 {
      assert q[..k][0] == q[0] && q[..k][1..] == q[1..][..k - 1];
      TiledAt(size, buf, Wrap(size, off, Extent(q[0])), q[1..], k - 1);
      WrapAdd(size, off, Extent(q[0]), Total(q[1..][..k - 1]));
    }
  }

  lemma {:induction false} TotalMonotone(q: seq<Commit>, j: nat, k: nat)
    requires j < k <= |q|
    ensures Total(q[..j]) + Extent(q[j]) <= Total(q[..k])
    decreases q
  {
    hide Pad8;
    assert q[..k][0] == q[0] && q[..k][1..] == q[1..][..k - 1];
    if j > 0 {
      assert q[..j][0] == q[0] && q[..j][1..] == q[1..][..j - 1];
      TotalMonotone(q[1..], j - 1, k - 1);
    }
  }

  /**
   The ring in every reachable state: it is empty exactly if head equals tail; walking from tail
   every commit lies at an aligned offset; no two of them have a gap.
   */
  lemma RingLayout(s: State)
    requires Inv(s)
    ensures s.head == s.tail <==> s.queue == []
    ensures forall k :: 0 <= k < |s.queue| ==>
              var off := Wrap(s.size, s.tail, Total(s.queue[..k]));
              Aligned(off) && CommitAt(s.size, s.buf, off, s.queue[k])
    ensures forall j, k :: 0 <= j < k < |s.queue| ==> s.queue[j].gap == 0 || s.queue[k].gap == 0
  {
    hide Tiled, Total, Pad8, Header;
    TotalPositive(s.queue);
    forall k | 0 <= k < |s.queue|
      ensures CommitAt(s.size, s.buf, Wrap(s.size, s.tail, Total(s.queue[..k])), s.queue[k])
    {
      TiledAt(s.size, s.buf, s.tail, s.queue, k);
    }
    forall j, k | 0 <= j < k < |s.queue| ensures s.queue[j].gap == 0 || s.queue[k].gap == 0 {
      TiledAt(s.size, s.buf, s.tail, s.queue, j);
      TiledAt(s.size, s.buf, s.tail, s.queue, k);
      TotalMonotone(s.queue, j, k);
    }
  }

  lemma SkipKeepsTiled(size: nat, buf: seq<byte>, off: nat, q: seq<Commit>)
    requires |buf| == size && off < size && q != [] && q[0].gap > 0 && Total(q) < size
    requires Tiled(size, buf, off, q)
    ensures off + q[0].gap == size && q[0].gap >= HEADER
    ensures Tiled(size, buf, 0, Skip(q))
    ensures Total(Skip(q)) + q[0].gap == Total(q)
  {
    assert Skip(q)[1..] == q[1..];
  }

  lemma SkipTotals(q: seq<Commit>, k: nat)
    requires 0 < k <= |q|
    ensures Total(Skip(q)) + q[0].gap == Total(q)
    ensures Total(Skip(q)[..k]) + q[0].gap == Total(q[..k])
  {
    SkipTotal(q);
    SkipTotal(q[..k]);
    assert Skip(q)[..k] == Skip(q[..k]);
  }

  lemma SkipTotal(q: seq<Commit>)
    requires q != []
    ensures Total(Skip(q)) + q[0].gap == Total(q)
  {
    hide Footprint;
    assert Skip(q)[1..] == q[1..];
  }

  lemma SkipIndices(s: State, s': State)
    requires IndicesOk(s) && s.seen > 0 && s.queue[0].gap >= HEADER && s.tail + s.queue[0].gap == s.size
    requires s' == s.(tail := 0, cpc := Skipped, queue := Skip(s.queue), lag := s.lag + s.queue[0].gap)
    requires Total(s.queue[..s.seen]) <= Total(s.queue)
    ensures IndicesOk(s') && Total(s'.queue) + s'.lag == Total(s.queue) + s.lag
  {
    hide Total, Aligned, Wrap, Skip;
    var gap := s.queue[0].gap;
    SkipLength(s.queue);
    SkipTotals(s.queue, s.seen);
    WrapAtEnd(s.size, s.tail, gap);
    ZeroIsAligned();
    AlignedSum(s.tail, s.size);
    AlignedSum(s.lag, gap);
    WrapAdd(s.size, s.tail, gap, Total(s'.queue));
    WrapAdd(s.size, s.tail, gap, Total(s'.queue[..s.seen]));
    WrapAdd(s.size, s.tailSeen, s.lag, gap);
  }

  lemma SkipLength(q: seq<Commit>)
    requires q != []
    ensures |Skip(q)| == |q| && Datas(Skip(q)) == Datas(q) && Skip(q)[0].gap == 0
  {
  }

  lemma WrapAtEnd(size: nat, off: nat, gap: nat)
    requires off + gap == size
    ensures Wrap(size, off, gap) == 0
  {
  }

  lemma ExamineKeeps(s: State)
    requires Inv(s) && Enabled(s, Examine)
    ensures ReadSpace(s.size, s.headSeen, s.tail) > 0 ==> s.tail + HEADER <= s.size
    ensures Inv(DoExamine(s))
  {
    hide Total, Pad8, Aligned, Tiled, HeaderGap, HeaderSize, ReadSpace, Mask, CommitAt, Wrap, Skip, Header, Datas;
    GapIsRecognised(s);
    if s.seen > 0 && s.queue[0].gap > 0 {
      VisibleBounds(s.queue, s.seen);
      SkipKeepsTiled(s.size, s.buf, s.tail, s.queue);
      MaskIsWrap(s.size, s.size);
      SkipLength(s.queue);
      SkipIndices(s, DoExamine(s));
    }
  }

  lemma TakeAfterGapKeeps(s: State)
    requires Inv(s) && Enabled(s, TakeAfterGap)
    ensures HEADER <= s.size && Inv(DoTakeAfterGap(s))
  {
    hide Total, Pad8, Aligned, HeaderSize, Header;
    HeaderRoundTrip(s.buf, 0, |s.queue[0].data|, 0);
  }

  /** What stays behind when the first commit is taken off. */
  lemma DropFirst(size: nat, buf: seq<byte>, off: nat, q: seq<Commit>, k: nat)
    requires |buf| == size && off < size && 0 < k <= |q|
    requires Tiled(size, buf, off, q)
    ensures Tiled(size, buf, Wrap(size, off, Extent(q[0])), q[1..])
    ensures Total(q) == Extent(q[0]) + Total(q[1..])
    ensures Total(q[..k]) == Extent(q[0]) + Total(q[1..][..k - 1])
    ensures Total(q[1..][..k - 1]) <= Total(q[1..])
    ensures Datas(q) == [q[0].data] + Datas(q[1..])
  {
    hide CommitAt, Extent, Wrap;
    assert q[..k][0] == q[0] && q[..k][1..] == q[1..][..k - 1];
    TotalSplit(q[1..], k - 1);
  }

  /** The chunk in the consumer's hands is the oldest commit, byte for byte. */
  lemma HeldChunk(s: State)
    requires Inv(s) && s.cpc.Holding?
    ensures 0 < s.seen <= |s.queue| && s.cpc.at + HEADER + s.cpc.toread <= s.size
    ensures s.buf[s.cpc.at + HEADER..s.cpc.at + HEADER + s.cpc.toread] == s.queue[0].data
    ensures s.tail + HEADER <= s.size && HeaderSize(s.buf, s.tail) == s.cpc.toread == |s.queue[0].data|
    ensures s.cpc.toread <= MAX_CHUNK
    ensures Extent(s.queue[0]) == Footprint(s.cpc.toread) && Aligned(Extent(s.queue[0]))
  {
    hide Pad8, Aligned, HeaderSize, Header, Wrap, Total;
    HeaderRoundTrip(s.buf, s.tail, |s.queue[0].data|, 0);
    ExtentIsAligned(s.size, s.buf, s.tail, s.queue[0]);
  }

  lemma ReleaseKeeps(s: State)
    requires Inv(s) && Enabled(s, Release)
    ensures 0 < s.seen <= |s.queue| && s.tail + HEADER <= s.size && s.cpc.at + HEADER + s.cpc.toread <= s.size
    ensures Inv(DoRelease(s))
  {
    hide Pad8, CPad, Aligned, HeaderSize, Header, Mask, Wrap, Total, Tiled, Extent;
    var e := Extent(s.queue[0]);
    HeldChunk(s);
    DropFirst(s.size, s.buf, s.tail, s.queue, s.seen);
    PadsExactly(s.cpc.toread);
    assert e == HEADER + CPad(s.cpc.toread);
    StoredHead(s.size, s.tail, e);
    AlignedSum(s.lag, e);
    WrapAdd(s.size, s.tail, e, Total(s.queue[1..]));
    WrapAdd(s.size, s.tail, e, Total(s.queue[1..][..s.seen - 1]));
    WrapAdd(s.size, s.tailSeen, s.lag, e);
  }

  // ---- runs ----

  ghost function Next(s: State, step: Step): (s': State)
    requires Inv(s) && Enabled(s, step)
    ensures Inv(s') && s'.size == s.size
  {
    hide Total, Tiled, Datas, Mask, Header, Wrap, Aligned, Pad8, Over, CommitAt, Slot, ReadSpace, HeaderGap, HeaderSize;
    match step
    case LoadTail(lag) => LoadTailKeeps(s, lag); DoLoadTail(s, lag)
    case Reserve(minimum) => ReserveKeeps(s, minimum); DoReserve(s, minimum)
    case Fill(i, b) => FillKeeps(s, i, b); DoFill(s, i, b)
    case WriteGap(written) => WriteGapKeeps(s, written); DoWriteGap(s, written)
    case WriteHeader => WriteHeaderKeeps(s); DoWriteHeader(s)
    case StoreHead => StoreHeadKeeps(s); DoStoreHead(s)
    case LoadHead(seen) => LoadHeadKeeps(s, seen); DoLoadHead(s, seen)
    case Examine => ExamineKeeps(s); DoExamine(s)
    case TakeAfterGap => TakeAfterGapKeeps(s); DoTakeAfterGap(s)
    case Release => ReleaseKeeps(s); DoRelease(s)
  }

  /** A schedule: any interleaving in which each side follows its own program. */
  ghost predicate Legal(s: State, steps: seq<Step>)
    requires Inv(s)
    decreases |steps|
  {
    steps == [] || (Enabled(s, steps[0]) && Legal(Next(s, steps[0]), steps[1..]))
  }

  ghost function Run(s: State, steps: seq<Step>): State
    requires Inv(s) && Legal(s, steps)
    decreases |steps|
  {
    if steps == [] then s else Run(Next(s, steps[0]), steps[1..])
  }

  lemma InitInv(size: nat, buf: seq<byte>)
    requires GoodSize(size) && |buf| == size
    ensures Inv(Init(size, buf))
  {
  }

  /** The producer's chunk under construction: everything behind the header in the granted region. */
  ghost function Draft(s: State): seq<byte>
    requires Inv(s)
  {
    if s.ppc.Idle? then [] else s.buf[s.ppc.at + HEADER..s.ppc.at + s.rsvd]
  }

  /**
   The ring refines a FIFO queue of chunks: writing a byte changes the draft only, storing head
   appends the written part of the draft, releasing takes the oldest chunk, and no other step
   changes the draft, the queue or what was delivered.
   */
  lemma StepRefinesQueue(s: State, step: Step)
    requires Inv(s) && Enabled(s, step)
    ensures var s' := Next(s, step);
            match step
            case Reserve(_) => Datas(s'.queue) == Datas(s.queue) && s'.delivered == s.delivered
            case Fill(i, b) =>
              && i < |Draft(s)| && Draft(s') == Draft(s)[i := b]
              && Datas(s'.queue) == Datas(s.queue) && s'.delivered == s.delivered
            case StoreHead =>
              && s.ppc.written <= |Draft(s)|
              && Datas(s'.queue) == Datas(s.queue) + [Draft(s)[..s.ppc.written]]
              && s'.delivered == s.delivered
            case Release =>
              && s.queue != [] && s'.delivered == s.delivered + [s.queue[0].data]
              && Datas(s'.queue) == Datas(s.queue)[1..] && Draft(s') == Draft(s)
            case _ => Draft(s') == Draft(s) && Datas(s'.queue) == Datas(s.queue) && s'.delivered == s.delivered
  {
    hide Total, Pad8, Aligned, Tiled, Wrap, Header, HeaderGap, HeaderSize, Mask, ReadSpace, Over;
    match step
    case WriteGap(w) => GapLeavesDraft(s, w);
    case WriteHeader => HeaderLeavesDraft(s);
    case StoreHead => DraftPublished(s);
    case Examine => if s.queue != [] { SkipLength(s.queue); }
    case Release => HeldChunk(s);
    case _ =>
  }

  lemma GapLeavesDraft(s: State, w: nat)
    requires Inv(s) && Enabled(s, WriteGap(w))
    ensures Draft(Next(s, WriteGap(w))) == Draft(s)
  {
    hide Total, Pad8, Aligned, Tiled, Wrap, Header, Over, Datas, Slot;
    if s.gapd > 0 {
      WriteGapKeeps(s, w);
      OverRead(s.buf, s.head, Header(s.gapd - HEADER, 1), s.ppc.at + HEADER, s.ppc.at + s.rsvd);
    }
  }

  lemma HeaderLeavesDraft(s: State)
    requires Inv(s) && Enabled(s, WriteHeader)
    ensures Draft(Next(s, WriteHeader)) == Draft(s)
  {
    hide Total, Pad8, Aligned, Tiled, Wrap, Header, Over, Datas, Slot;
    WriteHeaderKeeps(s);
    OverRead(s.buf, s.ppc.at, Header(s.ppc.written, 0), s.ppc.at + HEADER, s.ppc.at + s.rsvd);
  }

  lemma DraftPublished(s: State)
    requires Inv(s) && Enabled(s, StoreHead)
    ensures s.ppc.written <= |Draft(s)|
    ensures Datas(Next(s, StoreHead).queue) == Datas(s.queue) + [Draft(s)[..s.ppc.written]]
  {
    hide Total, Pad8, Aligned, Tiled, Wrap, Header, Mask;
    var data := s.buf[s.ppc.at + HEADER..s.ppc.at + HEADER + s.ppc.written];
    SliceOfSlice(s.buf, s.ppc.at + HEADER, s.ppc.at + s.rsvd, 0, s.ppc.written);
    assert Draft(s)[..s.ppc.written] == Draft(s)[0..s.ppc.written];
    assert Datas(s.queue + [Commit(s.gapd, data)]) == Datas(s.queue) + [data];
  }

  /** Safety of every run: the chunks delivered are always a prefix of the chunks committed. */
  lemma {:induction false} DeliveredIsPrefix(s: State, steps: seq<Step>)
    requires Inv(s) && Legal(s, steps)
    ensures Inv(Run(s, steps))
    ensures Run(s, steps).delivered <= Run(s, steps).committed
    ensures Run(s, steps).committed == Run(s, steps).delivered + Datas(Run(s, steps).queue)
    ensures s.committed <= Run(s, steps).committed && s.delivered <= Run(s, steps).delivered
    decreases |steps|
  {
    hide Next, Datas;
    if steps != [] {
      var s' := Next(s, steps[0]);
      HistoryGrows(s, steps[0]);
      DeliveredIsPrefix(s', steps[1..]);
    }
  }

  lemma HistoryGrows(s: State, step: Step)
    requires Inv(s) && Enabled(s, step)
    ensures s.committed <= Next(s, step).committed && s.delivered <= Next(s, step).delivered
  {
    hide Inv, IndicesOk, Total, Tiled, Wrap, Mask, Header, HeaderGap, HeaderSize, ReadSpace, Over;
  }

  /**
   No byte the producer may touch - the gap header, the element header or the payload - is a
   byte of an unread chunk; in particular none is one of the chunk the consumer is holding.
   */
  lemma GrantIsDisjoint(s: State, w: nat, d: nat)
    requires Inv(s) && !s.ppc.Idle?
    requires s.ppc.at <= w < s.ppc.at + s.rsvd || (s.gapd > 0 && s.head <= w < s.size)
    ensures d < Total(s.queue) ==> w != Wrap(s.size, s.tail, d)
    ensures s.cpc.Holding? && s.cpc.at <= d < s.cpc.at + HEADER + s.cpc.toread ==> w != d
  {
    hide Total, Tiled, Aligned, Pad8;
    var e := GrantIsAhead(s, s.ppc.at, w);
    if s.cpc.Holding? {
      HeldChunk(s);
      VisibleBounds(s.queue, |s.queue|);
      assert s.queue[..|s.queue|] == s.queue;
    }
  }

  predicate IsConsumerStep(step: Step) {
    step.LoadHead? || step.Examine? || step.TakeAfterGap? || step.Release?
  }

  /** Until write_advance, no number of consumer steps takes the granted region away. */
  lemma {:induction false} GrantSurvives(s: State, steps: seq<Step>)
    requires Inv(s) && Legal(s, steps) && forall i :: 0 <= i < |steps| ==> IsConsumerStep(steps[i])
    ensures Inv(Run(s, steps))
    ensures var s' := Run(s, steps);
            s'.ppc == s.ppc && s'.rsvd == s.rsvd && s'.gapd == s.gapd && s'.head == s.head && s'.buf == s.buf
    decreases |steps|
  {
    hide Inv, IndicesOk, Total, Tiled, Wrap, Mask, HeaderGap, HeaderSize, ReadSpace;
    if steps != [] {
      GrantSurvives(Next(s, steps[0]), steps[1..]);
    }
  }

  /** And no number of producer steps changes the chunk in the consumer's hands. */
  lemma {:induction false} HeldChunkSurvives(s: State, steps: seq<Step>)
    requires Inv(s) && s.cpc.Holding? && Legal(s, steps)
    requires forall i :: 0 <= i < |steps| ==> !IsConsumerStep(steps[i])
    ensures Inv(Run(s, steps))
    ensures var s' := Run(s, steps);
            && s'.cpc == s.cpc && s.cpc.at + HEADER + s.cpc.toread <= s.size == |s'.buf| == |s.buf|
            && s'.buf[s.cpc.at + HEADER..s.cpc.at + HEADER + s.cpc.toread]
               == s.buf[s.cpc.at + HEADER..s.cpc.at + HEADER + s.cpc.toread]
    decreases |steps|
  {
    hide Total, Tiled, Wrap, Mask, Header, Over, Aligned, Pad8, ChunkAt;
    HeldChunk(s);
    if steps != [] {
      var s' := Next(s, steps[0]);
      assert s'.queue[0] == s.queue[0];
      HeldChunk(s');
      HeldChunkSurvives(s', steps[1..]);
    }
  }

  // ---- how much the ring accepts ----

  /** From every offset an empty ring grants a request exactly up to half of its size, with room up to MAX_CHUNK. */
  lemma EmptyRingAccepts(size: nat, minimum: nat)
    requires 16 <= size && size % 16 == 0
    ensures (forall head :: Slot(size, head) ==> Request(size, head, head, minimum).Region?)
            <==> 2 * HEADER + CPad(minimum) <= size / 2
    ensures (forall head :: Slot(size, head) ==> Accepts(size, head, minimum))
            <==> minimum <= MAX_CHUNK && 2 * HEADER + Pad8(minimum) <= size / 2
  {
    hide Pad8, CPad, Request;
    PadsExactly(minimum);
    if 2 * HEADER + CPad(minimum) <= size / 2 {
      forall head | Slot(size, head)
        ensures Request(size, head, head, minimum).Region?
        ensures Accepts(size, head, minimum) <==> minimum <= MAX_CHUNK
      {
        RequestFromEmpty(size / 2, head, minimum);
        RoomExactly(size, head, head, minimum);
      }
      assert Slot(size, 0);
    } else {
      RequestFromMiddle(size / 2, minimum);
      assert Slot(size, size / 2);
    }
  }

  /** An empty ring grants the request and has room for all that was asked for. */
  predicate Accepts(size: nat, head: nat, minimum: nat)
    requires head < size
  {
    Request(size, head, head, minimum).Region? && FitsIn(Request(size, head, head, minimum).rsvd, minimum)
  }

  lemma RequestFromEmpty(half: nat, head: nat, minimum: nat)
    requires 8 <= half && Aligned(half) && Slot(2 * half, head)
    requires 2 * HEADER + CPad(minimum) <= half
    ensures Request(2 * half, head, head, minimum).Region?
  {
    hide Mask, CPad, Aligned;
    var end := head + 2 * half - 1;
    if end > 2 * half {
      MaskIsWrap(end, 2 * half);
      AlignedSum(half, head);
    }
  }

  lemma RequestFromMiddle(half: nat, minimum: nat)
    requires 8 <= half && Aligned(half) && 2 * HEADER + CPad(minimum) > half
    ensures Request(2 * half, half, half, minimum).Refused?
  {
    hide Mask, CPad, Aligned;
    MaskIsWrap(half + 2 * half - 1, 2 * half);
  }

  /** How far a byte lies behind tail, counted around the end of the buffer. */
  function Behind(size: nat, tail: nat, w: nat): int {
    if w >= tail then w - tail else w + size - tail
  }

  /** Neither unread, nor the last byte before a whole lap, which always stays free. */
  predicate IsFree(size: nat, tail: nat, used: nat, w: nat) {
    used <= Behind(size, tail, w) < size - 1
  }

  /** n free bytes in a row from `at` on, inside the buffer. */
  predicate FreeFrom(size: nat, tail: nat, used: nat, at: nat, n: nat) {
    at + n <= size && forall w :: at <= w < at + n ==> IsFree(size, tail, used, w)
  }

  /** The longest such row. */
  predicate LongestFree(size: nat, tail: nat, used: nat, at: nat, n: nat) {
    FreeFrom(size, tail, used, at, n) && !FreeFrom(size, tail, used, at, n + 1)
  }

  /**
   A request is granted exactly if there are enough free bytes in a row at head or at the start
   of the buffer, at head if possible, and all of them are granted.
   */
  lemma GrantedExactly(size: nat, head: nat, tail: nat, used: nat, minimum: nat)
    requires head < size && tail < size && used < size && head == Wrap(size, tail, used)
    ensures var need := 2 * HEADER + CPad(minimum);
            match Request(size, head, tail, minimum)
            case Refused => !FreeFrom(size, tail, used, head, need) && !FreeFrom(size, tail, used, 0, need)
            case Region(at, rsvd, gapd) =>
              && need <= rsvd && LongestFree(size, tail, used, at, rsvd)
              && (FreeFrom(size, tail, used, head, need) ==> at == head && gapd == 0)
              && (!FreeFrom(size, tail, used, head, need) ==>
                    at == 0 && gapd == size - head && FreeFrom(size, tail, used, 0, need))
  {
    hide CPad, Mask, FreeFrom;
    SpaceIsFree(size, head, tail, used);
    var need, space := 2 * HEADER + CPad(minimum), size - used - 1;
    FreeAtHead(size, head, tail, used, need);
    FreeAtStart(size, head, tail, used, need);
    if head + space > size {
      MaskIsWrap(head + space, size);
      FreeAtHead(size, head, tail, used, size - head);
      FreeAtHead(size, head, tail, used, size - head + 1);
      FreeAtStart(size, head, tail, used, head + space - size);
      FreeAtStart(size, head, tail, used, head + space - size + 1);
    } else {
      FreeAtHead(size, head, tail, used, space);
      FreeAtHead(size, head, tail, used, space + 1);
    }
  }

  /** From head on all is free up to the end of the buffer or the last byte of the lap. */
  lemma FreeAtHead(size: nat, head: nat, tail: nat, used: nat, n: nat)
    requires head < size && tail < size && used < size && head == Wrap(size, tail, used)
    ensures FreeFrom(size, tail, used, head, n) <==> head + n <= size && n <= size - used - 1
  {
    if n > size - used - 1 && head + n <= size {
      assert !IsFree(size, tail, used, head + (size - used - 1));
    }
  }

  /** And at the start of the buffer what is left of it behind the end. */
  lemma FreeAtStart(size: nat, head: nat, tail: nat, used: nat, n: nat)
    requires head < size && tail < size && used < size && head == Wrap(size, tail, used) && n > 0
    ensures FreeFrom(size, tail, used, 0, n) <==>
            (if head == 0 then n <= size - used - 1 else head + size - used - 1 - size >= n)
  {
    if used > Behind(size, tail, 0) {
      assert !IsFree(size, tail, used, 0);
    } else if 0 < tail <= n {
      assert !IsFree(size, tail, used, tail - 1);
    } else if n <= size {
      assert Behind(size, tail, n - 1) >= size - 1 ==> !IsFree(size, tail, used, n - 1);
    }
  }

  /** A body of up to 16 bytes holds two headers at best, so it never grants a request. */
  lemma SmallRingRefuses(size: nat, head: nat, tail: nat, minimum: nat)
    requires head < size <= 16 && tail < size
    ensures Request(size, head, tail, minimum).Refused?
  {
  }

  /** A granted request has room for what was asked for exactly up to the largest chunk. */
  lemma RoomExactly(size: nat, head: nat, tail: nat, minimum: nat)
    requires head < size && tail < size && Request(size, head, tail, minimum).Region?
    ensures var rsvd := Request(size, head, tail, minimum).rsvd;
            && 2 * HEADER + CPad(minimum) <= rsvd <= size
            && (FitsIn(rsvd, minimum) <==> minimum <= MAX_CHUNK)
            && (size <= WORD_LIMIT ==> (2 * HEADER + Pad8(minimum) <= rsvd <==> minimum <= MAX_CHUNK))
  {
    hide Mask, Pad8, CPad;
    PadsExactly(minimum);
    GrantBounds(size, head, tail, minimum);
  }

  lemma GrantBounds(size: nat, head: nat, tail: nat, minimum: nat)
    requires head < size && tail < size && Request(size, head, tail, minimum).Region?
    ensures 2 * HEADER + CPad(minimum) <= Request(size, head, tail, minimum).rsvd <= size
  {
    hide Mask, CPad;
    if head > tail {
      var d := Mask(tail + size - head, size);
    }
  }

  /** Beyond that the padded size starts from 0 again: a ring of 64 bytes grants 2^32 bytes, and has 63. */
  lemma HugeRequestIsGranted()
    ensures Request(64, 0, 0, WORD_LIMIT) == Request(64, 0, 0, WORD_LIMIT - 7) == Region(0, 63, 0)
    ensures !FitsIn(63, WORD_LIMIT) && !FitsIn(63, WORD_LIMIT - 7)
  {
  }

  /**
   The assertion in write_advance compares the chunk with rsvd, but rsvd still counts the header
   and ignores the padding. What makes head move past the whole chunk, and keeps the element
   inside the buffer and short of one lap, is for every granted request exactly FitsIn.
   */
  lemma CommitFitsExactly(size: nat, head: nat, tail: nat, used: nat, minimum: nat, written: nat)
    requires GoodSize(size) && Slot(size, head) && Slot(size, tail) && used < size && head == Wrap(size, tail, used)
    requires Request(size, head, tail, minimum).Region?
    ensures var g := Request(size, head, tail, minimum);
            (written <= CPad(written)
             && g.at + HEADER + CPad(written) <= size
             && used + g.gapd + HEADER + CPad(written) < size) <==> FitsIn(g.rsvd, written)
  {
    hide Pad8, CPad, Mask, Aligned;
    PadsExactly(written);
    SpaceIsFree(size, head, tail, used);
    var space := size - used - 1;
    if head + space > size {
      MaskIsWrap(head + space, size);
      EndsAreAligned(size, head, tail);
    }
  }

  /** The source's own assertion admits a commit that does not fit: 63 bytes into an empty ring of 64. */
  lemma AssertionIsTooWeak()
    ensures var g := Request(64, 0, 0, 8);
            g.Region? && 63 <= g.rsvd && !FitsIn(g.rsvd, 63) && Mask(HEADER + CPad(63), 64) == 8
  {
  }

  /** A caller that writes no more than it asked for always fits exactly if it asked for at most MAX_CHUNK. */
  lemma MinimumFits(size: nat, head: nat, tail: nat, minimum: nat)
    requires head < size && tail < size && Request(size, head, tail, minimum).Region?
    ensures (forall written :: 0 <= written <= minimum ==> FitsIn(Request(size, head, tail, minimum).rsvd, written))
            <==> minimum <= MAX_CHUNK
  {
    hide Mask, Request;
    RoomExactly(size, head, tail, minimum);
  }

  /** The most that can be committed into a grant: what is left behind the header, in whole units of 8. */
  function Largest(rsvd: nat): nat
    requires rsvd >= HEADER
  {
    if rsvd >= WORD_LIMIT then MAX_CHUNK else (rsvd - HEADER) / 8 * 8
  }

  /**
   The maximum that a request reports still counts the header, so committing all of it never
   fits the grant; a commit fits exactly if it is no larger than the largest one.
   */
  lemma MaximumNeverFits(size: nat, head: nat, tail: nat, minimum: nat, written: nat)
    requires head < size && tail < size && Request(size, head, tail, minimum).Region?
    ensures var rsvd := Request(size, head, tail, minimum).rsvd;
            && HEADER <= rsvd && !FitsIn(rsvd, rsvd)
            && (FitsIn(rsvd, written) <==> written <= Largest(rsvd))
            && Largest(rsvd) < rsvd && (minimum <= Largest(rsvd) <==> minimum <= MAX_CHUNK)
  {
    hide Pad8, Request;
    var rsvd := Request(size, head, tail, minimum).rsvd;
    RoomExactly(size, head, tail, minimum);
    PadBelow(rsvd - HEADER, written);
    PadBelow(rsvd - HEADER, minimum);
  }

  lemma PadBelow(room: nat, n: nat)
    ensures Pad8(n) <= room <==> n <= room / 8 * 8
    ensures room / 8 * 8 <= room
  {
    var k, m := room / 8, (n + 7) / 8;
    assert Pad8(n) == 8 * m && 8 * k <= room < 8 * k + 8;
    if n <= 8 * k {
      assert m <= k;
    } else {
      assert m > k;
    }
  }
}
