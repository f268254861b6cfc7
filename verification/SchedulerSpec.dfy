/**
 Scheduling of received bundles: which packets a period accepts and dispatches, stated on
 sequences, and what follows over any number of periods.
 */
module SchedulerSpec {
  import opened Bytes
  import opened OscDecode

  type Buffer = seq<byte>

  /** A packet handed on at a frame of the current period. */
  datatype Event = Event(frames: real, packet: Buffer)

  /** The clock of one period: the frame, counted from its start, at which a timetag is due. */
  type Clock = nat -> real

  const LIST_SIZE: nat := 2048
  const MTU_SIZE: nat := 1500
  const IMMEDIATE: nat := 1

  ghost predicate Increasing(f: Clock) {
    forall s: nat, t: nat :: s < t ==> f(s) < f(t)
  }

  /** Packets that look like a bundle really begin with one item. */
  predicate WellFormed(b: Buffer) {
    IsBundle(b) ==> |b| >= 16 && ReadSize(b[16..]).Got?
  }

  function Timetag(b: Buffer): nat {
    if |b| < 16 then 0 else FromBe32(b[8..12]) * WORD_LIMIT + FromBe32(b[12..16])
  }

  /** Dispatched as soon as it is read. */
  predicate Immediate(scheduled: bool, b: Buffer) {
    if IsBundle(b) then Timetag(b) == IMMEDIATE || !scheduled else IsMessage(b)
  }

  /** Kept until it is due. */
  predicate Accepted(scheduled: bool, b: Buffer) {
    IsBundle(b) && scheduled && Timetag(b) != IMMEDIATE && |b| <= MTU_SIZE
  }

  function Immediates(scheduled: bool, incoming: seq<Buffer>): seq<Event> {
    if incoming == [] then []
    else
      var more := Immediates(scheduled, incoming[..|incoming| - 1]);
      var b := incoming[|incoming| - 1];
      if Immediate(scheduled, b) then more + [Event(0.0, b)] else more
  }

  function Accepts(scheduled: bool, incoming: seq<Buffer>): seq<Buffer> {
    if incoming == [] then []
    else
      var more := Accepts(scheduled, incoming[..|incoming| - 1]);
      var b := incoming[|incoming| - 1];
      if Accepted(scheduled, b) then more + [b] else more
  }

  /** What a list of packets hands on at once and keeps is what its parts do, in order. */
  lemma {:induction false} OneByOne(scheduled: bool, x: seq<Buffer>, y: seq<Buffer>)
    ensures Immediates(scheduled, x + y) == Immediates(scheduled, x) + Immediates(scheduled, y)
    ensures Accepts(scheduled, x + y) == Accepts(scheduled, x) + Accepts(scheduled, y)
    decreases |y|
  {
    hide Immediate, Accepted;
    if y == [] {
      assert x + y == x;
    } else {
      var z := y[..|y| - 1];
      assert (x + y)[..|x + y| - 1] == x + z;
      OneByOne(scheduled, x, z);
    }
  }

  /** A packet that is immediate goes out at frame 0, one that is to wait is kept, any other is dropped. */
  lemma OnePacket(scheduled: bool, b: Buffer)
    ensures Immediates(scheduled, [b]) == if Immediate(scheduled, b) then [Event(0.0, b)] else []
    ensures Accepts(scheduled, [b]) == if Accepted(scheduled, b) then [b] else []
    ensures Immediates(scheduled, []) == [] && Accepts(scheduled, []) == []
  {
    hide Immediate, Accepted;
    assert [b][..0] == [];
  }

  /** Those of the accepted bundles that find a free entry. */
  function Taken(scheduled: bool, before: seq<Buffer>, incoming: seq<Buffer>): (r: seq<Buffer>)
    ensures |before| <= LIST_SIZE ==> |before| + |r| <= LIST_SIZE
  {
    var all := Accepts(scheduled, incoming);
    if |before| + |all| <= LIST_SIZE then all
    else if |before| <= LIST_SIZE then all[..LIST_SIZE - |before|]
    else []
  }

  /** Bundles are dropped exactly if they do not all fit; then the first ones fill the list. */
  lemma DropsExactly(scheduled: bool, before: seq<Buffer>, incoming: seq<Buffer>)
    requires |before| <= LIST_SIZE
    ensures var all, taken := Accepts(scheduled, incoming), Taken(scheduled, before, incoming);
            && taken <= all
            && (taken != all <==> |before| + |all| > 2048)
            && (taken != all ==> |before| + |taken| == 2048)
  {
    hide Accepts;
  }

  function Clamp(x: real): real {
    if x < 0.0 then 0.0 else x
  }

  function Packets(events: seq<Event>): (r: seq<Buffer>)
    ensures |r| == |events|
  {
    seq(|events|, i requires 0 <= i < |events| => events[i].packet)
  }

  ghost predicate SortedByTime(pending: seq<Buffer>) {
    forall i, j :: 0 <= i < j < |pending| ==> Timetag(pending[i]) <= Timetag(pending[j])
  }

  ghost predicate NonDecreasing(events: seq<Event>) {
    forall i, j :: 0 <= i < j < |events| ==> events[i].frames <= events[j].frames
  }

  ghost predicate OnTime(f: Clock, nsamples: nat, e: Event) {
    e.frames == Clamp(f(Timetag(e.packet))) && 0.0 <= e.frames < nsamples as real
  }

  /**
   What one period does with the bundles pending before it and the packets read in it: those
   that are immediate go out first, then bundles at their clamped frames in order; what is left
   is due after the end of the period and sorted by timetag.
   */
  ghost predicate Period(scheduled: bool, f: Clock, nsamples: nat, incoming: seq<Buffer>,
                         before: seq<Buffer>, after: seq<Buffer>, due: seq<Event>, out: seq<Event>) {
    && out == Immediates(scheduled, incoming) + due
    && (forall i :: 0 <= i < |due| ==> OnTime(f, nsamples, due[i]))
    && NonDecreasing(due)
    && multiset(Packets(due)) + multiset(after) == multiset(before) + multiset(Taken(scheduled, before, incoming))
    && (forall i :: 0 <= i < |after| ==> f(Timetag(after[i])) >= nsamples as real)
    && SortedByTime(after)
  }

  lemma PacketAt(events: seq<Event>, i: nat)
    requires i < |events|
    ensures Packets(events)[i] == events[i].packet
  {
  }

  /** A period dispatches every copy of a bundle that is due before its end, and no other bundle. */
  lemma ExactlyTheDue(scheduled: bool, f: Clock, nsamples: nat, incoming: seq<Buffer>,
                      before: seq<Buffer>, after: seq<Buffer>, due: seq<Event>, out: seq<Event>, b: Buffer)
    requires Period(scheduled, f, nsamples, incoming, before, after, due, out)
    ensures multiset(Packets(due))[b] ==
            if f(Timetag(b)) < nsamples as real
            then multiset(before)[b] + multiset(Taken(scheduled, before, incoming))[b] else 0
    ensures multiset(after)[b] ==
            if f(Timetag(b)) < nsamples as real
            then 0 else multiset(before)[b] + multiset(Taken(scheduled, before, incoming))[b]
  {
    hide Timetag, Taken, Immediates, Packets;
    assert (multiset(Packets(due)) + multiset(after))[b]
        == multiset(before)[b] + multiset(Taken(scheduled, before, incoming))[b];
    if b in multiset(after) {
      assert b in after;
      var i :| 0 <= i < |after| && after[i] == b;
    }
    if b in multiset(Packets(due)) {
      assert b in Packets(due);
      var i :| 0 <= i < |due| && Packets(due)[i] == b;
      PacketAt(due, i);
      assert OnTime(f, nsamples, due[i]);
    }
  }

  // ---- what the timetag is ----

  /** The first half of a timetag, in network byte order. */
  function Seconds(b: Buffer): nat
    requires |b| >= 16
  {
    b[8] as int * 0x100_0000 + b[9] as int * 0x1_0000 + b[10] as int * 0x100 + b[11] as int
  }

  /** The second half. */
  function Fraction(b: Buffer): nat
    requires |b| >= 16
  {
    b[12] as int * 0x100_0000 + b[13] as int * 0x1_0000 + b[14] as int * 0x100 + b[15] as int
  }

  lemma TimetagIs(b: Buffer)
    requires |b| >= 16
    ensures Seconds(b) < 0x1_0000_0000 && Fraction(b) < 0x1_0000_0000
    ensures Timetag(b) == 0x1_0000_0000 * Seconds(b) + Fraction(b)
  {
    FromBe32Sum(b[8..12]);
    FromBe32Sum(b[12..16]);
  }

  /** Fewer seconds, or as many and the smaller fraction. */
  predicate Earlier(a: Buffer, b: Buffer)
    requires |a| >= 16 && |b| >= 16
  {
    Seconds(a) < Seconds(b) || (Seconds(a) == Seconds(b) && Fraction(a) < Fraction(b))
  }

  lemma EarlierIs(a: Buffer, b: Buffer)
    requires |a| >= 16 && |b| >= 16
    ensures Earlier(a, b) <==> Timetag(a) < Timetag(b)
  {
    hide Timetag, Seconds, Fraction;
    TimetagIs(a);
    TimetagIs(b);
  }

  /** A bundle goes out at once if its timetag is one fraction or nobody schedules; a message always does. */
  lemma ImmediateIs(scheduled: bool, b: Buffer)
    requires WellFormed(b)
    ensures IsBundle(b) ==>
              && |b| >= 16
              && (Immediate(scheduled, b) <==> !scheduled || (Seconds(b) == 0 && Fraction(b) == 1))
              && (Accepted(scheduled, b) <==> scheduled && !(Seconds(b) == 0 && Fraction(b) == 1) && |b| <= 1500)
    ensures !IsBundle(b) ==> !Accepted(scheduled, b) && (Immediate(scheduled, b) <==> b != [] && b[0] == 0x2F)
  {
    hide Timetag, ReadSize;
    if IsBundle(b) {
      TimetagIs(b);
    }
  }

  ghost predicate Dated(s: seq<Buffer>) {
    forall i :: 0 <= i < |s| ==> |s[i]| >= 16
  }

  /** The frame at which a bundle is due. */
  ghost function DueAt(f: Clock, b: Buffer): real
    requires |b| >= 16
  {
    f(0x1_0000_0000 * Seconds(b) + Fraction(b))
  }

  /**
   A period by the time of its bundles: each goes out at its frame, a late one at frame 0; whatever
   goes out is earlier than whatever stays, and unless they are late they go out and stay in order.
   */
  ghost predicate ByTime(f: Clock, nsamples: nat, after: seq<Buffer>, due: seq<Event>) {
    && Dated(after) && Dated(Packets(due))
    && (forall i :: 0 <= i < |due| ==>
          var x := DueAt(f, Packets(due)[i]);
          x < nsamples as real && due[i].frames == if x < 0.0 then 0.0 else x)
    && (forall i :: 0 <= i < |after| ==> DueAt(f, after[i]) >= nsamples as real)
    && (forall i, j :: 0 <= i < |due| && 0 <= j < |after| ==> Earlier(Packets(due)[i], after[j]))
    && (forall i, j :: 0 <= i < j < |due| && due[i].frames > 0.0 ==> !Earlier(Packets(due)[j], Packets(due)[i]))
    && (forall i, j :: 0 <= i < j < |after| ==> !Earlier(after[j], after[i]))
  }

  lemma {:induction false} TakenDated(scheduled: bool, before: seq<Buffer>, incoming: seq<Buffer>)
    requires forall k :: 0 <= k < |incoming| ==> WellFormed(incoming[k])
    ensures Dated(Accepts(scheduled, incoming)) && Dated(Taken(scheduled, before, incoming))
    decreases |incoming|
  {
    hide Timetag, ReadSize;
    if incoming != [] {
      TakenDated(scheduled, before, incoming[..|incoming| - 1]);
    }
  }

  lemma PartDated(part: multiset<Buffer>, whole: multiset<Buffer>, s: seq<Buffer>, x: seq<Buffer>, y: seq<Buffer>)
    requires part <= whole && part == multiset(s) && whole == multiset(x) + multiset(y) && Dated(x) && Dated(y)
    ensures Dated(s)
  {
    forall i | 0 <= i < |s| ensures |s[i]| >= 16 {
      assert s[i] in part;
      assert s[i] in whole;
      assert s[i] in x || s[i] in y;
    }
  }

  lemma PeriodByTime(scheduled: bool, f: Clock, nsamples: nat, incoming: seq<Buffer>,
                     before: seq<Buffer>, after: seq<Buffer>, due: seq<Event>, out: seq<Event>)
    requires Period(scheduled, f, nsamples, incoming, before, after, due, out) && Increasing(f)
    requires Dated(before) && forall k :: 0 <= k < |incoming| ==> WellFormed(incoming[k])
    ensures ByTime(f, nsamples, after, due)
  {
    hide Timetag, Seconds, Fraction, Taken, Immediates, WellFormed, Earlier, DueAt, Dated, Increasing, Packets;
    TakenDated(scheduled, before, incoming);
    var whole := multiset(before) + multiset(Taken(scheduled, before, incoming));
    PartDated(multiset(after), whole, after, before, Taken(scheduled, before, incoming));
    PartDated(multiset(Packets(due)), whole, Packets(due), before, Taken(scheduled, before, incoming));
    DueByTime(f, nsamples, due);
    AfterByTime(f, nsamples, after);
    DueBeforeAfter(f, nsamples, after, due);
  }

  lemma DueByTime(f: Clock, nsamples: nat, due: seq<Event>)
    requires Increasing(f) && Dated(Packets(due)) && NonDecreasing(due)
    requires forall i :: 0 <= i < |due| ==> OnTime(f, nsamples, due[i])
    ensures forall i :: 0 <= i < |due| ==>
              var x := DueAt(f, Packets(due)[i]);
              x < nsamples as real && due[i].frames == if x < 0.0 then 0.0 else x
    ensures forall i, j :: 0 <= i < j < |due| && due[i].frames > 0.0 ==> !Earlier(Packets(due)[j], Packets(due)[i])
  {
    hide Timetag, Seconds, Fraction, Earlier, Increasing, Packets;
    forall i | 0 <= i < |due|
      ensures DueAt(f, Packets(due)[i]) == f(Timetag(Packets(due)[i])) && Packets(due)[i] == due[i].packet
    {
      PacketAt(due, i);
      TimetagIs(Packets(due)[i]);
    }
    forall i, j | 0 <= i < j < |due| && due[i].frames > 0.0 ensures !Earlier(Packets(due)[j], Packets(due)[i]) {
      assert OnTime(f, nsamples, due[i]) && OnTime(f, nsamples, due[j]);
      ClockOrders(f, Packets(due)[j], Packets(due)[i]);
    }
  }

  lemma AfterByTime(f: Clock, nsamples: nat, after: seq<Buffer>)
    requires Dated(after) && SortedByTime(after)
    requires forall i :: 0 <= i < |after| ==> f(Timetag(after[i])) >= nsamples as real
    ensures forall i :: 0 <= i < |after| ==> DueAt(f, after[i]) >= nsamples as real
    ensures forall i, j :: 0 <= i < j < |after| ==> !Earlier(after[j], after[i])
  {
    hide Timetag, Seconds, Fraction, Earlier;
    forall i | 0 <= i < |after| ensures DueAt(f, after[i]) >= nsamples as real {
      TimetagIs(after[i]);
    }
    forall i, j | 0 <= i < j < |after| ensures !Earlier(after[j], after[i]) {
      EarlierIs(after[j], after[i]);
    }
  }

  lemma DueBeforeAfter(f: Clock, nsamples: nat, after: seq<Buffer>, due: seq<Event>)
    requires Increasing(f) && Dated(after) && Dated(Packets(due))
    requires forall i :: 0 <= i < |due| ==> DueAt(f, Packets(due)[i]) < nsamples as real
    requires forall i :: 0 <= i < |after| ==> DueAt(f, after[i]) >= nsamples as real
    ensures forall i, j :: 0 <= i < |due| && 0 <= j < |after| ==> Earlier(Packets(due)[i], after[j])
  {
    hide Timetag, Seconds, Fraction, Earlier, Increasing, Packets;
    forall i, j | 0 <= i < |due| && 0 <= j < |after| ensures Earlier(Packets(due)[i], after[j]) {
      TimetagIs(Packets(due)[i]);
      TimetagIs(after[j]);
      ClockOrders(f, Packets(due)[i], after[j]);
    }
  }

  lemma ClockOrders(f: Clock, a: Buffer, b: Buffer)
    requires Increasing(f) && |a| >= 16 && |b| >= 16
    ensures Earlier(a, b) <==> f(Timetag(a)) < f(Timetag(b))
  {
    hide Timetag, Earlier;
    EarlierIs(a, b);
    var s, t := Timetag(a), Timetag(b);
    assert s < t ==> f(s) < f(t);
    assert t < s ==> f(t) < f(s);
  }

  // ---- many periods ----

  datatype Cycle = Cycle(clock: Clock, nsamples: nat, incoming: seq<Buffer>,
                         due: seq<Event>, out: seq<Event>, after: seq<Buffer>)

  function Pending(start: seq<Buffer>, cycles: seq<Cycle>): seq<Buffer> {
    if cycles == [] then start else cycles[|cycles| - 1].after
  }

  ghost predicate History(scheduled: bool, start: seq<Buffer>, cycles: seq<Cycle>) {
    cycles != [] ==>
      var c := cycles[|cycles| - 1];
      && History(scheduled, start, cycles[..|cycles| - 1])
      && Period(scheduled, c.clock, c.nsamples, c.incoming,
                Pending(start, cycles[..|cycles| - 1]), c.after, c.due, c.out)
  }

  function AllDue(cycles: seq<Cycle>): seq<Buffer> {
    if cycles == [] then [] else AllDue(cycles[..|cycles| - 1]) + Packets(cycles[|cycles| - 1].due)
  }

  function AllTaken(scheduled: bool, start: seq<Buffer>, cycles: seq<Cycle>): seq<Buffer> {
    if cycles == [] then []
    else
      var rest := cycles[..|cycles| - 1];
      AllTaken(scheduled, start, rest) + Taken(scheduled, Pending(start, rest), cycles[|cycles| - 1].incoming)
  }

  lemma Balance<T>(gone: multiset<T>, held: multiset<T>, first: multiset<T>, come: multiset<T>,
                   gone': multiset<T>, held': multiset<T>, come': multiset<T>)
    requires gone + held == first + come && gone' + held' == held + come'
    ensures gone + gone' + held' == first + (come + come')
  {
    assert gone + gone' + held' == gone + (gone' + held');
    assert gone + (held + come') == (gone + held) + come';
    assert (first + come) + come' == first + (come + come');
  }

  /**
   Over any sequence of periods no bundle that found a free entry is lost, dispatched twice or
   made up, and the list is sorted at the end of each.
   */
  lemma {:induction false} NothingIsLost(scheduled: bool, start: seq<Buffer>, cycles: seq<Cycle>)
    requires History(scheduled, start, cycles) && SortedByTime(start)
    ensures multiset(AllDue(cycles)) + multiset(Pending(start, cycles))
         == multiset(start) + multiset(AllTaken(scheduled, start, cycles))
    ensures SortedByTime(Pending(start, cycles))
  {
    hide Taken, Immediates, SortedByTime, OnTime, NonDecreasing, Packets;
    if cycles != [] {
      var c, rest := cycles[|cycles| - 1], cycles[..|cycles| - 1];
      NothingIsLost(scheduled, start, rest);
      assert multiset(AllDue(cycles)) == multiset(AllDue(rest)) + multiset(Packets(c.due));
      assert multiset(AllTaken(scheduled, start, cycles))
          == multiset(AllTaken(scheduled, start, rest)) + multiset(Taken(scheduled, Pending(start, rest), c.incoming));
      Balance(multiset(AllDue(rest)), multiset(Pending(start, rest)), multiset(start),
              multiset(AllTaken(scheduled, start, rest)), multiset(Packets(c.due)), multiset(c.after),
              multiset(Taken(scheduled, Pending(start, rest), c.incoming)));
    }
  }

  /** A bundle that goes out was not due in the period before, if it was pending then. */
  lemma NotEarlier(scheduled: bool, start: seq<Buffer>, cycles: seq<Cycle>, b: Buffer)
    requires History(scheduled, start, cycles) && |cycles| >= 2
    requires b in Pending(start, cycles[..|cycles| - 1])
    ensures var c, d := cycles[|cycles| - 2], cycles[|cycles| - 1];
            && c.clock(Timetag(b)) >= c.nsamples as real
            && (d.clock(Timetag(b)) < d.nsamples as real ==> b in Packets(d.due) && b !in d.after)
            && (d.clock(Timetag(b)) >= d.nsamples as real ==> b !in Packets(d.due) && b in d.after)
  {
    hide Timetag, Taken, Immediates;
    var c, d := cycles[|cycles| - 2], cycles[|cycles| - 1];
    var rest := cycles[..|cycles| - 1];
    assert rest[|rest| - 1] == c;
    var before := Pending(start, rest);
    assert before == c.after && b in multiset(before);
    ExactlyTheDue(scheduled, d.clock, d.nsamples, d.incoming, before, d.after, d.due, d.out, b);
  }

  // ---- room in the list ----

  /** What the host brings in one period. */
  datatype Input = Input(clock: Clock, nsamples: nat, incoming: seq<Buffer>)

  ghost predicate Sound(i: Input) {
    Increasing(i.clock) && i.nsamples >= 1 && forall k :: 0 <= k < |i.incoming| ==> WellFormed(i.incoming[k])
  }

  /** The bundles that a period leaves pending. */
  ghost function Rest(f: Clock, nsamples: nat, pending: seq<Buffer>): seq<Buffer> {
    if pending == [] then []
    else
      var more := Rest(f, nsamples, pending[..|pending| - 1]);
      var b := pending[|pending| - 1];
      if f(Timetag(b)) < nsamples as real then more else more + [b]
  }

  /**
   The scans over the list stop inside it: an entry is free when the period begins, and when they
   are all in use later, one of them is not due.
   */
  ghost predicate Stops(scheduled: bool, f: Clock, nsamples: nat, incoming: seq<Buffer>, pending: seq<Buffer>) {
    var all := pending + Taken(scheduled, pending, incoming);
    |pending| < LIST_SIZE && (|all| < LIST_SIZE || Rest(f, nsamples, all) != [])
  }

  /** So they do in every period. */
  ghost predicate Room(scheduled: bool, pending: seq<Buffer>, inputs: seq<Input>)
    decreases |inputs|
  {
    inputs == [] ||
    var i := inputs[0];
    var all := pending + Taken(scheduled, pending, i.incoming);
    && Stops(scheduled, i.clock, i.nsamples, i.incoming, pending)
    && Room(scheduled, Rest(i.clock, i.nsamples, all), inputs[1..])
  }

  lemma {:induction false} RestCounts(f: Clock, nsamples: nat, pending: seq<Buffer>, b: Buffer)
    ensures multiset(Rest(f, nsamples, pending))[b] ==
            if f(Timetag(b)) < nsamples as real then 0 else multiset(pending)[b]
    decreases |pending|
  {
    hide Timetag;
    if pending != [] {
      var less, last := pending[..|pending| - 1], pending[|pending| - 1];
      RestCounts(f, nsamples, less, b);
      assert pending == less + [last];
    }
  }

  /** A period leaves exactly the rest pending, though perhaps in another order. */
  lemma AfterIsRest(scheduled: bool, f: Clock, nsamples: nat, incoming: seq<Buffer>,
                    before: seq<Buffer>, after: seq<Buffer>, due: seq<Event>, out: seq<Event>)
    requires Period(scheduled, f, nsamples, incoming, before, after, due, out)
    ensures multiset(after) == multiset(Rest(f, nsamples, before + Taken(scheduled, before, incoming)))
  {
    hide Period, Rest, Timetag, Taken;
    forall b ensures multiset(after)[b] == multiset(Rest(f, nsamples, before + Taken(scheduled, before, incoming)))[b] {
      ExactlyTheDue(scheduled, f, nsamples, incoming, before, after, due, out, b);
      RestCounts(f, nsamples, before + Taken(scheduled, before, incoming), b);
    }
  }

  lemma SameRest(f: Clock, nsamples: nat, x: seq<Buffer>, y: seq<Buffer>)
    requires multiset(x) == multiset(y)
    ensures multiset(Rest(f, nsamples, x)) == multiset(Rest(f, nsamples, y))
  {
    hide Rest, Timetag;
    forall b ensures multiset(Rest(f, nsamples, x))[b] == multiset(Rest(f, nsamples, y))[b] {
      RestCounts(f, nsamples, x, b);
      RestCounts(f, nsamples, y, b);
    }
  }

  /** Room does not depend on the order of what is pending. */
  lemma {:induction false} SameRoom(scheduled: bool, x: seq<Buffer>, y: seq<Buffer>, inputs: seq<Input>)
    requires multiset(x) == multiset(y) && Room(scheduled, x, inputs)
    ensures Room(scheduled, y, inputs)
    decreases |inputs|
  {
    hide Rest, Accepts;
    if inputs != [] {
      var i := inputs[0];
      assert |x| == |multiset(x)| == |multiset(y)| == |y|;
      var a, b := x + Taken(scheduled, x, i.incoming), y + Taken(scheduled, y, i.incoming);
      SameRest(i.clock, i.nsamples, a, b);
      assert |multiset(Rest(i.clock, i.nsamples, a))| == |multiset(Rest(i.clock, i.nsamples, b))|;
      SameRoom(scheduled, Rest(i.clock, i.nsamples, a), Rest(i.clock, i.nsamples, b), inputs[1..]);
    }
  }
}
