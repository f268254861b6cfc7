/** The scheduler of the plugin: a fixed array of bundles, rescheduled and drained every period. */
module Scheduler {
  import opened Bytes
  import opened OscDecode
  import opened SchedulerSpec

  /** An entry is free when its size is 0; its buffer keeps what it held. */
  datatype Entry = Entry(frames: real, size: nat, buf: Buffer)

  function Cmp(a: Entry, b: Entry): int {
    if a.size > 0 && b.size > 0 then
      if a.frames < b.frames then -1 else if a.frames > b.frames then 1 else 0
    else if a.size > 0 then -1
    else if b.size > 0 then 1
    else 0
  }

  ghost predicate Sorted(s: seq<Entry>) {
    forall i, j :: 0 <= i < j < |s| ==> Cmp(s[i], s[j]) <= 0
  }

  // ---- qsort ----

  function Insert(e: Entry, s: seq<Entry>): (r: seq<Entry>)
    ensures multiset(r) == multiset{e} + multiset(s)
  {
    if s == [] || Cmp(e, s[0]) <= 0 then [e] + s
    else
      assert s == [s[0]] + s[1..];
      [s[0]] + Insert(e, s[1..])
  }

  lemma {:induction false} InsertSorted(e: Entry, s: seq<Entry>)
    requires Sorted(s)
    ensures Sorted(Insert(e, s))
  {
    if s == [] {
    } else if Cmp(e, s[0]) <= 0 {
      forall j | 0 <= j < |s| ensures Cmp(e, s[j]) <= 0 {
        assert j > 0 ==> Cmp(s[0], s[j]) <= 0;
      }
    } else {
      InsertSorted(e, s[1..]);
      var r := Insert(e, s[1..]);
      forall j | 0 <= j < |r| ensures Cmp(s[0], r[j]) <= 0 {
        assert r[j] in multiset(r);
        assert r[j] == e || r[j] in s[1..];
      }
    }
  }

  function Sort(s: seq<Entry>): (r: seq<Entry>)
    ensures multiset(r) == multiset(s)
  {
    if s == [] then [] else
      assert s == [s[0]] + s[1..];
      Insert(s[0], Sort(s[1..]))
  }

  lemma {:induction false} SortSorts(s: seq<Entry>)
    ensures Sorted(Sort(s))
  {
    if s != [] {
      SortSorts(s[1..]);
      InsertSorted(s[0], Sort(s[1..]));
    }
  }

  // ---- entries and their packets ----

  function Bufs(s: seq<Entry>): (r: seq<Buffer>)
    ensures |r| == |s|
  {
    seq(|s|, i requires 0 <= i < |s| => s[i].buf)
  }

  lemma BufsAt(s: seq<Entry>, i: nat)
    requires i < |s|
    ensures Bufs(s)[i] == s[i].buf
  {
  }

  lemma BufsConcat(s: seq<Entry>, t: seq<Entry>)
    ensures Bufs(s + t) == Bufs(s) + Bufs(t)
  {
  }

  lemma Without<T>(s: seq<T>, e: T, x: seq<T>, y: seq<T>)
    requires multiset(s + [e]) == multiset(x + [e] + y)
    ensures multiset(s) == multiset(x + y)
  {
    assert multiset(s) == multiset(s + [e]) - multiset{e};
    assert multiset(x + y) == multiset(x + [e] + y) - multiset{e};
  }

  /** Permuting the entries permutes their packets. */
  lemma {:induction false} BufsPermuted(s: seq<Entry>, t: seq<Entry>)
    requires multiset(s) == multiset(t)
    ensures multiset(Bufs(s)) == multiset(Bufs(t))
  {
    hide Bufs;
    if s == [] {
      assert |multiset(t)| == 0;
    } else {
      var e, s' := s[|s| - 1], s[..|s| - 1];
      assert s == s' + [e];
      assert e in multiset(t);
      var i :| 0 <= i < |t| && t[i] == e;
      var x, y := t[..i], t[i + 1..];
      assert t == x + [e] + y;
      Without(s', e, x, y);
      BufsPermuted(s', x + y);
      BufsConcat(x, y);
      BufsConcat(x + [e], y);
      BufsConcat(x, [e]);
      BufsConcat(s', [e]);
    }
  }

  ghost predicate Held(e: Entry) {
    e.size > 0 && e.size == |e.buf| && 16 <= |e.buf| <= MTU_SIZE && IsBundle(e.buf)
  }

  /** Frames follow the clock, but for late entries, which may have been moved to frame 0. */
  ghost predicate Timed(f: Clock, e: Entry) {
    && Held(e)
    && (e.frames == f(Timetag(e.buf)) || (f(Timetag(e.buf)) < 0.0 && e.frames == 0.0))
  }

  ghost predicate AllHeld(s: seq<Entry>) {
    forall i :: 0 <= i < |s| ==> Held(s[i])
  }

  ghost predicate AllTimed(f: Clock, s: seq<Entry>) {
    forall i :: 0 <= i < |s| ==> Timed(f, s[i])
  }

  ghost predicate AllFree(s: seq<Entry>) {
    forall i :: 0 <= i < |s| ==> s[i].size == 0
  }

  /** After a rescheduling the order by timetag is the order by frames. */
  lemma RescheduledIsSorted(f: Clock, s: seq<Entry>)
    requires Increasing(f) && AllHeld(s) && SortedByTime(Bufs(s))
    requires forall i :: 0 <= i < |s| ==> s[i].frames == Clamp(f(Timetag(s[i].buf)))
    ensures Sorted(s) && AllTimed(f, s)
  {
    hide Timetag, IsBundle, Bufs;
    forall i, j | 0 <= i < j < |s| ensures Cmp(s[i], s[j]) <= 0 {
      BufsAt(s, i);
      BufsAt(s, j);
      assert Timetag(s[i].buf) <= Timetag(s[j].buf);
      assert f(Timetag(s[i].buf)) <= f(Timetag(s[j].buf));
      assert Held(s[i]) && Held(s[j]);
    }
  }

  lemma NotLater(f: Clock, s: nat, t: nat)
    requires Increasing(f) && f(s) <= f(t)
    ensures s <= t
  {
    assert t < s ==> f(t) < f(s);
  }

  /** Where no entry is late, the order by frames is the order by timetag. */
  lemma SortedIsByTime(f: Clock, s: seq<Entry>, nsamples: nat)
    requires Increasing(f) && Sorted(s) && AllTimed(f, s) && nsamples >= 1
    requires forall i :: 0 <= i < |s| ==> s[i].frames >= nsamples as real
    ensures SortedByTime(Bufs(s))
    ensures forall i :: 0 <= i < |s| ==> f(Timetag(Bufs(s)[i])) >= nsamples as real
  {
    hide Timetag, IsBundle, Bufs;
    forall i | 0 <= i < |s| ensures f(Timetag(Bufs(s)[i])) >= nsamples as real {
      BufsAt(s, i);
      assert Timed(f, s[i]);
    }
    forall i, j | 0 <= i < j < |s| ensures Timetag(Bufs(s)[i]) <= Timetag(Bufs(s)[j]) {
      BufsAt(s, i);
      BufsAt(s, j);
      assert Timed(f, s[i]) && Timed(f, s[j]);
      assert Cmp(s[i], s[j]) <= 0;
      NotLater(f, Timetag(s[i].buf), Timetag(s[j].buf));
    }
  }

  function Dispatched(e: Entry): Event {
    Event(Clamp(e.frames), e.buf)
  }

  function Events(s: seq<Entry>): (r: seq<Event>)
    ensures |r| == |s|
  {
    seq(|s|, i requires 0 <= i < |s| => Dispatched(s[i]))
  }

  lemma EventsOnTime(f: Clock, s: seq<Entry>, nsamples: nat)
    requires AllTimed(f, s) && Sorted(s) && nsamples >= 1
    requires forall i :: 0 <= i < |s| ==> s[i].frames < nsamples as real
    ensures forall i :: 0 <= i < |s| ==> OnTime(f, nsamples, Events(s)[i])
    ensures NonDecreasing(Events(s))
    ensures Packets(Events(s)) == Bufs(s)
  {
    hide Timetag, IsBundle, Bufs;
    forall i | 0 <= i < |s| ensures OnTime(f, nsamples, Events(s)[i]) && Packets(Events(s))[i] == Bufs(s)[i] {
      assert Timed(f, s[i]);
      BufsAt(s, i);
    }
    forall i, j | 0 <= i < j < |s| ensures Events(s)[i].frames <= Events(s)[j].frames {
      assert Timed(f, s[i]) && Timed(f, s[j]);
      assert Cmp(s[i], s[j]) <= 0;
    }
  }

  /** Sorting moves the entries that were given up behind the others. */
  lemma SortedSplits(t: seq<Entry>, free: seq<Entry>, held: seq<Entry>)
    requires Sorted(t) && multiset(t) == multiset(free) + multiset(held) && AllFree(free) && AllHeld(held)
    ensures |held| <= |t| && multiset(t[..|held|]) == multiset(held) && AllFree(t[|held|..]) && AllHeld(t[..|held|])
  {
    hide IsBundle, Sorted;
    var k := FirstFree(t);
    assert t == t[..k] + t[k..];
    forall i | 0 <= i < |held| ensures held[i].size > 0 {
      assert Held(held[i]);
    }
    SameInUse(t[..k], t[k..], free, held);
    forall i | 0 <= i < k ensures Held(t[..k][i]) {
      assert t[..k][i] in multiset(held);
    }
  }

  lemma SameInUse(x: seq<Entry>, y: seq<Entry>, free: seq<Entry>, held: seq<Entry>)
    requires multiset(x) + multiset(y) == multiset(free) + multiset(held) && AllFree(y) && AllFree(free)
    requires forall i :: 0 <= i < |x| ==> x[i].size > 0
    requires forall i :: 0 <= i < |held| ==> held[i].size > 0
    ensures multiset(x) == multiset(held) && |x| == |held|
  {
    forall e ensures multiset(x)[e] == multiset(held)[e] {
      assert (multiset(x) + multiset(y))[e] == (multiset(free) + multiset(held))[e];
      if e.size == 0 {
        NotIn(e, x);
        NotIn(e, held);
      } else {
        NotIn(e, y);
        NotIn(e, free);
      }
    }
    assert multiset(x) == multiset(held);
    assert |x| == |multiset(x)| && |held| == |multiset(held)|;
  }

  lemma NotIn(e: Entry, s: seq<Entry>)
    requires forall i :: 0 <= i < |s| ==> (s[i].size == 0) != (e.size == 0)
    ensures multiset(s)[e] == 0
  {
    if e in multiset(s) {
      assert e in s;
    }
  }

  lemma {:induction false} FirstFree(t: seq<Entry>) returns (k: nat)
    requires Sorted(t)
    ensures k <= |t| && (forall i :: 0 <= i < k ==> t[i].size > 0) && AllFree(t[k..])
  {
    if t == [] || t[0].size == 0 {
      k := 0;
      forall i | 0 <= i < |t| ensures t[i].size == 0 {
        assert i > 0 ==> Cmp(t[0], t[i]) <= 0;
      }
    } else {
      var n := FirstFree(t[1..]);
      k := n + 1;
      forall i | 0 <= i < k ensures t[i].size > 0 {
        assert i > 0 ==> t[i] == t[1..][i - 1];
      }
      assert t[k..] == t[1..][n..];
    }
  }

  lemma SameEntriesTimed(f: Clock, s: seq<Entry>, t: seq<Entry>, nsamples: nat)
    requires multiset(s) == multiset(t) && AllTimed(f, s)
    requires forall i :: 0 <= i < |s| ==> s[i].frames >= nsamples as real
    ensures AllTimed(f, t)
    ensures forall i :: 0 <= i < |t| ==> t[i].frames >= nsamples as real
  {
    hide Timed;
    forall i | 0 <= i < |t| ensures Timed(f, t[i]) && t[i].frames >= nsamples as real {
      assert t[i] in multiset(t);
      assert t[i] in multiset(s);
      var j :| 0 <= j < |s| && s[j] == t[i];
    }
  }

  /** The entries of a period, of which the first k are dispatched, make up the period. */
  lemma MakesPeriod(scheduled: bool, f: Clock, nsamples: nat, incoming: seq<Buffer>, before: seq<Buffer>,
                    s: seq<Entry>, k: nat, t: seq<Entry>)
    requires Increasing(f) && nsamples >= 1 && Sorted(s) && AllTimed(f, s) && k <= |s|
    requires multiset(Bufs(s)) == multiset(before) + multiset(Taken(scheduled, before, incoming))
    requires forall i :: 0 <= i < k ==> s[i].frames < nsamples as real
    requires forall i :: k <= i < |s| ==> s[i].frames >= nsamples as real
    requires multiset(t) == multiset(s[k..]) && Sorted(t)
    ensures Period(scheduled, f, nsamples, incoming, before, Bufs(t), Events(s[..k]),
                   Immediates(scheduled, incoming) + Events(s[..k]))
  {
    hide Bufs, Timed, Timetag, Events, Packets, Taken, Immediates, OnTime, Cmp, SortedByTime, NonDecreasing;
    EventsOnTime(f, s[..k], nsamples);
    SameEntriesTimed(f, s[k..], t, nsamples);
    SortedIsByTime(f, t, nsamples);
    BufsPermuted(t, s[k..]);
    BufsConcat(s[..k], s[k..]);
    assert s == s[..k] + s[k..];
  }

  class Plugin {
    const scheduled: bool
    const list: array<Entry>
    var nlist: nat
    var out: seq<Event>

    ghost predicate Valid()
      reads this, list
    {
      && list.Length == LIST_SIZE && nlist <= LIST_SIZE
      && AllHeld(list[..nlist]) && AllFree(list[nlist..])
      && (!scheduled ==> nlist == 0)
    }

    /** The bundles that wait. */
    ghost function Pending(): seq<Buffer>
      requires nlist <= list.Length
      reads this, list
    {
      Bufs(list[..nlist])
    }

    constructor (scheduled: bool)
      ensures Valid() && this.scheduled == scheduled && Pending() == [] && out == [] && fresh(list)
      ensures list.Length == 2048
    {
      this.scheduled := scheduled;
      this.list := new Entry[LIST_SIZE](_ => Entry(0.0, 0, []));
      this.nlist := 0;
      this.out := [];
    }

    /** The next free entry, if there is one. */
    method AddList() returns (slot: Option<nat>)
      modifies this`nlist
      ensures slot == if old(nlist) >= LIST_SIZE then None else Some(old(nlist))
      ensures nlist == if old(nlist) >= LIST_SIZE then old(nlist) else old(nlist) + 1
    {
      if nlist >= LIST_SIZE {
        return None;
      }
      slot := Some(nlist);
      nlist := nlist + 1;
    }

    /** qsort over the entries in use. */
    method SortList()
      requires nlist <= list.Length
      modifies list
      ensures Sorted(list[..nlist]) && multiset(list[..nlist]) == multiset(old(list[..nlist]))
      ensures list[nlist..] == old(list[nlist..])
    {
      hide Cmp;
      var s := Sort(list[..nlist]);
      SortSorts(list[..nlist]);
      assert |s| == nlist by {
        assert |multiset(s)| == |multiset(list[..nlist])|;
      }
      forall i | 0 <= i < nlist {
        list[i] := s[i];
      }
      assert list[..nlist] == s;
    }

    method Parse(frames: real, b: Buffer)
      modifies this`out
      ensures out == old(out) + [Event(frames, b)]
    {
      out := out + [Event(frames, b)];
    }

    /** Hands a packet on, keeps it for later, or drops it. */
    method Unroll(f: Clock, b: Buffer)
      requires Valid() && WellFormed(b)
      modifies this`nlist, this`out, list
      ensures Valid()
      ensures out == old(out) + if Immediate(scheduled, b) then [Event(0.0, b)] else []
      ensures Accepted(scheduled, b) && old(nlist) < LIST_SIZE ==>
                && nlist == old(nlist) + 1
                && list[..nlist] == old(list[..nlist]) + [Entry(f(Timetag(b)), |b|, b)]
      ensures !Accepted(scheduled, b) || old(nlist) == LIST_SIZE ==> nlist == old(nlist) && list[..] == old(list[..])
    {
      hide Timetag;
      if IsBundle(b) {
        if Timetag(b) == IMMEDIATE || !scheduled {
          Parse(0.0, b);
        } else if |b| <= MTU_SIZE {
          var slot := AddList();
          if slot.Some? {
            ghost var before := list[..nlist - 1];
            ghost var behind := list[nlist..];
            list[slot.value] := Entry(f(Timetag(b)), |b|, b);
            assert list[..nlist] == before + [Entry(f(Timetag(b)), |b|, b)];
            assert list[nlist..] == behind;
          }
        }
      } else if IsMessage(b) {
        Parse(0.0, b);
      }
    }

    /** Recomputes the frame of every entry; what is overdue moves to the start of the period. */
    method Reschedule(f: Clock)
      requires Valid() && nlist < LIST_SIZE
      modifies list
      ensures Valid() && Pending() == old(Pending())
      ensures forall i :: 0 <= i < nlist ==> list[i].frames == Clamp(f(Timetag(list[i].buf)))
    {
      hide Timetag, Bufs;
      ghost var was := list[..nlist];
      ghost var behind := list[nlist..];
      assert behind[0].size == 0;
      assert forall i :: 0 <= i < |was| ==> was[i].size > 0 by {
        assert forall i :: 0 <= i < |was| ==> Held(was[i]);
      }
      var l := 0;
      while list[l].size > 0
        invariant l <= nlist
        invariant list[nlist..] == behind && list[nlist] == behind[0]
        invariant forall i :: 0 <= i < l ==> list[i] == was[i].(frames := Clamp(f(Timetag(was[i].buf))))
        invariant forall i :: l <= i < nlist ==> list[i] == was[i]
        decreases nlist - l
      {
        var frames := f(Timetag(list[l].buf));
        list[l] := list[l].(frames := if frames < 0.0 then 0.0 else frames);
        assert list[nlist..] == behind;
        l := l + 1;
      }
      forall i | 0 <= i < nlist ensures Held(list[..nlist][i]) && Bufs(list[..nlist])[i] == Bufs(was)[i] {
        BufsAt(was, i);
        BufsAt(list[..nlist], i);
        assert Held(was[i]);
      }
      assert Bufs(list[..nlist]) == Bufs(was);
    }

    /** Hands on the entries that are due before the end of the period and gives them up. */
    method Drain(nsamples: nat) returns (deleted: nat)
      requires Valid() && Sorted(list[..nlist])
      requires nlist < LIST_SIZE || exists i :: 0 <= i < nlist && list[..nlist][i].frames >= nsamples as real
      modifies this`out, list
      ensures deleted <= nlist && AllFree(list[..deleted])
      ensures deleted == ScanTo(old(list[..]), 0, FreeOrNotDue(nsamples))
      ensures list[deleted..nlist] == old(list[..nlist])[deleted..] && list[nlist..] == old(list[nlist..])
      ensures forall i :: 0 <= i < deleted ==> old(list[..nlist])[i].frames < nsamples as real
      ensures forall i :: deleted <= i < nlist ==> old(list[..nlist])[i].frames >= nsamples as real
      ensures out == old(out) + Events(old(list[..nlist])[..deleted])
    {
      hide Cmp, Sorted, Held, AllHeld, AllFree, Events, Drained;
      ghost var all: seq<Entry> := list[..];
      ghost var s: seq<Entry> := list[..nlist];
      ghost var sent := out;
      assert s == all[..nlist] && list[nlist..] == all[nlist..];
      NothingDrained(all, nlist, nsamples);
      var l := 0;
      while list[l].size > 0
        invariant l <= nlist && l < list.Length && Drained(all, list[..], nlist, l, nsamples)
        invariant list[l] == all[l] && (list[l].size > 0 <==> l < nlist)
        invariant out == sent + Events(s[..l])
        decreases nlist - l
      {
        ghost var now: seq<Entry> := list[..];
        assert s[l] == list[l];
        EventsUpTo(s, l);
        var frames := list[l].frames;
        if frames < 0.0 {
          frames := 0.0;
          list[l] := list[l].(frames := frames);
        } else if frames >= nsamples as real {
          break;
        }
        Parse(frames, list[l].buf);
        list[l] := list[l].(size := 0);
        assert list[..] == now[l := list[l]];
        DrainedStep(all, now, list[l], nlist, l, nsamples);
        l := l + 1;
      }
      deleted := l;
      DrainedAll(all, list[..], nlist, l, nsamples);
    }

    /** Moves the entries that are left to the front. */
    method Compact(deleted: nat)
      requires list.Length == LIST_SIZE && deleted <= nlist <= LIST_SIZE && (!scheduled ==> nlist == 0)
      requires AllFree(list[..deleted]) && AllHeld(list[deleted..nlist]) && AllFree(list[nlist..])
      requires Sorted(list[deleted..nlist])
      modifies this`nlist, list
      ensures Valid() && nlist == old(nlist) - deleted
      ensures multiset(list[..nlist]) == multiset(old(list[deleted..nlist])) && Sorted(list[..nlist])
    {
      hide Cmp, Sorted, Held, AllHeld, AllFree;
      if deleted > 0 {
        ghost var was: seq<Entry> := list[..];
        ghost var n := nlist;
        SlicesOf(was, deleted, n);
        SortList();
        ghost var now: seq<Entry> := list[..];
        nlist := nlist - deleted;
        assert now[..n] == list[..n] && now[n..] == list[n..];
        AfterSort(was, now, deleted, n);
      } else {
        assert list[..nlist] == list[0..nlist];
      }
    }

    /** One audio period of the plugin, as far as incoming packets are concerned. */
    method Run(f: Clock, nsamples: nat, incoming: seq<Buffer>) returns (ghost due: seq<Event>)
      requires Valid() && Increasing(f) && nsamples >= 1 && SortedByTime(Pending())
      requires forall i :: 0 <= i < |incoming| ==> WellFormed(incoming[i])
      requires Stops(scheduled, f, nsamples, incoming, Pending())
      modifies this`nlist, this`out, list
      ensures Valid()
      ensures Period(scheduled, f, nsamples, incoming, old(Pending()), Pending(), due, out)
      ensures ByTime(f, nsamples, Pending(), due)
    {
      hide Timetag, IsBundle, Taken, Immediates, Bufs, Sorted, SortedByTime, Increasing, Period;
      hide Held, Timed, AllTimed, Events, Cmp, WellFormed, Rest, ByTime, Dated;
      ghost var before := Pending();
      HeldDated(list[..nlist]);
      if scheduled {
        Reschedule(f);
        RescheduledIsSorted(f, list[..nlist]);
      } else {
        NoneIsSorted(f, list[..nlist]);
      }
      ghost var s: seq<Entry> := list[..nlist];
      out := [];
      var added := Read(f, incoming);
      SomeNotDue(f, list[..nlist], nsamples);
      if added > 0 {
        ghost var unsorted := list[..nlist];
        SortList();
        KeepsTimed(f, unsorted, list[..nlist]);
        KeepsNotDue(unsorted, list[..nlist], nsamples);
        BufsPermuted(unsorted, list[..nlist]);
      }
      s := list[..nlist];
      var deleted := Drain(nsamples);
      due := Events(s[..deleted]);
      HeldSuffix(f, s, deleted);
      Compact(deleted);
      MakesPeriod(scheduled, f, nsamples, incoming, before, s, deleted, list[..nlist]);
      PeriodByTime(scheduled, f, nsamples, incoming, before, Pending(), due, out);
    }

    /**
     Any number of periods, as long as the scans over the list stop inside it: they make up a
     history, so all that holds of histories holds of the plugin.
     */
    method RunPeriods(inputs: seq<Input>) returns (ghost cycles: seq<Cycle>)
      requires Valid() && SortedByTime(Pending()) && Room(scheduled, Pending(), inputs)
      requires forall i :: 0 <= i < |inputs| ==> Sound(inputs[i])
      modifies this`nlist, this`out, list
      ensures Valid() && SortedByTime(Pending())
      ensures |cycles| == |inputs| && forall i :: 0 <= i < |inputs| ==> Brought(cycles[i]) == inputs[i]
      ensures History(scheduled, old(Pending()), cycles)
      ensures Pending() == SchedulerSpec.Pending(old(Pending()), cycles)
      ensures cycles != [] ==> out == cycles[|cycles| - 1].out
      ensures forall i :: 0 <= i < |cycles| ==>
                ByTime(cycles[i].clock, cycles[i].nsamples, cycles[i].after, cycles[i].due)
      ensures multiset(AllDue(cycles)) + multiset(Pending())
           == multiset(old(Pending())) + multiset(AllTaken(scheduled, old(Pending()), cycles))
    {
      hide AllHeld, AllFree, Bufs, SortedByTime, Period, History, Room, Sound, Stops, AllDue, AllTaken, ByTime;
      cycles := [];
      NoHistory(scheduled, Pending());
      assert inputs[0..] == inputs;
      var i := 0;
      while i < |inputs|
        invariant i == |cycles| <= |inputs| && Valid() && SortedByTime(Pending())
        invariant Room(scheduled, Pending(), inputs[i..])
        invariant forall k :: 0 <= k < i ==> Brought(cycles[k]) == inputs[k]
        invariant History(scheduled, old(Pending()), cycles)
        invariant Pending() == SchedulerSpec.Pending(old(Pending()), cycles)
        invariant cycles != [] ==> out == cycles[|cycles| - 1].out
        invariant forall k :: 0 <= k < i ==> ByTime(cycles[k].clock, cycles[k].nsamples, cycles[k].after, cycles[k].due)
      {
        ghost var before := Pending();
        RoomNow(scheduled, before, inputs, i);
        ghost var due := Run(inputs[i].clock, inputs[i].nsamples, inputs[i].incoming);
        ghost var c := Cycle(inputs[i].clock, inputs[i].nsamples, inputs[i].incoming, due, out, Pending());
        PeriodOver(scheduled, before, inputs, i, c);
        HistoryGrows(scheduled, old(Pending()), cycles, c);
        cycles := cycles + [c];
        i := i + 1;
      }
      NothingIsLost(scheduled, old(Pending()), cycles);
    }

    /** Reads everything that has arrived; says how many entries it added. */
    method Read(f: Clock, incoming: seq<Buffer>) returns (added: nat)
      requires Valid() && AllTimed(f, list[..nlist]) && out == []
      requires forall i :: 0 <= i < |incoming| ==> WellFormed(incoming[i])
      modifies this`nlist, this`out, list
      ensures Valid() && nlist == old(nlist) + added
      ensures out == Immediates(scheduled, incoming)
      ensures AllTimed(f, list[..nlist])
      ensures Pending() == old(Pending()) + Taken(scheduled, old(Pending()), incoming)
      ensures added == 0 ==> list[..nlist] == old(list[..nlist])
    {
      hide Timetag, IsBundle, Bufs, Immediate, Accepted, Taken;
      ghost var before: seq<Buffer> := Pending();
      var count := nlist;
      NothingTaken(scheduled, before);
      assert before + [] == before;
      assert [] == incoming[..0];
      var i := 0;
      while i < |incoming|
        invariant i <= |incoming| && Valid() && nlist == old(nlist) + |Taken(scheduled, before, incoming[..i])|
        invariant out == Immediates(scheduled, incoming[..i])
        invariant AllTimed(f, list[..nlist])
        invariant Pending() == before + Taken(scheduled, before, incoming[..i])
        invariant nlist == old(nlist) ==> list[..nlist] == old(list[..nlist])
      {
        TakenUpTo(scheduled, before, incoming, i);
        ghost var was: seq<Entry> := list[..nlist];
        ghost var n := nlist;
        Unroll(f, incoming[i]);
        if nlist == n {
          assert list[..nlist] == was;
        } else {
          Appended(f, scheduled, was, incoming[i]);
        }
        i := i + 1;
      }
      assert incoming[..i] == incoming;
      added := nlist - count;
    }
  }

  lemma RestIsLater(s: seq<Entry>, l: nat, nsamples: nat)
    requires Sorted(s) && AllHeld(s) && l <= |s| && (l < |s| ==> s[l].frames >= nsamples as real)
    ensures forall i :: l <= i < |s| ==> s[i].frames >= nsamples as real
  {
    hide IsBundle;
    forall i | l <= i < |s| ensures s[i].frames >= nsamples as real {
      assert Held(s[i]) && Held(s[l]);
      assert i > l ==> Cmp(s[l], s[i]) <= 0;
    }
  }

  lemma EventsUpTo(s: seq<Entry>, i: nat)
    requires i < |s|
    ensures Events(s[..i + 1]) == Events(s[..i]) + [Event(Clamp(s[i].frames), s[i].buf)]
  {
  }

  lemma SortedPrefix(t: seq<Entry>, n: nat)
    requires Sorted(t) && n <= |t|
    ensures Sorted(t[..n])
  {
  }

  /** The scan over n entries has given up the first l, and will stop inside the list. */
  ghost predicate Drained(all: seq<Entry>, now: seq<Entry>, n: nat, l: nat, nsamples: nat) {
    && l <= n <= |all| == |now| && l < |all| && now[l..] == all[l..]
    && (forall i :: 0 <= i < l ==> now[i].size == 0 && all[i].frames < nsamples as real)
    && (forall i :: 0 <= i < n ==> all[i].size > 0)
    && (if n < |all| then all[n].size == 0 else exists i :: 0 <= i < n && all[i].frames >= nsamples as real)
  }

  lemma NothingDrained(all: seq<Entry>, n: nat, nsamples: nat)
    requires n <= |all| && AllHeld(all[..n]) && AllFree(all[n..])
    requires n < |all| || exists i :: 0 <= i < n && all[..n][i].frames >= nsamples as real
    ensures Drained(all, all, n, 0, nsamples) && (all[0].size > 0 <==> 0 < n)
    ensures Events(all[..n][..0]) == []
  {
    hide IsBundle;
    forall i | 0 <= i < n ensures all[i].size > 0 {
      assert Held(all[..n][i]);
    }
    if n < |all| {
      assert all[n..][0].size == 0;
    } else {
      var i :| 0 <= i < n && all[..n][i].frames >= nsamples as real;
      assert all[i].frames >= nsamples as real;
    }
  }

  lemma DrainedStep(all: seq<Entry>, now: seq<Entry>, e: Entry, n: nat, l: nat, nsamples: nat)
    requires Drained(all, now, n, l, nsamples) && l < n && all[l].frames < nsamples as real && e.size == 0
    ensures l + 1 < |all| && Drained(all, now[l := e], n, l + 1, nsamples)
    ensures now[l := e][l + 1] == all[l + 1] && (all[l + 1].size > 0 <==> l + 1 < n)
  {
    var next := now[l := e];
    assert next[l + 1..] == now[l..][1..] && all[l + 1..] == all[l..][1..];
    assert l + 1 < |all|;
    assert next[l + 1..][0] == next[l + 1];
  }

  lemma DrainedAll(all: seq<Entry>, now: seq<Entry>, n: nat, l: nat, nsamples: nat)
    requires Drained(all, now, n, l, nsamples) && AllHeld(all[..n]) && Sorted(all[..n])
    requires l < n ==> all[l].frames >= nsamples as real
    ensures l == ScanTo(all, 0, FreeOrNotDue(nsamples))
    ensures AllFree(now[..l]) && now[l..n] == all[..n][l..] && now[n..] == all[n..]
    ensures forall i :: 0 <= i < l ==> all[..n][i].frames < nsamples as real
    ensures forall i :: l <= i < n ==> all[..n][i].frames >= nsamples as real
  {
    hide Held, Cmp, Sorted, ScanTo;
    RestIsLater(all[..n], l, nsamples);
    StopsThere(all, 0, l, FreeOrNotDue(nsamples));
    assert now[l..n] == now[l..][..n - l] && all[..n][l..] == all[l..][..n - l];
    assert now[n..] == now[l..][n - l..] && all[n..] == all[l..][n - l..];
  }

  lemma SlicesOf(was: seq<Entry>, deleted: nat, n: nat)
    requires deleted <= n <= |was|
    ensures was[..n] == was[..deleted] + was[deleted..n]
  {
  }

  lemma AfterSort(was: seq<Entry>, now: seq<Entry>, deleted: nat, n: nat)
    requires deleted <= n <= |was| == |now|
    requires AllFree(was[..deleted]) && AllHeld(was[deleted..n]) && AllFree(was[n..])
    requires Sorted(now[..n]) && multiset(now[..n]) == multiset(was[..n]) && now[n..] == was[n..]
    ensures multiset(now[..n - deleted]) == multiset(was[deleted..n]) && Sorted(now[..n - deleted])
    ensures AllHeld(now[..n - deleted]) && AllFree(now[n - deleted..])
  {
    hide Cmp, Sorted, Held, AllHeld, AllFree;
    var free, held, behind, t := was[..deleted], was[deleted..n], was[n..], now[..n];
    SlicesOf(was, deleted, n);
    Compacted(t, free, held, behind);
    Shrunk(now, t, behind, n - deleted);
  }

  lemma Shrunk(all: seq<Entry>, t: seq<Entry>, behind: seq<Entry>, n: nat)
    requires n <= |t| <= |all| && all[..|t|] == t && all[|t|..] == behind
    ensures all[..n] == t[..n] && all[n..] == (t + behind)[n..]
  {
    assert all == t + behind;
  }

  lemma HeldSuffix(f: Clock, s: seq<Entry>, l: nat)
    requires AllTimed(f, s) && Sorted(s) && l <= |s|
    ensures AllHeld(s[l..]) && Sorted(s[l..])
  {
    hide Cmp, IsBundle, Timetag;
  }

  lemma Compacted(t: seq<Entry>, free: seq<Entry>, held: seq<Entry>, behind: seq<Entry>)
    requires Sorted(t) && multiset(t) == multiset(free) + multiset(held)
    requires AllFree(free) && AllHeld(held) && AllFree(behind)
    ensures |t| == |free| + |held| && multiset(t[..|held|]) == multiset(held)
    ensures Sorted(t[..|held|]) && AllHeld(t[..|held|]) && AllFree((t + behind)[|held|..])
  {
    hide Held, Cmp;
    SortedSplits(t, free, held);
    SortedPrefix(t, |held|);
    assert |multiset(t)| == |multiset(free)| + |multiset(held)|;
    assert (t + behind)[|held|..] == t[|held|..] + behind;
  }

  function Brought(c: Cycle): Input {
    Input(c.clock, c.nsamples, c.incoming)
  }

  lemma NoHistory(scheduled: bool, start: seq<Buffer>)
    ensures History(scheduled, start, []) && SchedulerSpec.Pending(start, []) == start
  {
  }

  lemma RoomNow(scheduled: bool, pending: seq<Buffer>, inputs: seq<Input>, i: nat)
    requires i < |inputs| && Sound(inputs[i]) && Room(scheduled, pending, inputs[i..])
    ensures Stops(scheduled, inputs[i].clock, inputs[i].nsamples, inputs[i].incoming, pending)
    ensures Increasing(inputs[i].clock) && inputs[i].nsamples >= 1
    ensures forall k :: 0 <= k < |inputs[i].incoming| ==> WellFormed(inputs[i].incoming[k])
  {
    hide Taken, WellFormed, Increasing, Rest;
  }

  lemma PeriodOver(scheduled: bool, pending: seq<Buffer>, inputs: seq<Input>, i: nat, c: Cycle)
    requires i < |inputs| && Room(scheduled, pending, inputs[i..]) && Brought(c) == inputs[i]
    requires Period(scheduled, c.clock, c.nsamples, c.incoming, pending, c.after, c.due, c.out)
    ensures Room(scheduled, c.after, inputs[i + 1..]) && SortedByTime(c.after)
  {
    hide Taken, OnTime, NonDecreasing, Packets, Immediates, Stops;
    var all := pending + Taken(scheduled, pending, c.incoming);
    assert inputs[i..][0] == inputs[i] && inputs[i..][1..] == inputs[i + 1..];
    AfterIsRest(scheduled, c.clock, c.nsamples, c.incoming, pending, c.after, c.due, c.out);
    SameRoom(scheduled, Rest(c.clock, c.nsamples, all), c.after, inputs[i + 1..]);
  }

  lemma HistoryGrows(scheduled: bool, start: seq<Buffer>, cycles: seq<Cycle>, c: Cycle)
    requires History(scheduled, start, cycles)
    requires Period(scheduled, c.clock, c.nsamples, c.incoming,
                    SchedulerSpec.Pending(start, cycles), c.after, c.due, c.out)
    ensures History(scheduled, start, cycles + [c]) && SchedulerSpec.Pending(start, cycles + [c]) == c.after
  {
    hide Period;
    assert (cycles + [c])[..|cycles|] == cycles;
  }

  lemma HeldDated(s: seq<Entry>)
    requires AllHeld(s)
    ensures Dated(Bufs(s))
  {
    hide Bufs, IsBundle;
    forall i | 0 <= i < |s| ensures |Bufs(s)[i]| >= 16 {
      BufsAt(s, i);
      assert Held(s[i]);
    }
  }

  lemma NoneIsSorted(f: Clock, s: seq<Entry>)
    requires s == []
    ensures Sorted(s) && AllTimed(f, s)
  {
  }

  lemma KeepsTimed(f: Clock, s: seq<Entry>, t: seq<Entry>)
    requires multiset(s) == multiset(t) && AllTimed(f, s)
    ensures AllTimed(f, t) && AllHeld(t)
  {
    hide IsBundle, Timetag;
    forall i | 0 <= i < |t| ensures Timed(f, t[i]) && Held(t[i]) {
      assert t[i] in multiset(t);
      assert t[i] in multiset(s);
      var j :| 0 <= j < |s| && s[j] == t[i];
    }
  }

  lemma NothingTaken(scheduled: bool, before: seq<Buffer>)
    ensures Taken(scheduled, before, []) == []
  {
  }

  /** One packet more is one step of both filters. */
  lemma TakenUpTo(scheduled: bool, before: seq<Buffer>, incoming: seq<Buffer>, i: nat)
    requires i < |incoming| && |before| <= LIST_SIZE
    ensures Immediates(scheduled, incoming[..i + 1]) == Immediates(scheduled, incoming[..i])
            + if Immediate(scheduled, incoming[i]) then [Event(0.0, incoming[i])] else []
    ensures var taken := Taken(scheduled, before, incoming[..i]);
            Taken(scheduled, before, incoming[..i + 1]) == taken
            + if Accepted(scheduled, incoming[i]) && |before| + |taken| < LIST_SIZE then [incoming[i]] else []
  {
    hide Immediate, Accepted;
    assert incoming[..i + 1][..i] == incoming[..i];
  }

  /** Of entries that do not all make way, one is not due. */
  lemma SomeNotDue(f: Clock, s: seq<Entry>, nsamples: nat)
    requires AllTimed(f, s)
    ensures Rest(f, nsamples, Bufs(s)) != [] ==> exists i :: 0 <= i < |s| && s[i].frames >= nsamples as real
  {
    hide Timetag, Bufs, IsBundle;
    if Rest(f, nsamples, Bufs(s)) != [] {
      var i := RestHas(f, nsamples, Bufs(s));
      BufsAt(s, i);
      assert Timed(f, s[i]);
    }
  }

  lemma {:induction false} RestHas(f: Clock, nsamples: nat, pending: seq<Buffer>) returns (i: nat)
    requires Rest(f, nsamples, pending) != []
    ensures i < |pending| && f(Timetag(pending[i])) >= nsamples as real
  {
    hide Timetag;
    i := |pending| - 1;
    if f(Timetag(pending[i])) < nsamples as real {
      i := RestHas(f, nsamples, pending[..i]);
    }
  }

  lemma KeepsNotDue(s: seq<Entry>, t: seq<Entry>, nsamples: nat)
    requires multiset(s) == multiset(t)
    ensures (exists i :: 0 <= i < |s| && s[i].frames >= nsamples as real) ==>
              exists i :: 0 <= i < |t| && t[i].frames >= nsamples as real
  {
    if i :| 0 <= i < |s| && s[i].frames >= nsamples as real {
      assert s[i] in multiset(t);
      var j :| 0 <= j < |t| && t[j] == s[i];
    }
  }

  // ---- where the scans over the list stop ----

  /** A loop over the list from l on: the entry it stops at, or the end of the list if none stops it. */
  function ScanTo(list: seq<Entry>, l: nat, stop: Entry -> bool): (r: nat)
    requires l <= |list|
    ensures l <= r <= |list|
    ensures r < |list| <==> exists i :: l <= i < |list| && stop(list[i])
    decreases |list| - l
  {
    if l == |list| || stop(list[l]) then l else ScanTo(list, l + 1, stop)
  }

  lemma {:induction false} StopsThere(list: seq<Entry>, l: nat, k: nat, stop: Entry -> bool)
    requires l <= k < |list| && stop(list[k]) && forall i :: l <= i < k ==> !stop(list[i])
    ensures ScanTo(list, l, stop) == k
    decreases k - l
  {
    if l < k {
      StopsThere(list, l + 1, k, stop);
    }
  }

  /** What stops the loop that reschedules the entries. */
  function Free(): Entry -> bool {
    (e: Entry) => e.size == 0
  }

  /** What stops the loop that dispatches them. */
  function FreeOrNotDue(nsamples: nat): Entry -> bool {
    (e: Entry) => e.size == 0 || e.frames >= nsamples as real
  }

  /** The first loop stays inside the list exactly if it is not full. */
  lemma FirstScanEnds(list: seq<Entry>, n: nat)
    requires n <= |list| && AllHeld(list[..n]) && AllFree(list[n..])
    ensures ScanTo(list, 0, Free()) < |list| <==> n < |list|
  {
    hide IsBundle;
    if n < |list| {
      assert Free()(list[n]) by { assert list[n..][0].size == 0; }
    } else {
      forall i | 0 <= i < |list| ensures !Free()(list[i]) {
        assert Held(list[..n][i]);
      }
    }
  }

  /** The second one does exactly if the list is not full or not all of its bundles are due. */
  lemma SecondScanEnds(f: Clock, list: seq<Entry>, n: nat, nsamples: nat)
    requires n <= |list| && AllTimed(f, list[..n]) && AllFree(list[n..]) && nsamples >= 1
    ensures ScanTo(list, 0, FreeOrNotDue(nsamples)) < |list| <==> n < |list| || Rest(f, nsamples, Bufs(list[..n])) != []
  {
    hide IsBundle, Timetag, Bufs, Rest;
    if n < |list| {
      assert FreeOrNotDue(nsamples)(list[n]) by { assert list[n..][0].size == 0; }
    } else {
      SomeNotDue(f, list[..n], nsamples);
      if i :| 0 <= i < n && FreeOrNotDue(nsamples)(list[i]) {
        assert Timed(f, list[..n][i]);
        BufsAt(list[..n], i);
        RestKeeps(f, nsamples, Bufs(list[..n]), i);
      }
    }
  }

  lemma {:induction false} RestKeeps(f: Clock, nsamples: nat, pending: seq<Buffer>, i: nat)
    requires i < |pending| && f(Timetag(pending[i])) >= nsamples as real
    ensures Rest(f, nsamples, pending) != []
  {
    hide Timetag;
    var last := |pending| - 1;
    if i < last {
      RestKeeps(f, nsamples, pending[..last], i);
    }
  }

  /**
   A period stays inside the list exactly if the condition under which it is modelled holds:
   `start` is the list it finds, `full` the list once everything has been read and sorted.
   */
  lemma StopsExactly(scheduled: bool, f: Clock, nsamples: nat, incoming: seq<Buffer>,
                     start: seq<Entry>, n: nat, full: seq<Entry>, m: nat)
    requires n <= |start| == LIST_SIZE && AllHeld(start[..n]) && AllFree(start[n..])
    requires m <= |full| == LIST_SIZE && AllTimed(f, full[..m]) && AllFree(full[m..]) && nsamples >= 1
    requires multiset(Bufs(full[..m])) == multiset(Bufs(start[..n]) + Taken(scheduled, Bufs(start[..n]), incoming))
    ensures Stops(scheduled, f, nsamples, incoming, Bufs(start[..n])) <==>
            ScanTo(start, 0, Free()) < LIST_SIZE && ScanTo(full, 0, FreeOrNotDue(nsamples)) < LIST_SIZE
  {
    hide Timed, AllTimed, Timetag, Rest, Bufs, Taken, ScanTo, Held, AllHeld, AllFree;
    var all := Bufs(start[..n]) + Taken(scheduled, Bufs(start[..n]), incoming);
    FirstScanEnds(start, n);
    SecondScanEnds(f, full, m, nsamples);
    assert m == |multiset(Bufs(full[..m]))| == |multiset(all)| == |all|;
    SameRest(f, nsamples, Bufs(full[..m]), all);
    assert |multiset(Rest(f, nsamples, Bufs(full[..m])))| == |multiset(Rest(f, nsamples, all))|;
  }

  const SOON: Buffer := OscPacket.BUNDLE + (Be32(0) + Be32(2)) + Be32(0)

  /** A full list of bundles that are all due: nothing stops the second loop, which reads on behind the list. */
  lemma FullListOverruns(f: Clock)
    requires f(2) <= 0.0
    ensures WellFormed(SOON) && Accepted(true, SOON)
    ensures var list := seq(LIST_SIZE, _ => Entry(0.0, |SOON|, SOON));
            AllTimed(f, list) && ScanTo(list, 0, FreeOrNotDue(1)) == |list|
  {
    hide ScanTo;
    SoonIsDue();
    hide WellFormed, Timetag, IsBundle, SOON, Accepted;
    var list := seq(LIST_SIZE, _ => Entry(0.0, |SOON|, SOON));
    forall i | 0 <= i < |list| ensures Timed(f, list[i]) && !FreeOrNotDue(1)(list[i]) {
    }
  }

  lemma SoonIsDue()
    ensures |SOON| == 20 && IsBundle(SOON) && Timetag(SOON) == 2 && WellFormed(SOON) && Accepted(true, SOON)
  {
    Be32RoundTrip(0);
    Be32RoundTrip(2);
    assert SOON[..8] == OscPacket.BUNDLE && SOON[8..12] == Be32(0) && SOON[12..16] == Be32(2) && SOON[16..] == Be32(0);
    assert SOON[16..][..4] == Be32(0);
  }

  lemma Appended(f: Clock, scheduled: bool, s: seq<Entry>, b: Buffer)
    requires AllTimed(f, s) && Accepted(scheduled, b) && WellFormed(b)
    ensures AllTimed(f, s + [Entry(f(Timetag(b)), |b|, b)])
    ensures Bufs(s + [Entry(f(Timetag(b)), |b|, b)]) == Bufs(s) + [b]
  {
    hide Timetag;
  }
}
