/**
 The property table: sorted in place by a Hoare quicksort whose pivot is read through a
 pointer to the first slot, and searched by halving.
 */
module Props {
  import opened Bytes

  datatype Def = Def(property: Option<string>, type_: Option<string>, access: Option<string>)

  /** An entry of the table; one that was never set up has property 0 and no definition. */
  datatype Impl = Impl(property: word, type_: word, access: word, def: Option<Def>)

  const BLANK: Impl := Impl(0, 0, 0, None)

  ghost predicate Sorted(s: seq<Impl>) {
    forall i, j :: 0 <= i < j < |s| ==> s[i].property <= s[j].property
  }

  ghost predicate AtMost(s: seq<Impl>, v: int) {
    forall i :: 0 <= i < |s| ==> s[i].property <= v
  }

  ghost predicate AtLeast(s: seq<Impl>, v: int) {
    forall i :: 0 <= i < |s| ==> s[i].property >= v
  }

  /** t is s with the slots from lo up to hi permuted among themselves. */
  ghost predicate Permuted(s: seq<Impl>, t: seq<Impl>, lo: nat, hi: nat) {
    && lo <= hi <= |s| && |t| == |s|
    && t[..lo] == s[..lo] && t[hi..] == s[hi..]
    && multiset(t[lo..hi]) == multiset(s[lo..hi])
  }

  // ---- permutations ----

  lemma PermutedTwice(s: seq<Impl>, t: seq<Impl>, u: seq<Impl>, lo: nat, hi: nat)
    requires Permuted(s, t, lo, hi) && Permuted(t, u, lo, hi)
    ensures Permuted(s, u, lo, hi)
  {
  }

  lemma Swapped<T>(s: seq<T>, i: nat, j: nat)
    requires i < |s| && j < |s|
    ensures multiset(s[i := s[j]][j := s[i]]) == multiset(s)
  {
  }

  lemma SwapPermutes(s: seq<Impl>, lo: nat, hi: nat, i: nat, j: nat)
    requires lo <= hi <= |s| && lo <= i < hi && lo <= j < hi
    ensures Permuted(s, s[i := s[j]][j := s[i]], lo, hi)
  {
    var t := s[i := s[j]][j := s[i]];
    var w := s[lo..hi];
    assert t[lo..hi] == w[i - lo := w[j - lo]][j - lo := w[i - lo]];
    Swapped(w, i - lo, j - lo);
  }

  /** Permuting a part of a stretch permutes the stretch. */
  lemma WiderPermuted(s: seq<Impl>, t: seq<Impl>, lo: nat, mid: nat, mid': nat, hi: nat)
    requires lo <= mid && mid' <= hi <= |s| && Permuted(s, t, mid, mid')
    ensures Permuted(s, t, lo, hi)
  {
    assert s[lo..hi] == s[lo..mid] + s[mid..mid'] + s[mid'..hi];
    assert t[lo..hi] == t[lo..mid] + t[mid..mid'] + t[mid'..hi];
    assert t[lo..mid] == t[..mid][lo..] && s[lo..mid] == s[..mid][lo..];
    assert t[mid'..hi] == t[mid'..][..hi - mid'] && s[mid'..hi] == s[mid'..][..hi - mid'];
    assert t[..lo] == t[..mid][..lo] && s[..lo] == s[..mid][..lo];
    assert t[hi..] == t[mid'..][hi - mid'..] && s[hi..] == s[mid'..][hi - mid'..];
  }

  lemma BoundsKept(s: seq<Impl>, t: seq<Impl>, v: int)
    requires multiset(s) == multiset(t)
    ensures AtMost(s, v) ==> AtMost(t, v)
    ensures AtLeast(s, v) ==> AtLeast(t, v)
  {
    forall i | 0 <= i < |t| ensures t[i] in s {
      assert t[i] in multiset(t);
    }
  }

  lemma SortedJoin(s: seq<Impl>, t: seq<Impl>, v: int)
    requires Sorted(s) && Sorted(t) && AtMost(s, v) && AtLeast(t, v)
    ensures Sorted(s + t)
  {
  }

  // ---- the sort ----

  /** The first slot behind i that does not lie below the pivot; there is one at w at the latest. */
  method ScanUp(a: array<Impl>, lo: nat, i: int, ghost w: int) returns (r: int)
    requires -1 <= i < w && lo + w < a.Length && a[lo + w].property >= a[lo].property
    ensures i < r <= w && a[lo + r].property >= a[lo].property
    ensures forall k :: lo + i < k < lo + r ==> a[k].property < a[lo].property
  {
    r := i + 1;
    while a[lo + r].property < a[lo].property
      invariant i < r <= w
      invariant forall k :: lo + i < k < lo + r ==> a[k].property < a[lo].property
      decreases w - r
    {
      r := r + 1;
    }
  }

  /** The last slot before j that does not lie above the pivot; there is one at w at the latest. */
  method ScanDown(a: array<Impl>, lo: nat, j: int, ghost w: int) returns (r: int)
    requires 0 <= w < j && lo + j <= a.Length && a[lo + w].property <= a[lo].property
    ensures w <= r < j && a[lo + r].property <= a[lo].property
    ensures forall k :: lo + r < k < lo + j ==> a[k].property > a[lo].property
  {
    r := j - 1;
    while a[lo + r].property > a[lo].property
      invariant w <= r < j
      invariant forall k :: lo + r < k < lo + j ==> a[k].property > a[lo].property
      decreases r
    {
      r := r - 1;
    }
  }

  /**
   One pass: the slots up to j are at most, the others at least the pivot. The first swap
   replaces the pivot by a smaller value, which then stays in the first slot.
   */
  method Partition(a: array<Impl>, lo: nat, n: nat) returns (j: int, ghost v: int)
    requires n >= 2 && lo + n <= a.Length
    modifies a
    ensures 0 <= j < n - 1
    ensures Permuted(old(a[..]), a[..], lo, lo + n)
    ensures AtMost(a[lo..lo + j + 1], v) && AtLeast(a[lo + j + 1..lo + n], v)
  {
    hide Permuted, Passed, AtMost, AtLeast;
    ghost var s: seq<Impl> := a[..];
    Unpermuted(s, lo, lo + n);
    var i := -1;
    j := n;
    v := a[lo].property;
    PassBegins(s, lo, n);
    while true
      invariant -1 <= i < j <= n && v == a[lo].property
      invariant Passed(a[..], lo, n, i, j)
      invariant Permuted(s, a[..], lo, lo + n)
      decreases j - i
    {
      i, j := Scan(a, lo, n, i, j);
      if i >= j {
        break;
      }
      Swap(a, lo, n, i, j, s);
      v := a[lo].property;
    }
  }

  /** Both scans of a pass. */
  method Scan(a: array<Impl>, lo: nat, n: nat, i0: int, j0: int) returns (i: int, j: int)
    requires n >= 2 && lo + n <= a.Length && Passed(a[..], lo, n, i0, j0) && -1 <= i0 < j0 <= n
    ensures i0 < i < n && 0 <= j < j0 && (i >= j ==> j < n - 1)
    ensures i >= j ==> AtMost(a[lo..lo + j + 1], a[lo].property) && AtLeast(a[lo + j + 1..lo + n], a[lo].property)
    ensures i < j ==> Passed(a[..][lo + i := a[lo + j]][lo + j := a[lo + i]], lo, n, i, j)
  {
    hide Passed, AtMost, AtLeast;
    ghost var m: seq<Impl> := a[..];
    Stoppers(m, lo, n, i0, j0);
    i := ScanUp(a, lo, i0, if i0 < 0 then 0 else j0);
    j := ScanDown(a, lo, j0, if i0 < 0 then 0 else i0);
    Scanned(m, lo, n, i0, j0, i, j);
    assert a[lo..lo + j + 1] == m[lo..lo + j + 1] && a[lo + j + 1..lo + n] == m[lo + j + 1..lo + n];
  }

  method Swap(a: array<Impl>, lo: nat, n: nat, i: nat, j: nat, ghost s: seq<Impl>)
    requires lo + n <= a.Length && i < n && j < n && Permuted(s, a[..], lo, lo + n)
    modifies a
    ensures a[..] == old(a[..])[lo + i := old(a[lo + j])][lo + j := old(a[lo + i])]
    ensures Permuted(s, a[..], lo, lo + n)
  {
    hide Permuted;
    SwapPermutes(a[..], lo, lo + n, lo + i, lo + j);
    PermutedTwice(s, a[..], a[..][lo + i := a[lo + j]][lo + j := a[lo + i]], lo, lo + n);
    var tmp := a[lo + i];
    a[lo + i] := a[lo + j];
    a[lo + j] := tmp;
  }

  /** Between two swaps: what lies left of i and right of j is on its side of the pivot, which is in the first slot. */
  ghost predicate Passed(m: seq<Impl>, lo: nat, n: nat, i: int, j: int)
    requires lo + n <= |m| && n > 0
  {
    var v := m[lo].property;
    && ((i == -1 && j == n) || (0 <= i < j < n && m[lo + i].property <= v <= m[lo + j].property))
    && (forall k :: lo <= k <= lo + i ==> m[k].property <= v)
    && (forall k :: lo + j <= k < lo + n ==> m[k].property >= v)
  }

  lemma PassBegins(m: seq<Impl>, lo: nat, n: nat)
    requires lo + n <= |m| && n > 0
    ensures Passed(m, lo, n, -1, n)
  {
  }

  lemma Stoppers(m: seq<Impl>, lo: nat, n: nat, i: int, j: int)
    requires lo + n <= |m| && n > 0 && Passed(m, lo, n, i, j)
    ensures i < 0 ==> i == -1 && j == n
    ensures i >= 0 ==> i < j < n && m[lo + i].property <= m[lo].property <= m[lo + j].property
  {
  }

  /** Both scans done: either the stretch is split, or the pass goes on after the swap. */
  lemma Scanned(m: seq<Impl>, lo: nat, n: nat, i0: int, j0: int, i: int, j: int)
    requires n >= 2 && lo + n <= |m| && Passed(m, lo, n, i0, j0)
    requires i0 < i <= (if i0 < 0 then 0 else j0) && (if i0 < 0 then 0 else i0) <= j < j0
    requires m[lo + i].property >= m[lo].property >= m[lo + j].property
    requires forall k :: lo + i0 < k < lo + i ==> m[k].property < m[lo].property
    requires forall k :: lo + j < k < lo + j0 ==> m[k].property > m[lo].property
    ensures 0 <= j < n && (i >= j ==> j < n - 1)
    ensures i >= j ==> AtMost(m[lo..lo + j + 1], m[lo].property) && AtLeast(m[lo + j + 1..lo + n], m[lo].property)
    ensures i < j ==> Passed(m[lo + i := m[lo + j]][lo + j := m[lo + i]], lo, n, i, j)
  {
  }

  lemma Unpermuted(s: seq<Impl>, lo: nat, hi: nat)
    requires lo <= hi <= |s|
    ensures Permuted(s, s, lo, hi)
  {
  }

  /** Sorts n slots from lo on; every pass leaves two smaller stretches, so it ends. */
  method Qsort(a: array<Impl>, lo: nat, n: nat)
    requires lo + n <= a.Length
    modifies a
    ensures Permuted(old(a[..]), a[..], lo, lo + n)
    ensures Sorted(a[lo..lo + n])
    decreases n
  {
    hide Permuted, AtMost, AtLeast;
    ghost var s0: seq<Impl> := a[..];
    if n < 2 {
      Unpermuted(s0, lo, lo + n);
      return;
    }
    var hi := lo + n;
    var j, v := Partition(a, lo, n);
    var mid := lo + j + 1;
    ghost var s1: seq<Impl> := a[..];
    Qsort(a, lo, j + 1);
    ghost var s2: seq<Impl> := a[..];
    assert a[lo..mid] == s2[lo..mid];
    Qsort(a, mid, n - j - 1);
    ghost var s3: seq<Impl> := a[..];
    assert a[mid..hi] == s3[mid..hi];
    WiderPermuted(s1, s2, lo, lo, mid, hi);
    WiderPermuted(s2, s3, lo, mid, hi, hi);
    PermutedTwice(s0, s1, s2, lo, hi);
    PermutedTwice(s0, s2, s3, lo, hi);
    HalvesSorted(s1, s2, s3, lo, mid, hi, v);
  }

  lemma HalvesSorted(s1: seq<Impl>, s2: seq<Impl>, s3: seq<Impl>, lo: nat, mid: nat, hi: nat, v: int)
    requires lo <= mid <= hi <= |s1| && Permuted(s1, s2, lo, mid) && Permuted(s2, s3, mid, hi)
    requires Sorted(s2[lo..mid]) && Sorted(s3[mid..hi])
    requires AtMost(s1[lo..mid], v) && AtLeast(s1[mid..hi], v)
    ensures Sorted(s3[lo..hi])
  {
    hide Sorted, AtMost, AtLeast;
    assert s3[lo..mid] == s3[..mid][lo..] && s2[lo..mid] == s2[..mid][lo..];
    assert s2[mid..hi] == s2[mid..][..hi - mid] && s1[mid..hi] == s1[mid..][..hi - mid];
    BoundsKept(s1[lo..mid], s2[lo..mid], v);
    BoundsKept(s2[mid..hi], s3[mid..hi], v);
    SortedJoin(s3[lo..mid], s3[mid..hi], v);
    assert s3[lo..hi] == s3[lo..mid] + s3[mid..hi];
  }

  // ---- the lookup ----

  ghost predicate Has(s: seq<Impl>, property: word) {
    exists k :: 0 <= k < |s| && s[k].property == property
  }

  /** Halves the stretch that may hold the property until one slot is left. */
  method Get(a: array<Impl>, n: nat, property: word) returns (r: Option<nat>)
    requires 1 <= n <= a.Length && Sorted(a[..n])
    ensures r.Some? <==> Has(a[..n], property)
    ensures r.Some? ==> r.value < n && a[r.value].property == property
  {
    ghost var s := a[..n];
    var base := 0;
    var m := n;
    while m > 1
      invariant 1 <= m && base + m <= n
      invariant base == 0 || s[base].property <= property
      invariant forall k :: base + m <= k < n ==> s[k].property > property
      decreases m
    {
      var half := m / 2;
      var dst := base + half;
      assert a[dst] == s[dst];
      if a[dst].property > property {
        assert forall k :: dst <= k < n ==> s[dst].property <= s[k].property;
      } else {
        base := dst;
      }
      m := m - half;
    }
    assert a[base] == s[base];
    OneLeft(s, base, property);
    r := if a[base].property == property then Some(base) else None;
  }

  lemma OneLeft(s: seq<Impl>, base: nat, property: word)
    requires Sorted(s) && base < |s|
    requires base == 0 || s[base].property <= property
    requires forall k :: base < k < |s| ==> s[k].property > property
    ensures Has(s, property) <==> s[base].property == property
  {
    if Has(s, property) {
      var k :| 0 <= k < |s| && s[k].property == property;
      assert k < base ==> s[k].property <= s[base].property;
    }
  }

  // ---- setting up the table ----

  /** The numbers a host gives to URIs; 0 for none. */
  type Mapper = string -> word

  const WRITABLE: string := "http://lv2plug.in/ns/ext/patch#writable"

  function ImplOf(host: Mapper, def: Def): Option<Impl> {
    if def.property.None? || def.type_.None? then None
    else
      var type_ := host(def.type_.value);
      var property := host(def.property.value);
      var access := host(if def.access.Some? then def.access.value else WRITABLE);
      if type_ == 0 || property == 0 || access == 0 then None else Some(Impl(property, type_, access, Some(def)))
  }

  /** The numbers of property, type and access URI, all there; without an access URI the property is writable. */
  predicate IsEntry(host: Mapper, def: Def, impl: Impl) {
    && def.property.Some? && def.type_.Some? && impl.def == Some(def)
    && impl.property == host(def.property.value) != 0
    && impl.type_ == host(def.type_.value) != 0
    && (def.access.Some? ==> impl.access == host(def.access.value) != 0)
    && (def.access.None? ==> impl.access == host("http://lv2plug.in/ns/ext/patch#writable") != 0)
  }

  lemma EntryIs(host: Mapper, def: Def, impl: Impl)
    ensures ImplOf(host, def) == Some(impl) <==> IsEntry(host, def, impl)
  {
  }

  predicate AllGood(host: Mapper, defs: seq<Def>) {
    forall i :: 0 <= i < |defs| ==> ImplOf(host, defs[i]).Some?
  }

  /** Nothing is set up from the first bad definition on. */
  function Built(host: Mapper, defs: seq<Def>, i: nat): Impl
    requires i < |defs|
  {
    if AllGood(host, defs[..i + 1]) then
      assert defs[..i + 1][i] == defs[i];
      ImplOf(host, defs[i]).value
    else BLANK
  }

  function Entries(host: Mapper, defs: seq<Def>): (r: seq<Impl>)
    ensures |r| == |defs|
  {
    seq(|defs|, i requires 0 <= i < |defs| => Built(host, defs, i))
  }

  ghost predicate Good(host: Mapper, def: Def) {
    exists impl :: IsEntry(host, def, impl)
  }

  lemma GoodIs(host: Mapper, def: Def)
    ensures Good(host, def) <==> ImplOf(host, def).Some?
    ensures Good(host, def) ==> IsEntry(host, def, ImplOf(host, def).value)
  {
    hide IsEntry, ImplOf;
    if ImplOf(host, def).Some? {
      EntryIs(host, def, ImplOf(host, def).value);
    }
    if impl :| IsEntry(host, def, impl) {
      EntryIs(host, def, impl);
    }
  }

  /** Entry by entry: the definitions in front of the first bad one are set up, the others are not. */
  lemma BuiltIs(host: Mapper, defs: seq<Def>, i: nat)
    requires i < |defs|
    ensures (forall j :: 0 <= j <= i ==> Good(host, defs[j])) ==> IsEntry(host, defs[i], Entries(host, defs)[i])
    ensures (exists j :: 0 <= j <= i && !Good(host, defs[j])) ==> Entries(host, defs)[i] == Impl(0, 0, 0, None)
  {
    hide IsEntry, ImplOf, Good;
    forall j | 0 <= j <= i ensures Good(host, defs[j]) <==> ImplOf(host, defs[..i + 1][j]).Some? {
      GoodIs(host, defs[j]);
    }
    GoodIs(host, defs[i]);
  }

  /** A table in use: sorted, and every entry is numbered as the host numbers its URI. */
  ghost predicate Consistent(host: Mapper, s: seq<Impl>) {
    && Sorted(s)
    && forall k :: 0 <= k < |s| ==>
         && s[k].def.Some? && s[k].def.value.property.Some?
         && s[k].property == host(s[k].def.value.property.value) && s[k].property != 0
  }

  ghost predicate Declared(s: seq<Impl>, uri: string) {
    exists k :: 0 <= k < |s| && s[k].def.Some? && s[k].def.value.property == Some(uri)
  }

  /** The host tells the declared properties apart. */
  ghost predicate Distinct(host: Mapper, s: seq<Impl>) {
    forall u: string, v: string :: Declared(s, u) && Declared(s, v) && host(u) == host(v) ==> u == v
  }

  /** Sorting a table of good definitions makes it usable, and declares what they declare. */
  lemma TableIsConsistent(host: Mapper, defs: seq<Def>, s: seq<Impl>)
    requires AllGood(host, defs) && Sorted(s) && multiset(s) == multiset(Entries(host, defs))
    ensures Consistent(host, s)
    ensures forall uri :: Declared(s, uri) <==> exists i :: 0 <= i < |defs| && defs[i].property == Some(uri)
  {
    var t := Entries(host, defs);
    forall i | 0 <= i < |defs| ensures t[i] == ImplOf(host, defs[i]).value {
      assert AllGood(host, defs[..i + 1]);
    }
    forall k | 0 <= k < |s| ensures exists i :: 0 <= i < |defs| && s[k] == ImplOf(host, defs[i]).value {
      assert s[k] in multiset(s);
      assert s[k] in multiset(t);
      var i :| 0 <= i < |t| && t[i] == s[k];
      assert s[k] == ImplOf(host, defs[i]).value;
    }
    forall uri, i | 0 <= i < |defs| && defs[i].property == Some(uri) ensures Declared(s, uri) {
      assert t[i] in multiset(t);
      assert t[i] in multiset(s);
      var k :| 0 <= k < |s| && s[k] == t[i];
    }
    forall uri | Declared(s, uri) ensures exists i :: 0 <= i < |defs| && defs[i].property == Some(uri) {
      var k :| 0 <= k < |s| && s[k].def.Some? && s[k].def.value.property == Some(uri);
      var i :| 0 <= i < |defs| && s[k] == ImplOf(host, defs[i]).value;
      assert defs[i].property == Some(uri);
    }
  }

  /** Every slot is the entry of a definition, and every definition has one. */
  ghost predicate Holds(host: Mapper, defs: seq<Def>, s: seq<Impl>) {
    && (forall k :: 0 <= k < |s| ==> exists i :: 0 <= i < |defs| && IsEntry(host, defs[i], s[k]))
    && (forall i :: 0 <= i < |defs| ==> exists k :: 0 <= k < |s| && IsEntry(host, defs[i], s[k]))
  }

  lemma EntryOf(host: Mapper, defs: seq<Def>, i: nat)
    requires AllGood(host, defs) && i < |defs|
    ensures IsEntry(host, defs[i], Entries(host, defs)[i])
  {
    hide IsEntry, ImplOf;
    assert AllGood(host, defs[..i + 1]);
    assert ImplOf(host, defs[i]).Some?;
    EntryIs(host, defs[i], ImplOf(host, defs[i]).value);
  }

  lemma TableHolds(host: Mapper, defs: seq<Def>, s: seq<Impl>)
    requires AllGood(host, defs) && multiset(s) == multiset(Entries(host, defs))
    ensures Holds(host, defs, s)
  {
    hide IsEntry, AllGood, Entries;
    var t := Entries(host, defs);
    forall k | 0 <= k < |s| ensures exists i :: 0 <= i < |defs| && IsEntry(host, defs[i], s[k]) {
      assert s[k] in multiset(s);
      assert s[k] in multiset(t);
      var i :| 0 <= i < |t| && t[i] == s[k];
      EntryOf(host, defs, i);
    }
    forall i | 0 <= i < |defs| ensures exists k :: 0 <= k < |s| && IsEntry(host, defs[i], s[k]) {
      assert t[i] in multiset(t);
      assert t[i] in multiset(s);
      var k :| 0 <= k < |s| && s[k] == t[i];
      EntryOf(host, defs, i);
    }
  }

  class Table {
    const impls: array<Impl>
    var nimpls: nat

    constructor (max: nat)
      ensures fresh(impls) && impls.Length == max && nimpls == 0
      ensures forall i :: 0 <= i < max ==> impls[i] == BLANK
    {
      impls := new Impl[max](_ => BLANK);
      nimpls := 0;
    }

    ghost function Slots(): seq<Impl>
      requires nimpls <= impls.Length
      reads this, impls
    {
      impls[..nimpls]
    }

    /** Sets up and sorts the table; a bad definition makes it fail, but it is sorted all the same. */
    method Init(host: Mapper, defs: seq<Def>) returns (status: bool)
      requires |defs| <= impls.Length && forall i :: 0 <= i < impls.Length ==> impls[i] == BLANK
      modifies this, impls
      ensures nimpls == |defs| && (status <==> AllGood(host, defs))
      ensures Sorted(Slots()) && multiset(Slots()) == multiset(Entries(host, defs))
      ensures status ==> Consistent(host, Slots())
      ensures status ==>
                forall uri :: Declared(Slots(), uri) <==> exists i :: 0 <= i < |defs| && defs[i].property == Some(uri)
      ensures status ==> Holds(host, defs, Slots())
    {
      hide ImplOf, Sorted, Consistent, Declared, Holds;
      nimpls := |defs|;
      status := true;
      var i := 0;
      while i < nimpls
        invariant i <= nimpls == |defs|
        invariant status <==> AllGood(host, defs[..i])
        invariant forall k :: 0 <= k < i ==> impls[k] == Entries(host, defs)[k]
        invariant forall k :: i <= k < nimpls ==> impls[k] == BLANK
      {
        OneMore(host, defs, i);
        if status {
          var impl := ImplOf(host, defs[i]);
          status := impl.Some?;
          if status {
            impls[i] := impl.value;
          }
        }
        i := i + 1;
      }
      assert defs[..i] == defs;
      assert impls[..nimpls] == Entries(host, defs);
      ghost var s: seq<Impl> := impls[..];
      Qsort(impls, 0, nimpls);
      assert impls[0..nimpls] == impls[..nimpls] && s[0..nimpls] == s[..nimpls];
      if status {
        TableIsConsistent(host, defs, Slots());
        TableHolds(host, defs, Slots());
      }
    }

    /** Looks for the URI from the first entry to the last. */
    method Map(ghost host: Mapper, uri: string) returns (property: word)
      requires nimpls <= impls.Length && Consistent(host, Slots())
      ensures Declared(Slots(), uri) ==> property == host(uri) != 0
      ensures !Declared(Slots(), uri) ==> property == 0
    {
      ghost var s := Slots();
      var i := 0;
      while i < nimpls
        invariant i <= nimpls
        invariant forall k :: 0 <= k < i ==> s[k].def.value.property != Some(uri)
      {
        assert impls[i] == s[i];
        if impls[i].def.value.property.value == uri {
          return impls[i].property;
        }
        i := i + 1;
      }
      property := 0;
    }

    method Unmap(ghost host: Mapper, property: word) returns (uri: Option<string>)
      requires 1 <= nimpls <= impls.Length && Consistent(host, Slots())
      ensures uri.Some? <==> Has(Slots(), property)
      ensures uri.Some? ==> Declared(Slots(), uri.value) && host(uri.value) == property
    {
      var slot := Get(impls, nimpls, property);
      if slot.None? {
        return None;
      }
      assert impls[slot.value] == Slots()[slot.value];
      uri := impls[slot.value].def.value.property;
    }

    /** A declared property is unmapped to itself; any other URI to nothing. */
    method MapThenUnmap(ghost host: Mapper, uri: string) returns (back: Option<string>)
      requires 1 <= nimpls <= impls.Length && Consistent(host, Slots()) && Distinct(host, Slots())
      ensures back == if Declared(Slots(), uri) then Some(uri) else None
    {
      hide Sorted;
      var property := Map(host, uri);
      back := Unmap(host, property);
      if Declared(Slots(), uri) {
        var k :| 0 <= k < nimpls && Slots()[k].def.value.property == Some(uri);
        assert Slots()[k].property == property;
      }
    }

    /** A number in the table is mapped back to itself; any other to nothing. */
    method UnmapThenMap(ghost host: Mapper, property: word) returns (back: word)
      requires 1 <= nimpls <= impls.Length && Consistent(host, Slots())
      ensures back == if Has(Slots(), property) then property else 0
    {
      hide Sorted, Consistent, Declared, Has;
      var uri := Unmap(host, property);
      if uri.None? {
        return 0;
      }
      back := Map(host, uri.value);
    }
  }

  lemma OneMore(host: Mapper, defs: seq<Def>, i: nat)
    requires i < |defs|
    ensures AllGood(host, defs[..i + 1]) <==> AllGood(host, defs[..i]) && ImplOf(host, defs[i]).Some?
    ensures Entries(host, defs)[i] ==
            if AllGood(host, defs[..i + 1]) then ImplOf(host, defs[i]).value else BLANK
  {
    hide ImplOf;
    assert defs[..i + 1] == defs[..i] + [defs[i]];
  }
}
