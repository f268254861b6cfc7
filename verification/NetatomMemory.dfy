/** The memory behind netatom: overwriting stretches of words, and the dictionary as words. */
module NetatomMemory {
  import opened Bytes
  import opened Splice
  import opened AtomTree
  import opened NetatomSpec
  import opened Urid

  // ---- overwriting ----

  lemma OverSame(s: seq<word>, off: nat, data: seq<word>)
    requires off + |data| <= |s| && s[off..off + |data|] == data
    ensures Over(s, off, data) == s
  {
  }

  /** Overwriting the middle of what was just written. */
  lemma OverInside(s: seq<word>, off: nat, x: seq<word>, y: seq<word>, z: seq<word>, y': seq<word>)
    requires off + |x| + |y| + |z| <= |s| && |y'| == |y|
    ensures Over(Over(s, off, x + y + z), off + |x|, y') == Over(s, off, x + y' + z)
  {
  }

  lemma ReadInside(s: seq<word>, off: nat, x: seq<word>, y: seq<word>, z: seq<word>)
    requires off + |x| + |y| + |z| <= |s|
    ensures Over(s, off, x + y + z)[off + |x|..off + |x| + |y|] == y
  {
  }

  lemma SliceIndex(s: seq<word>, off: nat, data: seq<word>, k: nat)
    requires off + |data| <= |s| && s[off..off + |data|] == data && k < |data|
    ensures s[off + k] == data[k]
  {
  }

  lemma SubSlice(s: seq<word>, off: nat, x: seq<word>, y: seq<word>)
    requires off + |x| + |y| <= |s| && s[off..off + |x| + |y|] == x + y
    ensures s[off..off + |x|] == x && s[off + |x|..off + |x| + |y|] == y
  {
    var t := s[off..off + |x| + |y|];
    assert t[..|x|] == x && t[|x|..] == y;
  }

  // ---- URIs as words ----

  function ByteOf(uri: Uri, k: nat): byte {
    if k < |uri| then uri[k] else 0
  }

  /** Word j of a zero-extended string on a little-endian host. */
  function PackWord(uri: Uri, j: nat): word {
    FromLe32([ByteOf(uri, 4 * j), ByteOf(uri, 4 * j + 1), ByteOf(uri, 4 * j + 2), ByteOf(uri, 4 * j + 3)])
  }

  function PackUri(uri: Uri): (r: seq<word>)
    ensures |r| == PadWords(|uri| + 1)
  {
    seq(PadWords(|uri| + 1), j requires 0 <= j => PackWord(uri, j))
  }

  /** The C string that starts at byte k of the words. */
  function ReadUri(words: seq<word>, k: nat): Uri
    decreases 4 * |words| - k
  {
    if k / 4 < |words| && Le32(words[k / 4])[k % 4] != 0 then
      [Le32(words[k / 4])[k % 4]] + ReadUri(words, k + 1)
    else []
  }

  lemma LeOfLe(s: seq<byte>)
    requires |s| == 4
    ensures Le32(FromLe32(s)) == s
  {
    var q: int := 256 * (s[3] as int) + s[2];
    LastDigit(s[3], s[2]);
    LastDigit(q, s[1]);
    LastDigit(256 * q + s[1], s[0]);
  }

  lemma PackedByte(uri: Uri, k: nat)
    ensures Le32(PackWord(uri, k / 4))[k % 4] == ByteOf(uri, k)
  {
    hide Le32, FromLe32;
    var j := k / 4;
    LeOfLe([ByteOf(uri, 4 * j), ByteOf(uri, 4 * j + 1), ByteOf(uri, 4 * j + 2), ByteOf(uri, 4 * j + 3)]);
  }

  lemma PackRoom(n: nat, k: nat)
    requires k <= n
    ensures k / 4 < PadWords(n + 1)
  {
  }

  /** Behind the padding of a URI strncpy writes only zeros. */
  lemma NothingPacked(uri: Uri, j: nat)
    requires j >= PadWords(|uri| + 1)
    ensures PackWord(uri, j) == 0
  {
  }

  /** A packed URI reads back as itself, whatever follows it. */
  lemma {:induction false} ReadPacked(uri: Uri, words: seq<word>, k: nat)
    requires IsText(uri) && k <= |uri|
    requires |PackUri(uri)| <= |words| && words[..|PackUri(uri)|] == PackUri(uri)
    ensures ReadUri(words, k) == uri[k..]
    decreases |uri| - k
  {
    hide Le32, PackWord, PadWords;
    PackRoom(|uri|, k);
    PackedByte(uri, k);
    assert words[k / 4] == words[..|PackUri(uri)|][k / 4] == PackWord(uri, k / 4);
    if k < |uri| {
      ReadPacked(uri, words, k + 1);
    }
  }

  // ---- the dictionary as words ----

  /** What stands in the type field of an entry at each stage of its life. */
  datatype Keys =
    | AsUrid             // while the atom is serialised
    | Cleared            // on the wire
    | Mapped(h: Host)    // after the receiver has looked the URI up

  function Key(keys: Keys, e: Entry): word {
    match keys
    case AsUrid => e.urid
    case Cleared => 0
    case Mapped(h) => h.map_(e.uri)
  }

  ghost predicate SmallEntries(entries: seq<Entry>) {
    forall i :: 0 <= i < |entries| ==> |entries[i].uri| + 1 < WORD_LIMIT && IsText(entries[i].uri)
  }

  function EntryWords(keys: Keys, swap: bool, e: Entry): (r: seq<word>)
    requires |e.uri| + 1 < WORD_LIMIT
    ensures |r| == EntryLen(e)
  {
    [Sw(swap, |e.uri| + 1), Key(keys, e)] + PackUri(e.uri)
  }

  ghost function DictWords(keys: Keys, swap: bool, entries: seq<Entry>): (r: seq<word>)
    requires SmallEntries(entries)
    ensures |r| == DictLen(entries)
  {
    if entries == [] then [] else EntryWords(keys, swap, entries[0]) + DictWords(keys, swap, entries[1..])
  }

  lemma {:induction false} DictWordsAppend(keys: Keys, swap: bool, e: seq<Entry>, f: seq<Entry>)
    requires SmallEntries(e) && SmallEntries(f)
    ensures SmallEntries(e + f) && DictWords(keys, swap, e + f) == DictWords(keys, swap, e) + DictWords(keys, swap, f)
    decreases |e|
  {
    hide EntryWords, PadWords, EntryLen;
    if e == [] {
      assert e + f == f;
    } else {
      assert (e + f)[0] == e[0] && (e + f)[1..] == e[1..] + f;
      DictWordsAppend(keys, swap, e[1..], f);
      var x, y, z := EntryWords(keys, swap, e[0]), DictWords(keys, swap, e[1..]), DictWords(keys, swap, f);
      assert x + (y + z) == x + y + z;
    }
  }

  lemma FirstEntry(keys: Keys, swap: bool, e: seq<Entry>)
    requires SmallEntries(e) && e != []
    ensures SmallEntries(e[1..])
    ensures DictWords(keys, swap, e) == EntryWords(keys, swap, e[0]) + DictWords(keys, swap, e[1..])
  {
    hide EntryWords, EntryLen, IsText, DictLen;
  }

  /** The dictionary around its k-th entry. */
  lemma DictAround(keys: Keys, swap: bool, e: seq<Entry>, k: nat)
    requires SmallEntries(e) && k < |e|
    ensures SmallEntries(e[..k]) && SmallEntries(e[k + 1..])
    ensures DictWords(keys, swap, e) ==
            DictWords(keys, swap, e[..k]) + EntryWords(keys, swap, e[k]) + DictWords(keys, swap, e[k + 1..])
  {
    hide EntryWords, EntryLen, IsText, DictLen, DictWords;
    var rest := e[k..];
    assert e == e[..k] + rest && rest[0] == e[k] && rest[1..] == e[k + 1..];
    assert DictWords(keys, swap, rest) == EntryWords(keys, swap, e[k]) + DictWords(keys, swap, e[k + 1..]) by {
      FirstEntry(keys, swap, rest);
    }
    DictWordsAppend(keys, swap, e[..k], rest);
    var x, y, z := DictWords(keys, swap, e[..k]), EntryWords(keys, swap, e[k]), DictWords(keys, swap, e[k + 1..]);
    assert x + (y + z) == x + y + z;
  }

  lemma DictLenAround(e: seq<Entry>, k: nat)
    requires k < |e|
    ensures DictLen(e[..k + 1]) == DictLen(e[..k]) + EntryLen(e[k])
    ensures DictLen(e) == DictLen(e[..k]) + EntryLen(e[k]) + DictLen(e[k + 1..])
  {
    hide EntryLen;
    assert e[..k + 1] == e[..k] + [e[k]];
    DictLenAppend(e[..k], [e[k]]);
    assert e == e[..k + 1] + e[k + 1..];
    DictLenAppend(e[..k + 1], e[k + 1..]);
  }

  lemma WordsAround(x: seq<word>, y: seq<word>, z: seq<word>, k: nat)
    requires k < |y|
    ensures (x + y + z)[|x| + k] == y[k]
  {
  }

  /** The two header words of the k-th entry, and how far it is to the next one. */
  lemma EntryHeader(keys: Keys, swap: bool, e: seq<Entry>, k: nat)
    requires SmallEntries(e) && k < |e|
    ensures var d, at := DictWords(keys, swap, e), DictLen(e[..k]);
            && at + EntryLen(e[k]) <= |d|
            && |e[k].uri| + 1 < WORD_LIMIT
            && d[at] == Sw(swap, |e[k].uri| + 1) && d[at + 1] == Key(keys, e[k])
            && TotalWords(|e[k].uri| + 1) == EntryLen(e[k])
            && DictLen(e[..k + 1]) == at + EntryLen(e[k])
  {
    hide DictWords, PackUri, IsText, PadWords, Key, Sw;
    DictAround(keys, swap, e, k);
    DictLenAround(e, k);
    PadWordsFacts(|e[k].uri| + 1, 0);
    var x, y, z := DictWords(keys, swap, e[..k]), EntryWords(keys, swap, e[k]), DictWords(keys, swap, e[k + 1..]);
    WordsAround(x, y, z, 0);
    WordsAround(x, y, z, 1);
  }

  lemma RefIsOffset(e: seq<Entry>, k: nat)
    requires k < |e| && 4 * DictLen(e) + 1 < WORD_LIMIT
    ensures RefTo(e, k) == 4 * DictLen(e[..k]) + 1
    ensures RefTo(e, k) == (4 * DictLen(e[..k]) + 1) % WORD_LIMIT
  {
    hide PadWords, DictLen;
    DictLenAround(e, k);
  }

  lemma FindFirst(e: seq<Entry>, urid: word, k: nat)
    requires k < |e| && e[k].urid == urid && forall i :: 0 <= i < k ==> e[i].urid != urid
    ensures Find(e, urid) == Some(k)
  {
    var r := Find(e, urid);
  }

  // ---- the dictionary changing hands ----

  lemma SplitAt(e: seq<Entry>, k: nat)
    requires k < |e|
    ensures e[k..][0] == e[k] && e[k..][1..] == e[k + 1..] && e[..k + 1] == e[..k] + [e[k]]
  {
  }

  lemma DictGrows(keys: Keys, swap: bool, e: seq<Entry>, k: nat)
    requires SmallEntries(e) && k < |e|
    ensures DictWords(keys, swap, e[..k + 1]) == DictWords(keys, swap, e[..k]) + EntryWords(keys, swap, e[k])
    ensures DictLen(e[..k + 1]) == DictLen(e[..k]) + EntryLen(e[k])
  {
    hide EntryWords, EntryLen, IsText;
    SplitAt(e, k);
    DictWordsAppend(keys, swap, e[..k], [e[k]]);
    DictLenAppend(e[..k], [e[k]]);
    assert DictWords(keys, swap, [e[k]]) == EntryWords(keys, swap, e[k]) && DictLen([e[k]]) == EntryLen(e[k]);
  }

  lemma DictShrinks(keys: Keys, swap: bool, e: seq<Entry>, k: nat)
    requires SmallEntries(e) && k < |e|
    ensures DictWords(keys, swap, e[k..]) == EntryWords(keys, swap, e[k]) + DictWords(keys, swap, e[k + 1..])
    ensures DictLen(e) == DictLen(e[..k]) + EntryLen(e[k]) + DictLen(e[k + 1..])
  {
    hide EntryWords, EntryLen, IsText;
    SplitAt(e, k);
    DictLenAround(e, k);
  }

  lemma SetWithin(x: seq<word>, y: seq<word>, z: seq<word>, k: nat, w: word)
    requires k < |y|
    ensures (x + y + z)[|x| + k] == y[k]
    ensures (x + y + z)[|x| + k := w] == x + y[k := w] + z
  {
  }

  lemma SetHeader(keys: Keys, keys': Keys, swap: bool, swap': bool, e: Entry)
    requires |e.uri| + 1 < WORD_LIMIT
    ensures EntryWords(keys, swap, e)[1 := Key(keys', e)] == EntryWords(keys', swap, e)
    ensures EntryWords(keys, swap, e)[0 := Sw(swap', |e.uri| + 1)] == EntryWords(keys, swap', e)
  {
    hide PackUri, Sw, PadWords;
  }

  /**
   _netatom_ser_dict half-way: the entries before k are ready for the wire, except that the size
   of the last of them is only swapped once the loop has stepped over it.
   */
  ghost function Clearing(swap: bool, e: seq<Entry>, k: nat): seq<word>
    requires SmallEntries(e) && k <= |e|
  {
    if k == 0 then DictWords(AsUrid, false, e)
    else DictWords(Cleared, swap, e[..k - 1]) + EntryWords(Cleared, false, e[k - 1]) + DictWords(AsUrid, false, e[k..])
  }

  ghost function Closed(swap: bool, e: seq<Entry>, k: nat): seq<word>
    requires SmallEntries(e) && k <= |e|
  {
    DictWords(Cleared, swap, e[..k]) + DictWords(AsUrid, false, e[k..])
  }

  lemma CloseEntry(swap: bool, e: seq<Entry>, k: nat)
    requires SmallEntries(e) && 0 < k <= |e|
    ensures var at, d := DictLen(e[..k - 1]), Clearing(swap, e, k);
            at < |d| && d[at] < WORD_LIMIT && d[at := Sw(swap, d[at])] == Closed(swap, e, k)
  {
    hide EntryLen, IsText, PackUri, DictWords, PadWords, Swap32;
    var x, y, z := DictWords(Cleared, swap, e[..k - 1]), EntryWords(Cleared, false, e[k - 1]),
                   DictWords(AsUrid, false, e[k..]);
    DictGrows(Cleared, swap, e, k - 1);
    SetWithin(x, y, z, 0, Sw(swap, y[0]));
    SetHeader(Cleared, Cleared, false, swap, e[k - 1]);
  }

  lemma NothingClosed(swap: bool, e: seq<Entry>)
    requires SmallEntries(e)
    ensures Closed(swap, e, 0) == Clearing(swap, e, 0) && DictLen(e[..0]) == 0
    ensures Closed(swap, e, |e|) == DictWords(Cleared, swap, e)
  {
    assert e[0..] == e && e[..|e|] == e && e[|e|..] == [];
    assert [] + DictWords(AsUrid, false, e) == DictWords(AsUrid, false, e);
  }

  lemma ClearEntry(swap: bool, e: seq<Entry>, k: nat)
    requires SmallEntries(e) && k < |e|
    ensures var at, d := DictLen(e[..k]), Closed(swap, e, k);
            && at + 1 < |d| && at + EntryLen(e[k]) <= DictLen(e)
            && d[at + 1 := 0] == Clearing(swap, e, k + 1)
            && d[at] == |e[k].uri| + 1 && TotalWords(d[at]) == EntryLen(e[k])
            && DictLen(e[..k + 1]) == at + EntryLen(e[k])
  {
    hide EntryLen, IsText, PackUri, DictWords, PadWords, EntryWords, SmallEntries, DictLen;
    Smalls(e, k);
    var x, y, z := DictWords(Cleared, swap, e[..k]), EntryWords(AsUrid, false, e[k]),
                   DictWords(AsUrid, false, e[k + 1..]);
    DictShrinks(AsUrid, false, e, k);
    DictGrows(Cleared, swap, e, k);
    assert x + (y + z) == x + y + z;
    EntryStep(e[k]);
    SetWithin(x, y, z, 1, 0);
    SetWithin(x, y, z, 0, 0);
    SetHeader(AsUrid, Cleared, false, false, e[k]);
    FirstWord(e[k]);
  }

  lemma Smalls(e: seq<Entry>, k: nat)
    requires SmallEntries(e) && k < |e|
    ensures SmallEntries(e[..k]) && SmallEntries(e[k..]) && SmallEntries(e[..k + 1]) && SmallEntries(e[k + 1..])
    ensures |e[k].uri| + 1 < WORD_LIMIT && IsText(e[k].uri)
  {
    hide IsText;
  }

  lemma FirstWord(e: Entry)
    requires |e.uri| + 1 < WORD_LIMIT
    ensures EntryLen(e) >= 2 && EntryWords(AsUrid, false, e)[0] == |e.uri| + 1
  {
  }

  lemma EntryStep(e: Entry)
    ensures TotalWords(|e.uri| + 1) == EntryLen(e) >= 2
  {
    PadWordsFacts(|e.uri| + 1, 0);
  }

  /** _netatom_deser_dict half-way. */
  ghost function Mapping(h: Host, swap: bool, e: seq<Entry>, k: nat): seq<word>
    requires SmallEntries(e) && k <= |e|
  {
    DictWords(Mapped(h), false, e[..k]) + DictWords(Cleared, swap, e[k..])
  }

  lemma MappingEnds(h: Host, swap: bool, e: seq<Entry>)
    requires SmallEntries(e)
    ensures Mapping(h, swap, e, 0) == DictWords(Cleared, swap, e) && DictLen(e[..0]) == 0
    ensures Mapping(h, swap, e, |e|) == DictWords(Mapped(h), false, e) && e[..|e|] == e
  {
    assert e[0..] == e && e[..|e|] == e && e[|e|..] == [];
    assert [] + DictWords(Cleared, swap, e) == DictWords(Cleared, swap, e);
  }

  /** What the loop reads at the k-th entry. */
  lemma MapEntryRead(h: Host, swap: bool, e: seq<Entry>, k: nat)
    requires SmallEntries(e) && k < |e|
    ensures var at, d := DictLen(e[..k]), Mapping(h, swap, e, k);
            && at + EntryLen(e[k]) <= |d| == DictLen(e) && EntryLen(e[k]) >= 2
            && Sw(swap, d[at]) == |e[k].uri| + 1 < WORD_LIMIT
            && ReadUri(d[at + 2..], 0) == e[k].uri
            && TotalWords(|e[k].uri| + 1) == EntryLen(e[k])
            && DictLen(e[..k + 1]) == at + EntryLen(e[k])
  {
    hide EntryLen, PackUri, DictWords, PadWords, ReadUri, Sw, Key, IsText, SmallEntries, DictLen;
    Smalls(e, k);
    var x, y, z := DictWords(Mapped(h), false, e[..k]), EntryWords(Cleared, swap, e[k]),
                   DictWords(Cleared, swap, e[k + 1..]);
    DictShrinks(Cleared, swap, e, k);
    DictGrows(Mapped(h), false, e, k);
    assert x + (y + z) == x + y + z;
    SwTwice(swap, |e[k].uri| + 1);
    SetWithin(x, y, z, 0, 0);
    EntryStep(e[k]);
    UriInPlace(x, swap, e[k], z);
  }

  /** What it leaves behind. */
  lemma MapEntryWrite(h: Host, swap: bool, e: seq<Entry>, k: nat)
    requires SmallEntries(e) && k < |e|
    ensures var at, d := DictLen(e[..k]), Mapping(h, swap, e, k);
            && |d| == DictLen(e) && at + 1 < |d| && |e[k].uri| + 1 < WORD_LIMIT
            && d[at := |e[k].uri| + 1][at + 1 := h.map_(e[k].uri)] == Mapping(h, swap, e, k + 1)
  {
    hide EntryLen, PackUri, DictWords, PadWords, Key, IsText, EntryWords, SmallEntries, DictLen;
    Smalls(e, k);
    var x, y, z := DictWords(Mapped(h), false, e[..k]), EntryWords(Cleared, swap, e[k]),
                   DictWords(Cleared, swap, e[k + 1..]);
    var y' := EntryWords(Cleared, false, e[k]);
    EntryStep(e[k]);
    DictShrinks(Cleared, swap, e, k);
    DictGrows(Mapped(h), false, e, k);
    assert x + (y + z) == x + y + z;
    SetWithin(x, y, z, 0, |e[k].uri| + 1);
    SetHeader(Cleared, Cleared, swap, false, e[k]);
    KeyOf(h, e[k]);
    SetWithin(x, y', z, 1, h.map_(e[k].uri));
    SetHeader(Cleared, Mapped(h), false, false, e[k]);
  }

  lemma KeyOf(h: Host, e: Entry)
    ensures Key(Mapped(h), e) == h.map_(e.uri)
  {
  }

  lemma UriInPlace(x: seq<word>, swap: bool, e: Entry, z: seq<word>)
    requires |e.uri| + 1 < WORD_LIMIT && IsText(e.uri)
    ensures EntryLen(e) >= 2 && ReadUri((x + EntryWords(Cleared, swap, e) + z)[|x| + 2..], 0) == e.uri
  {
    hide ReadUri, PackUri, Sw, PadWords, Key;
    var t := (x + EntryWords(Cleared, swap, e) + z)[|x| + 2..];
    assert t == PackUri(e.uri) + z;
    assert t[..|PackUri(e.uri)|] == PackUri(e.uri);
    ReadPacked(e.uri, t, 0);
    assert e.uri[0..] == e.uri;
  }

  // ---- behind the dictionary ----

  /**
   What lies from word `top` on, once entries have been added: the strncpy of the last of them
   has cleared the first two words, the others are as they were.
   */
  ghost predicate Spilled(was: seq<word>, now: seq<word>, top: nat, added: bool) {
    && top <= |now| == |was|
    && (!added ==> now[top..] == was[top..])
    && (added ==> top + 2 <= |was| && now[top..top + 2] == [0, 0] && now[top + 2..] == was[top + 2..])
  }

  /**
   The words from `end` on come through exactly if nothing was added or those that strncpy clears
   held 0 already; whatever they held, only if the dictionary ends 8 bytes before them.
   */
  lemma SpillsExactly(was: seq<word>, now: seq<word>, top: nat, added: bool, end: nat)
    requires Spilled(was, now, top, added) && 4 * top <= end <= 4 * |was|
    ensures now[end / 4..] == was[end / 4..] <==>
            !added || forall k :: end / 4 <= k < top + 2 ==> was[k] == 0
    ensures added && was[top + 1] != 0 ==> (now[end / 4..] == was[end / 4..] <==> 4 * (top + 2) <= end)
  {
    var e := end / 4;
    assert top <= e <= |was|;
    if !added {
      assert now[e..] == now[top..][e - top..] && was[e..] == was[top..][e - top..];
    } else {
      SpillsAt(was, now, top, e);
    }
  }

  lemma SpillsAt(was: seq<word>, now: seq<word>, top: nat, e: nat)
    requires Spilled(was, now, top, true) && top <= e <= |was|
    ensures now[e..] == was[e..] <==> forall k :: e <= k < top + 2 ==> was[k] == 0
  {
    forall k | e <= k < |was|
      ensures now[e..][k - e] == (if k < top + 2 then 0 else was[k]) && was[e..][k - e] == was[k]
    {
      if k < top + 2 {
        assert now[k] == now[top..top + 2][k - top] == 0;
      } else {
        assert now[k] == now[top + 2..][k - top - 2] == was[top + 2..][k - top - 2] == was[k];
      }
    }
    if now[e..] == was[e..] {
      forall k | e <= k < top + 2 ensures was[k] == 0 {
        assert was[e..][k - e] == now[e..][k - e];
      }
    }
  }

  /** One more entry, which ends at `top'` and clears two words behind it. */
  lemma SpillsFurther(was: seq<word>, m: seq<word>, now: seq<word>, top: nat, top': nat, added: bool)
    requires Spilled(was, m, top, added) && top + 2 <= top' && top' + 2 <= |was| == |now|
    requires now[top'..top' + 2] == [0, 0] && now[top' + 2..] == m[top' + 2..]
    ensures Spilled(was, now, top', true)
  {
    var k := if added then top + 2 else top;
    assert m[top' + 2..] == m[k..][top' + 2 - k..] && was[top' + 2..] == was[k..][top' + 2 - k..];
  }

  /** Writing in front of `top` spills nothing. */
  lemma SpillStays(was: seq<word>, m: seq<word>, now: seq<word>, base: nat, top: nat, added: bool)
    requires Spilled(was, m, top, added) && base <= top && |now| == |m| && now[base..] == m[base..]
    ensures Spilled(was, now, top, added)
  {
    assert now[top..] == now[base..][top - base..] && m[top..] == m[base..][top - base..];
    if added {
      assert now[top..top + 2] == now[top..][..2] && m[top..top + 2] == m[top..][..2];
      assert now[top + 2..] == now[top..][2..] && m[top + 2..] == m[top..][2..];
    }
  }
}
