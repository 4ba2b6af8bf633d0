/** The toolbar: one button per effect class, and a map from effect name to
    `{isEnabled, position}` that decides where a newly shown effect goes. The map
    is a `std::map` keyed by name; it is modelled as a sequence of entries kept in
    ascending key order, which is the order the source iterates it in. Callbacks to
    the editor are returned as the list of notices the operation sends. */
module Toolbar {
  import opened Ordering
  import opened RackModel
  import opened RackState
  import opened Effects

  // ---------------------------------------------------------------------------
  // The name-keyed map

  /** Lexicographic order on names, character by character. */
  predicate StrLess(a: string, b: string)
    decreases |a|
  {
    if b == [] then false
    else if a == [] then true
    else if a[0] != b[0] then a[0] < b[0]
    else StrLess(a[1..], b[1..])
  }

  lemma {:induction false} StrLessIrreflexive(a: string)
    ensures !StrLess(a, a)
    decreases |a|
  {
    if a != [] {
      StrLessIrreflexive(a[1..]);
    }
  }

  lemma {:induction false} StrLessTransitive(a: string, b: string, c: string)
    requires StrLess(a, b) && StrLess(b, c)
    ensures StrLess(a, c)
    decreases |a|
  {
    if a != [] && a[0] == b[0] && b[0] == c[0] {
      StrLessTransitive(a[1..], b[1..], c[1..]);
    }
  }

  lemma {:induction false} StrLessTotal(a: string, b: string)
    requires a != b
    ensures StrLess(a, b) || StrLess(b, a)
    decreases |a|
  {
    if a != [] && b != [] && a[0] == b[0] {
      assert a == [a[0]] + a[1..] && b == [b[0]] + b[1..];
      StrLessTotal(a[1..], b[1..]);
    }
  }

  datatype EffectState = EffectState(isEnabled: bool, position: int)

  datatype Entry = Entry(name: string, state: EffectState)

  function EntryPosition(e: Entry): int { e.state.position }

  function Keys(es: seq<Entry>): (r: seq<string>)
    ensures |r| == |es| && forall i :: 0 <= i < |es| ==> r[i] == es[i].name
  {
    seq(|es|, i requires 0 <= i < |es| => es[i].name)
  }

  /** The entries are in strictly ascending key order, as the map iterates them. */
  ghost predicate KeysSorted(es: seq<Entry>) {
    forall i, j :: 0 <= i < j < |es| ==> StrLess(es[i].name, es[j].name)
  }

  lemma KeysSortedDistinct(es: seq<Entry>)
    requires KeysSorted(es)
    ensures Distinct(Keys(es)) && Distinct(es)
  {
    forall i, j | 0 <= i < j < |es| ensures es[i].name != es[j].name {
      StrLessIrreflexive(es[i].name);
    }
  }

  /** `find`: the state stored under `name`, if any. */
  function Lookup(es: seq<Entry>, name: string): Option<EffectState>
    decreases |es|
  {
    if es == [] then None
    else if es[0].name == name then Some(es[0].state)
    else Lookup(es[1..], name)
  }

  lemma {:induction false} LookupAt(es: seq<Entry>, k: nat)
    requires KeysSorted(es) && k < |es|
    ensures Lookup(es, es[k].name) == Some(es[k].state)
    decreases k
  {
    if k > 0 {
      StrLessIrreflexive(es[0].name);
      assert es[0].name != es[k].name;
      assert es[1..][k - 1] == es[k];
      LookupAt(es[1..], k - 1);
    }
  }

  lemma {:induction false} LookupAbsent(es: seq<Entry>, name: string)
    requires name !in Keys(es)
    ensures Lookup(es, name) == None
    decreases |es|
  {
    if es != [] {
      assert Keys(es[1..]) == Keys(es)[1..];
      LookupAbsent(es[1..], name);
    }
  }

  /** `map[name] = st`: replaces the entry with that key, or inserts a new one in
      key order. */
  function Put(es: seq<Entry>, name: string, st: EffectState): seq<Entry>
    decreases |es|
  {
    if es == [] then [Entry(name, st)]
    else if es[0].name == name then [Entry(name, st)] + es[1..]
    else if StrLess(name, es[0].name) then [Entry(name, st)] + es
    else [es[0]] + Put(es[1..], name, st)
  }

  /** `Put` behaves as assignment into a map: the key now holds `st`, every other
      key holds what it held, no key is lost or invented, and the key order is kept. */
  lemma PutIsAssignment(es: seq<Entry>, name: string, st: EffectState)
    requires KeysSorted(es)
    ensures KeysSorted(Put(es, name, st))
    ensures forall k :: Lookup(Put(es, name, st), k) == if k == name then Some(st) else Lookup(es, k)
  {
    PutKeepsOrder(es, name, st);
    PutLookup(es, name, st);
  }

  /** After `Put` the key holds the state written. */
  lemma PutFinds(es: seq<Entry>, name: string, st: EffectState)
    ensures Lookup(Put(es, name, st), name) == Some(st)
  {
    PutLookup(es, name, st);
  }

  lemma {:induction false} PutLookup(es: seq<Entry>, name: string, st: EffectState)
    ensures forall k :: Lookup(Put(es, name, st), k) == if k == name then Some(st) else Lookup(es, k)
    decreases |es|
  {
    var r := Put(es, name, st);
    if es == [] {
    } else if es[0].name == name {
      assert r[1..] == es[1..];
    } else if StrLess(name, es[0].name) {
      assert r[1..] == es;
    } else {
      PutLookup(es[1..], name, st);
      assert r[1..] == Put(es[1..], name, st);
    }
  }

  lemma {:induction false} PutKeepsOrder(es: seq<Entry>, name: string, st: EffectState)
    requires KeysSorted(es)
    ensures KeysSorted(Put(es, name, st))
    decreases |es|
  {
    var r := Put(es, name, st);
    if es == [] {
    } else if es[0].name == name {
      forall i, j | 0 <= i < j < |r| ensures StrLess(r[i].name, r[j].name) {
        assert r[i].name == es[i].name && r[j].name == es[j].name;
      }
    } else if StrLess(name, es[0].name) {
      forall i, j | 0 <= i < j < |r| ensures StrLess(r[i].name, r[j].name) {
        if i == 0 && j > 1 {
          StrLessTransitive(name, es[0].name, es[j - 1].name);
        }
      }
    } else {
      var tail := es[1..];
      assert KeysSorted(tail);
      PutKeepsOrder(tail, name, st);
      PutMembers(tail, name, st);
      var rest := Put(tail, name, st);
      StrLessTotal(name, es[0].name);
      forall x | x in rest ensures StrLess(es[0].name, x.name) {
        if x != Entry(name, st) {
          var j :| 0 <= j < |tail| && tail[j] == x;
          assert tail[j] == es[j + 1];
        }
      }
      assert r == [es[0]] + rest;
      SortedCons(es[0], rest);
    }
  }

  /** An entry whose key precedes every key of a sorted list can lead it. */
  lemma SortedCons(head: Entry, rest: seq<Entry>)
    requires KeysSorted(rest)
    requires forall x :: x in rest ==> StrLess(head.name, x.name)
    ensures KeysSorted([head] + rest)
  {
    var r := [head] + rest;
    forall i, j | 0 <= i < j < |r| ensures StrLess(r[i].name, r[j].name) {
      if i == 0 {
        assert r[j] == rest[j - 1] && r[j] in rest;
      } else {
        assert r[i] == rest[i - 1] && r[j] == rest[j - 1];
      }
    }
  }

  /** `Put` invents no entry besides the one it writes. */
  lemma {:induction false} PutMembers(es: seq<Entry>, name: string, st: EffectState)
    ensures forall e :: e in Put(es, name, st) ==> e == Entry(name, st) || e in es
    decreases |es|
  {
    if es != [] && es[0].name != name && !StrLess(name, es[0].name) {
      PutMembers(es[1..], name, st);
    }
  }

  /** Assigning to a key that is present rewrites that entry where it stands. */
  lemma {:induction false} PutExisting(es: seq<Entry>, k: nat, st: EffectState)
    requires KeysSorted(es) && k < |es|
    ensures Put(es, es[k].name, st) == es[k := Entry(es[k].name, st)]
    decreases k
  {
    if k > 0 {
      var name := es[k].name;
      StrLessIrreflexive(es[0].name);
      if StrLess(name, es[0].name) {
        StrLessTransitive(name, es[0].name, name);
        StrLessIrreflexive(name);
      }
      assert es[1..][k - 1] == es[k];
      PutExisting(es[1..], k - 1, st);
      assert es == [es[0]] + es[1..];
    }
  }

  // ---------------------------------------------------------------------------
  // Slot allocation

  /** Some enabled entry holds position `p`. Disabled entries hold no slot. */
  ghost predicate Used(es: seq<Entry>, p: int) {
    exists i :: 0 <= i < |es| && es[i].state.isEnabled && es[i].state.position == p
  }

  /** The largest position of an enabled entry, or -1 when there is none above -1. */
  function MaxEnabled(es: seq<Entry>): (r: int)
    ensures r >= -1
    ensures forall i :: 0 <= i < |es| && es[i].state.isEnabled ==> es[i].state.position <= r
    ensures r == -1 || Used(es, r)
    decreases |es|
  {
    if es == [] then -1
    else
      var m := MaxEnabled(es[..|es| - 1]);
      var st := es[|es| - 1].state;
      if st.isEnabled && st.position > m then st.position else m
  }

  /** The first free slot at or after `p`. */
  ghost function FirstFree(es: seq<Entry>, p: int): (r: int)
    requires 0 <= p <= MaxEnabled(es) + 1
    ensures p <= r <= MaxEnabled(es) + 1 && !Used(es, r)
    ensures forall q :: p <= q < r ==> Used(es, q)
    decreases MaxEnabled(es) + 1 - p
  {
    if !Used(es, p) then p else FirstFree(es, p + 1)
  }

  /** The smallest non-negative position no enabled entry holds. */
  ghost function SmallestFree(es: seq<Entry>): int {
    FirstFree(es, 0)
  }

  /** A slot freed by disabling an effect is handed out again: when the position
      a disabled entry kept is held by no enabled entry, and every slot below it
      is, that position is the next slot. */
  lemma DisabledSlotIsReused(es: seq<Entry>, j: nat)
    requires j < |es| && !es[j].state.isEnabled && es[j].state.position >= 0
    requires !Used(es, es[j].state.position)
    requires forall q :: 0 <= q < es[j].state.position ==> Used(es, q)
    ensures SmallestFree(es) == es[j].state.position
  {
  }

  // ---------------------------------------------------------------------------
  // Positions written from an order of names

  /** Every entry whose name is among the first `n` names of `order` takes that
      name's index in `order` as its position; the other entries keep theirs. */
  function Ranked(es: seq<Entry>, order: seq<string>, n: nat): (r: seq<Entry>)
    ensures |r| == |es|
    ensures forall j :: 0 <= j < |es| ==>
      r[j].name == es[j].name && r[j].state.isEnabled == es[j].state.isEnabled
  {
    seq(|es|, j requires 0 <= j < |es| =>
      var b := IndexOf(order, es[j].name);
      if 0 <= b < n then Entry(es[j].name, es[j].state.(position := b)) else es[j])
  }

  lemma RankedKeysSorted(es: seq<Entry>, order: seq<string>, n: nat)
    requires KeysSorted(es)
    ensures KeysSorted(Ranked(es, order, n))
  {
    var r := Ranked(es, order, n);
    forall a, b | 0 <= a < b < |r| ensures StrLess(r[a].name, r[b].name) {
      assert r[a].name == es[a].name && r[b].name == es[b].name;
    }
  }

  /** One round of a loop that writes positions from `order`, when an entry is
      named `order[i]`: the entry still holds its original state ... */
  lemma RankedStepLookup(es: seq<Entry>, order: seq<string>, i: nat, k: nat)
    requires KeysSorted(es) && Distinct(order) && i < |order| && k < |es| && es[k].name == order[i]
    ensures Lookup(Ranked(es, order, i), order[i]) == Some(es[k].state) == Lookup(es, order[i])
  {
    var cur := Ranked(es, order, i);
    IndexOfDistinct(order, i);
    assert cur[k] == es[k];
    RankedKeysSorted(es, order, i);
    LookupAt(cur, k);
    LookupAt(es, k);
  }

  /** ... and assigning position `i` to it gives the next round's map. */
  lemma RankedStepPut(es: seq<Entry>, order: seq<string>, i: nat, k: nat)
    requires KeysSorted(es) && Distinct(order) && i < |order| && k < |es| && es[k].name == order[i]
    ensures Put(Ranked(es, order, i), order[i], es[k].state.(position := i)) == Ranked(es, order, i + 1)
  {
    var cur := Ranked(es, order, i);
    var next := Ranked(es, order, i + 1);
    var st := es[k].state.(position := i);
    IndexOfDistinct(order, i);
    assert cur[k] == es[k];
    RankedKeysSorted(es, order, i);
    PutExisting(cur, k, st);
    KeysSortedDistinct(es);
    forall j | 0 <= j < |es| ensures next[j] == cur[k := Entry(order[i], st)][j] {
      if j != k {
        assert Keys(es)[j] != Keys(es)[k];
      }
    }
  }

  /** The same round when no entry is named `order[i]`: nothing changes. */
  lemma RankedStepAbsent(es: seq<Entry>, order: seq<string>, i: nat)
    requires Distinct(order) && i < |order| && order[i] !in Keys(es)
    ensures Lookup(Ranked(es, order, i), order[i]) == None
    ensures Ranked(es, order, i + 1) == Ranked(es, order, i)
  {
    var cur := Ranked(es, order, i);
    var next := Ranked(es, order, i + 1);
    IndexOfDistinct(order, i);
    assert Keys(cur) == Keys(es);
    LookupAbsent(cur, order[i]);
    forall j | 0 <= j < |es| ensures next[j] == cur[j] {
      assert Keys(es)[j] != order[i];
    }
  }

  /** One round of a loop that writes positions from `order`: the entry named
      `order[i]`, when there is one, still holds its original state and is given
      position `i` by assigning into the map; no entry, no change. */
  lemma RankedStep(es: seq<Entry>, order: seq<string>, i: nat)
    requires KeysSorted(es) && Distinct(order) && i < |order|
    ensures var cur := Ranked(es, order, i);
      var st := Lookup(cur, order[i]);
      (st.None? ==> Ranked(es, order, i + 1) == cur) &&
      (st.Some? ==> st == Lookup(es, order[i]) &&
                    Put(cur, order[i], st.value.(position := i)) == Ranked(es, order, i + 1))
  {
    if order[i] in Keys(es) {
      var k := IndexOf(Keys(es), order[i]);
      RankedStepLookup(es, order, i, k);
      RankedStepPut(es, order, i, k);
    } else {
      RankedStepAbsent(es, order, i);
    }
  }

  /** Assigning an entry the state it already holds changes nothing. */
  lemma PutSame(es: seq<Entry>, name: string, st: EffectState)
    requires KeysSorted(es) && Lookup(es, name) == Some(st)
    ensures Put(es, name, st) == es
  {
    if name !in Keys(es) {
      LookupAbsent(es, name);
    }
    var k := IndexOf(Keys(es), name);
    LookupAt(es, k);
    PutExisting(es, k, st);
  }

  /** After positions are written from a list of distinct button names, every key
      that names a button holds its button's index and every other key is as it was. */
  lemma ButtonEntriesMatchButtons(es: seq<Entry>, buttons: seq<string>)
    requires KeysSorted(es) && Distinct(buttons)
    ensures forall i :: 0 <= i < |buttons| && Lookup(es, buttons[i]).Some? ==>
      Lookup(Ranked(es, buttons, |buttons|), buttons[i]) == Some(Lookup(es, buttons[i]).value.(position := i))
    ensures forall name :: name !in buttons ==> Lookup(Ranked(es, buttons, |buttons|), name) == Lookup(es, name)
  {
    var r := Ranked(es, buttons, |buttons|);
    RankedKeysSorted(es, buttons, |buttons|);
    KeysSortedDistinct(es);
    assert Keys(r) == Keys(es);
    forall i | 0 <= i < |buttons| && Lookup(es, buttons[i]).Some?
      ensures Lookup(r, buttons[i]) == Some(Lookup(es, buttons[i]).value.(position := i))
    {
      if buttons[i] !in Keys(es) {
        LookupAbsent(es, buttons[i]);
      }
      var k := IndexOf(Keys(es), buttons[i]);
      LookupAt(es, k);
      LookupAt(r, k);
      IndexOfDistinct(buttons, i);
    }
    forall name | name !in buttons ensures Lookup(r, name) == Lookup(es, name) {
      if name in Keys(es) {
        var k := IndexOf(Keys(es), name);
        LookupAt(es, k);
        LookupAt(r, k);
      } else {
        LookupAbsent(es, name);
        LookupAbsent(r, name);
      }
    }
  }

  // ---------------------------------------------------------------------------
  // normalizePositions

  /** The enabled entries in key order: what the first pass of `normalizePositions`
      collects. */
  function EnabledEntries(es: seq<Entry>): (r: seq<Entry>)
    ensures |r| <= |es|
    decreases |es|
  {
    if es == [] then []
    else
      var e := es[|es| - 1];
      EnabledEntries(es[..|es| - 1]) + (if e.state.isEnabled then [e] else [])
  }

  lemma {:induction false} EnabledEntriesSubseq(es: seq<Entry>)
    ensures Subseq(EnabledEntries(es), es)
    decreases |es|
  {
    if es != [] {
      var init := es[..|es| - 1];
      EnabledEntriesSubseq(init);
      var a := EnabledEntries(es);
      if es[|es| - 1].state.isEnabled {
        assert a == EnabledEntries(init) + [es[|es| - 1]];
        assert a[..|a| - 1] == EnabledEntries(init);
      } else {
        assert a == EnabledEntries(init);
      }
    }
  }

  /** The first pass keeps exactly the enabled entries. */
  lemma {:induction false} EnabledEntriesMembers(es: seq<Entry>)
    ensures forall e :: e in EnabledEntries(es) <==> e in es && e.state.isEnabled
    decreases |es|
  {
    if es != [] {
      var init := es[..|es| - 1];
      EnabledEntriesMembers(init);
      assert es == init + [es[|es| - 1]];
    }
  }

  /** The positions are 0, 1, 2, ... in order: the first pass finds nothing to do. */
  predicate Consecutive(s: seq<Entry>) {
    forall k :: 0 <= k < |s| ==> s[k].state.position == k
  }

  /** The first pass's gap test, one enabled entry at a time: after a run 0 .. n-1
      the next entry keeps the run going exactly when its position is n ... */
  lemma ConsecutiveStep(before: seq<Entry>, e: Entry)
    requires Consecutive(before)
    ensures Consecutive(before + [e]) <==> e.state.position == |before|
  {
    var after := before + [e];
    assert after[|before|] == e;
    assert forall k :: 0 <= k < |before| ==> after[k] == before[k];
  }

  /** ... and once a gap has been seen, it stays. */
  lemma GapPersists(before: seq<Entry>, e: Entry)
    requires !Consecutive(before)
    ensures !Consecutive(before + [e])
  {
    var k :| 0 <= k < |before| && before[k].state.position != k;
    assert (before + [e])[k] == before[k];
  }

  /** The first pass's flag and last position agree with the enabled entries seen
      so far: the flag is set exactly when they do not read 0, 1, 2, ..., and
      otherwise the last position is the last index. */
  ghost predicate TracksGap(enabled: seq<Entry>, needsNormalization: bool, lastPosition: int) {
    (needsNormalization ==> !Consecutive(enabled)) &&
    (!needsNormalization ==> Consecutive(enabled) && lastPosition == |enabled| - 1)
  }

  /** One enabled entry more keeps the first pass's flag in step. */
  lemma GapStep(enabled: seq<Entry>, e: Entry, needsNormalization: bool, lastPosition: int)
    requires TracksGap(enabled, needsNormalization, lastPosition)
    ensures TracksGap(enabled + [e], needsNormalization || e.state.position != lastPosition + 1,
      e.state.position)
  {
    if needsNormalization {
      GapPersists(enabled, e);
    } else {
      ConsecutiveStep(enabled, e);
    }
  }

  /** The first pass visits one more entry. */
  lemma EnabledEntriesStep(es: seq<Entry>, i: nat)
    requires i < |es|
    ensures EnabledEntries(es[..i + 1]) ==
      EnabledEntries(es[..i]) + (if es[i].state.isEnabled then [es[i]] else [])
  {
    assert es[..i + 1][..i] == es[..i];
  }

  /** The enabled entries sorted by their position (ties in key order; the
      source's `std::sort` leaves their order open). */
  function Ranking(es: seq<Entry>): seq<Entry> {
    SortByKey(EnabledEntries(es), EntryPosition)
  }

  /** The ranking holds enabled entries of the map, sorted by position. */
  lemma RankingMembers(es: seq<Entry>)
    ensures var rk := Ranking(es);
      |rk| == |EnabledEntries(es)| && SortedBy(rk, EntryPosition) &&
      forall r :: 0 <= r < |rk| ==> rk[r] in es && rk[r].state.isEnabled
  {
    var rk := Ranking(es);
    var en := EnabledEntries(es);
    EnabledEntriesMembers(es);
    forall r | 0 <= r < |rk| ensures rk[r] in es && rk[r].state.isEnabled {
      assert rk[r] in multiset(en);
    }
  }

  /** No name occurs twice in the ranking. */
  lemma RankingDistinct(es: seq<Entry>)
    requires KeysSorted(es)
    ensures Distinct(Ranking(es)) && Distinct(Keys(Ranking(es)))
  {
    var rk := Ranking(es);
    var en := EnabledEntries(es);
    KeysSortedDistinct(es);
    EnabledEntriesSubseq(es);
    SubseqOfDistinct(en, es);
    PermutationOfDistinct(rk, en);
    RankingMembers(es);
    forall a, b | 0 <= a < b < |rk| ensures Keys(rk)[a] != Keys(rk)[b] {
      var ja :| 0 <= ja < |es| && es[ja] == rk[a];
      var jb :| 0 <= jb < |es| && es[jb] == rk[b];
      assert ja != jb;
      assert Keys(es)[ja] != Keys(es)[jb];
    }
  }

  /** An enabled entry is ranked. */
  lemma EnabledEntryIsRanked(es: seq<Entry>, j: nat)
    requires j < |es| && es[j].state.isEnabled
    ensures es[j].name in Keys(Ranking(es))
  {
    var rk := Ranking(es);
    EnabledEntriesMembers(es);
    assert es[j] in EnabledEntries(es);
    assert es[j] in multiset(rk);
    var r :| 0 <= r < |rk| && rk[r] == es[j];
    assert Keys(rk)[r] == es[j].name;
  }

  /** A ranked name's rank points back at the entry of that name. */
  lemma RankedNameIsEntry(es: seq<Entry>, j: nat)
    requires KeysSorted(es) && j < |es| && es[j].name in Keys(Ranking(es))
    ensures Ranking(es)[IndexOf(Keys(Ranking(es)), es[j].name)] == es[j]
  {
    var rk := Ranking(es);
    RankingMembers(es);
    KeysSortedDistinct(es);
    var r := IndexOf(Keys(rk), es[j].name);
    assert 0 <= r < |rk| && rk[r].name == es[j].name;
    var jr := IndexOf(es, rk[r]);
    assert Keys(es)[jr] == Keys(es)[j];
    assert jr == j;
  }

  /** An entry's name is ranked exactly when the entry is enabled, and its rank
      points back at the entry. */
  lemma RankingOfEntry(es: seq<Entry>, j: nat)
    requires KeysSorted(es) && j < |es|
    ensures var rk := Ranking(es);
      (es[j].name in Keys(rk) <==> es[j].state.isEnabled) &&
      (es[j].state.isEnabled ==> rk[IndexOf(Keys(rk), es[j].name)] == es[j])
  {
    var rk := Ranking(es);
    if es[j].state.isEnabled {
      EnabledEntryIsRanked(es, j);
    }
    if es[j].name in Keys(rk) {
      RankedNameIsEntry(es, j);
      RankingMembers(es);
      assert rk[IndexOf(Keys(rk), es[j].name)].state.isEnabled;
    }
  }

  /** The map after `normalizePositions`: each enabled entry gets its rank by
      previous position; disabled entries keep theirs. */
  function Normalized(es: seq<Entry>): seq<Entry> {
    var rk := Ranking(es);
    Ranked(es, Keys(rk), |rk|)
  }

  /** What normalisation does to one entry: a disabled entry is left alone, an
      enabled one keeps everything but its position, which becomes its rank. */
  lemma NormalizedAt(es: seq<Entry>, j: nat)
    requires KeysSorted(es) && j < |es|
    ensures var rk := Ranking(es);
      var n := Normalized(es);
      var r := IndexOf(Keys(rk), es[j].name);
      |n| == |es| && n[j].name == es[j].name && n[j].state.isEnabled == es[j].state.isEnabled &&
      (!es[j].state.isEnabled ==> n[j] == es[j]) &&
      (es[j].state.isEnabled ==> 0 <= r < |rk| && rk[r] == es[j] && n[j].state == es[j].state.(position := r))
  {
    RankingOfEntry(es, j);
  }

  /** Normalisation keeps the keys, their order and every flag, and leaves the
      disabled entries as they were. */
  lemma NormalizedKeepsEntries(es: seq<Entry>)
    requires KeysSorted(es)
    ensures var n := Normalized(es);
      |n| == |es| && KeysSorted(n) &&
      (forall j :: 0 <= j < |es| ==> n[j].name == es[j].name && n[j].state.isEnabled == es[j].state.isEnabled) &&
      (forall j :: 0 <= j < |es| && !es[j].state.isEnabled ==> n[j] == es[j])
  {
    var rk := Ranking(es);
    RankedKeysSorted(es, Keys(rk), |rk|);
    forall j | 0 <= j < |es| && !es[j].state.isEnabled ensures Normalized(es)[j] == es[j] {
      NormalizedAt(es, j);
    }
  }

  /** After normalisation the k enabled entries hold the positions 0 .. k-1, one each. */
  lemma NormalizedIsContiguous(es: seq<Entry>)
    requires KeysSorted(es)
    ensures var n := Normalized(es);
      |n| == |es| &&
      (forall j :: 0 <= j < |es| && es[j].state.isEnabled ==> 0 <= n[j].state.position < |EnabledEntries(es)|) &&
      (forall p :: 0 <= p < |EnabledEntries(es)| ==> Used(n, p)) &&
      (forall j1, j2 :: 0 <= j1 < j2 < |es| && es[j1].state.isEnabled && es[j2].state.isEnabled ==>
         n[j1].state.position != n[j2].state.position)
  {
    var rk := Ranking(es);
    var n := Normalized(es);
    RankingMembers(es);
    RankingDistinct(es);
    KeysSortedDistinct(es);
    forall j | 0 <= j < |es| && es[j].state.isEnabled ensures 0 <= n[j].state.position < |rk| {
      NormalizedAt(es, j);
    }
    forall p | 0 <= p < |rk| ensures Used(n, p) {
      var j :| 0 <= j < |es| && es[j] == rk[p];
      NormalizedAt(es, j);
      IndexOfDistinct(Keys(rk), p);
      assert n[j].state.isEnabled && n[j].state.position == p;
    }
    forall j1, j2 | 0 <= j1 < j2 < |es| && es[j1].state.isEnabled && es[j2].state.isEnabled
      ensures n[j1].state.position != n[j2].state.position
    {
      NormalizedAt(es, j1);
      NormalizedAt(es, j2);
      assert Keys(es)[j1] != Keys(es)[j2];
    }
  }

  /** Normalisation keeps the order of the enabled entries: one that was before
      another is still before it. */
  lemma NormalizedKeepsOrder(es: seq<Entry>)
    requires KeysSorted(es)
    ensures var n := Normalized(es);
      forall j1, j2 :: (0 <= j1 < |es| && 0 <= j2 < |es| && es[j1].state.isEnabled && es[j2].state.isEnabled &&
                        es[j1].state.position < es[j2].state.position) ==>
        n[j1].state.position < n[j2].state.position
  {
    var n := Normalized(es);
    var rk := Ranking(es);
    RankingMembers(es);
    forall j1, j2 | 0 <= j1 < |es| && 0 <= j2 < |es| && es[j1].state.isEnabled && es[j2].state.isEnabled &&
        es[j1].state.position < es[j2].state.position
      ensures n[j1].state.position < n[j2].state.position
    {
      NormalizedAt(es, j1);
      NormalizedAt(es, j2);
      RankFollowsPosition(rk, IndexOf(Keys(rk), es[j1].name), IndexOf(Keys(rk), es[j2].name));
    }
  }

  /** In a list ordered by position, a smaller position comes at a smaller rank. */
  lemma RankFollowsPosition(rk: seq<Entry>, a: nat, b: nat)
    requires SortedBy(rk, EntryPosition) && a < |rk| && b < |rk|
    requires rk[a].state.position < rk[b].state.position
    ensures a < b
  {
  }

  /** When the enabled positions already run 0, 1, 2, ... in key order the
      normalisation would change nothing, so the early return loses nothing. */
  lemma {:induction false} ConsecutiveIsNormalized(es: seq<Entry>)
    requires KeysSorted(es) && Consecutive(EnabledEntries(es))
    ensures Normalized(es) == es
  {
    var en := EnabledEntries(es);
    assert SortedBy(en, EntryPosition);
    SortedIsFixpoint(en, EntryPosition);
    var rk := Ranking(es);
    assert rk == en;
    var n := Normalized(es);
    forall j | 0 <= j < |es| ensures n[j] == es[j] {
      NormalizedAt(es, j);
    }
  }

  /** One round of the second pass of `normalizePositions`: the entry at rank `i`
      still holds its original state, and giving it position `i` yields the next
      round's map. */
  lemma RankingStep(es: seq<Entry>, i: nat)
    requires KeysSorted(es) && i < |Ranking(es)|
    ensures var rk := Ranking(es);
      var cur := Ranked(es, Keys(rk), i);
      KeysSorted(cur) && Lookup(cur, rk[i].name) == Some(rk[i].state) &&
      Put(cur, rk[i].name, rk[i].state.(position := i)) == Ranked(es, Keys(rk), i + 1) &&
      (rk[i].state.position == i ==> cur == Ranked(es, Keys(rk), i + 1))
  {
    var rk := Ranking(es);
    RankedKeysSorted(es, Keys(rk), i);
    RankingMembers(es);
    RankingDistinct(es);
    var k :| 0 <= k < |es| && es[k] == rk[i];
    assert Keys(rk)[i] == es[k].name;
    RankedStepLookup(es, Keys(rk), i, k);
    RankedStepPut(es, Keys(rk), i, k);
    if rk[i].state.position == i {
      assert rk[i].state.(position := i) == rk[i].state;
      PutSame(Ranked(es, Keys(rk), i), rk[i].name, rk[i].state);
    }
  }

  /** The notices of the notification loop as intended: one per enabled entry whose
      position changed, from the old position to the new. */
  function MoveNotices(rk: seq<Entry>): (r: seq<Notice>)
    ensures forall i :: 0 <= i < |rk| && rk[i].state.position != i ==> Reordered(rk[i].state.position, i) in r
    ensures forall x :: x in r ==>
      exists i :: 0 <= i < |rk| && rk[i].state.position != i && x == Reordered(rk[i].state.position, i)
    decreases |rk|
  {
    if rk == [] then []
    else
      var i := |rk| - 1;
      var init := rk[..i];
      assert forall k :: 0 <= k < i ==> init[k] == rk[k];
      MoveNotices(init) + (if rk[i].state.position != i then [Reordered(rk[i].state.position, i)] else [])
  }

  /** The notification loop as written: it reads each entry's old position back from
      the map after the map has been updated (a missing key would read as the
      default state, position -1). */
  function MoveNoticesAsWritten(after: seq<Entry>, rk: seq<Entry>): seq<Notice>
    decreases |rk|
  {
    if rk == [] then []
    else
      var i := |rk| - 1;
      var oldPosition := Lookup(after, rk[i].name).GetOr(EffectState(false, -1)).position;
      MoveNoticesAsWritten(after, rk[..i]) + (if oldPosition != i then [Reordered(oldPosition, i)] else [])
  }

  /** After normalisation the map holds, for the entry at rank `i`, position `i`. */
  lemma ReadBackIsRank(es: seq<Entry>, i: nat)
    requires KeysSorted(es) && i < |Ranking(es)|
    ensures var found := Lookup(Normalized(es), Ranking(es)[i].name);
      found.Some? && found.value.position == i
  {
    var rk := Ranking(es);
    var n := Normalized(es);
    RankingMembers(es);
    RankingDistinct(es);
    RankedKeysSorted(es, Keys(rk), |rk|);
    var j :| 0 <= j < |es| && es[j] == rk[i];
    NormalizedAt(es, j);
    LookupAt(n, j);
    IndexOfDistinct(Keys(rk), i);
    assert n[j].state.position == i;
  }

  lemma {:induction false} AsWrittenPrefixIsSilent(es: seq<Entry>, m: nat)
    requires KeysSorted(es) && m <= |Ranking(es)|
    ensures MoveNoticesAsWritten(Normalized(es), Ranking(es)[..m]) == []
    decreases m
  {
    if m > 0 {
      var pre := Ranking(es)[..m];
      assert pre[..m - 1] == Ranking(es)[..m - 1];
      AsWrittenPrefixIsSilent(es, m - 1);
      ReadBackIsRank(es, m - 1);
    }
  }

  /** The loop as written never sends a notice: whatever moved, the position it
      reads back is already the new one. */
  lemma AsWrittenNeverNotifies(es: seq<Entry>)
    requires KeysSorted(es)
    ensures MoveNoticesAsWritten(Normalized(es), Ranking(es)) == []
  {
    AsWrittenPrefixIsSilent(es, |Ranking(es)|);
    assert Ranking(es)[..|Ranking(es)|] == Ranking(es);
  }

  /** The intended notices report exactly the moves: every enabled entry whose
      position changed gets a notice from its old to its new position. */
  lemma MoveNoticesReportMoves(es: seq<Entry>)
    requires KeysSorted(es)
    ensures var n := Normalized(es);
      forall j :: 0 <= j < |es| && n[j].state.position != es[j].state.position ==>
        Reordered(es[j].state.position, n[j].state.position) in MoveNotices(Ranking(es))
  {
    var rk := Ranking(es);
    var n := Normalized(es);
    forall j | 0 <= j < |es| && n[j].state.position != es[j].state.position
      ensures Reordered(es[j].state.position, n[j].state.position) in MoveNotices(rk)
    {
      NormalizedAt(es, j);
    }
  }

  /** Whenever normalisation moves an enabled entry, the intended loop reports a
      move and the loop as written reports nothing. */
  lemma MovesGoUnreported(es: seq<Entry>)
    requires KeysSorted(es) && !Consecutive(Ranking(es))
    ensures MoveNotices(Ranking(es)) != []
    ensures MoveNoticesAsWritten(Normalized(es), Ranking(es)) == []
  {
    var rk := Ranking(es);
    var k :| 0 <= k < |rk| && rk[k].state.position != k;
    assert Reordered(rk[k].state.position, k) in MoveNotices(rk);
    AsWrittenNeverNotifies(es);
  }

  /** A single enabled effect at position 1, with a gap below it. */
  function GapExample(name: string): seq<Entry> {
    [Entry(name, EffectState(true, 1))]
  }

  /** Whatever its name, that effect is one normalisation moves, so its move goes
      unreported by the loop as written. */
  lemma GapGoesUnreported(name: string)
    ensures !Consecutive(Ranking(GapExample(name)))
    ensures MoveNotices(Ranking(GapExample(name))) != []
    ensures MoveNoticesAsWritten(Normalized(GapExample(name)), Ranking(GapExample(name))) == []
  {
    var es := GapExample(name);
    assert es[..0] == [];
    assert EnabledEntries(es[..0]) == [];
    assert Ranking(es) == es;
    MovesGoUnreported(es);
  }

  /** The rack after the loop of `normalizePositions`: each entry whose rank differs
      from its old position is re-positioned in the rack by name, in rank order. */
  function RackReorders(rs: seq<EffectNode>, rk: seq<Entry>, n: nat): seq<EffectNode>
    requires n <= |rk|
    decreases n
  {
    if n == 0 then rs
    else
      var prev := RackReorders(rs, rk, n - 1);
      if rk[n - 1].state.position != n - 1 then Reposition(prev, rk[n - 1].name, n - 1) else prev
  }

  lemma RackReordersStep(rs: seq<EffectNode>, rk: seq<Entry>, n: nat)
    requires n < |rk|
    ensures RackReorders(rs, rk, n + 1) ==
      if rk[n].state.position != n then Reposition(RackReorders(rs, rk, n), rk[n].name, n)
      else RackReorders(rs, rk, n)
  {
  }

  // ---------------------------------------------------------------------------
  // The rack operations the toolbar performs by name

  /** `findEffectPosition(name)`, then `setEffectOrder` on the index found (which
      re-orders the rack); nothing changes when no rack entry has that name. */
  function Reposition(es: seq<EffectNode>, name: string, p: int): seq<EffectNode> {
    var idx := IndexOf(Names(es), name);
    if idx < 0 then es else WithOrder(es, idx, p)
  }

  /** `findEffectPosition(name)`, then `setEffectActive(index, false)`. */
  function Deactivated(acc: Oracle, es: seq<EffectNode>, name: string): seq<EffectNode> {
    var idx := IndexOf(Names(es), name);
    if idx < 0 then es else Toggled(acc, es, idx, false)
  }

  /** As written, Distortion, Chorus and EQ join the rack under the plugin's own
      name, so the look-up by display name that follows finds nothing and the new
      processor is never moved to the slot its state records. */
  lemma AsWrittenAddIsNotPlaced(es: seq<EffectNode>, node: nat, kind: EffectKind, pluginName: string, p: int)
    requires kind == Distortion || kind == Chorus || kind == Equalizer
    requires pluginName != DisplayName(kind) && DisplayName(kind) !in Names(es)
    ensures var added := Added(es, node, kind, ReportedNameAsWritten(kind, pluginName));
      IndexOf(Names(added), DisplayName(kind)) == -1 &&
      Reposition(added, DisplayName(kind), p) == added
  {
    AddedNames(es, node, kind, ReportedNameAsWritten(kind, pluginName), DisplayName(kind));
  }

  /** With every processor reporting its display name, the look-up after adding
      always finds an entry of that name, and the rack is re-ordered around it. */
  lemma CorrectedAddIsPlaced(es: seq<EffectNode>, node: nat, kind: EffectKind, p: int)
    ensures var added := Added(es, node, kind, ReportedName(kind));
      var idx := IndexOf(Names(added), DisplayName(kind));
      0 <= idx < |added| && added[idx].name == DisplayName(kind) &&
      Reposition(added, DisplayName(kind), p) == WithOrder(added, idx, p)
  {
    AddedNames(es, node, kind, ReportedName(kind), DisplayName(kind));
  }

  /** The buttons whose "on" handler brings back a disabled entry instead of adding
      a new effect: Reverb, Chorus and EQ (Delay and Distortion always add one). */
  predicate Reenables(kind: EffectKind) {
    kind == Reverb || kind == Chorus || kind == Equalizer
  }

  /** C++ integer division, which truncates toward zero. */
  function TruncDiv(a: int, b: int): int
    requires b > 0
  {
    if a >= 0 then a / b else -((-a) / b)
  }

  lemma TruncDivMonotone(a1: int, a2: int, b: int)
    requires a1 <= a2 && b > 0
    ensures TruncDiv(a1, b) <= TruncDiv(a2, b)
  {
    if a1 >= 0 {
      DivMonotone(a1, a2, b);
    } else if a2 >= 0 {
      assert -((-a1) / b) <= 0 <= a2 / b;
    } else {
      DivMonotone(-a2, -a1, b);
    }
  }

  lemma DivMonotone(a1: int, a2: int, b: int)
    requires 0 <= a1 <= a2 && b > 0
    ensures a1 / b <= a2 / b
  {
    var q1, q2 := a1 / b, a2 / b;
    assert a1 == b * q1 + a1 % b && a2 == b * q2 + a2 % b;
    MulMonotone(b, q2 + 1, q1);
  }

  lemma MulMonotone(b: int, x: int, y: int)
    requires b >= 0
    ensures x <= y ==> b * x <= b * y
  {
    assert b * y - b * x == b * (y - x);
  }

  function Clamp(lower: int, upper: int, value: int): int {
    if value < lower then lower else if upper < value then upper else value
  }

  /** A button's height for a toolbar `width` wide: 15% of the width, truncated,
      but at least 60. */
  function ButtonHeight(width: int): (h: int)
    ensures h >= 60 && h >= TruncDiv(width * 15, 100)
  {
    if TruncDiv(width * 15, 100) < 60 then 60 else TruncDiv(width * 15, 100)
  }

  /** The gap between buttons: 20% of the button height, truncated. */
  function Spacing(h: int): (s: int)
    requires h >= 0
    ensures 0 <= s <= h
  {
    (h * 2) / 10
  }

  /** What the toolbar tells the editor: a panel shown or hidden, or a panel moved
      from one slot to another (-1 as the old slot means a new panel). */
  datatype Notice = VisibilityChanged(name: string, visible: bool) | Reordered(oldPosition: int, newPosition: int)

  /** The toolbar's vertical margin above the first button. */
  const ButtonMargin: int := 20

  /** The button labels in the order the constructor creates them. */
  const InitialButtons: seq<string> :=
    [DisplayName(Delay), DisplayName(Distortion), DisplayName(Reverb), DisplayName(Chorus), DisplayName(Equalizer)]

  /** The notification loop of `normalizePositions` as evidently intended: each
      entry's old position is read from the collected list, taken before the map
      was updated. */
  method ReportMoves(sorted: seq<Entry>) returns (notices: seq<Notice>)
    ensures notices == MoveNotices(sorted)
  {
    notices := [];
    var i := 0;
    while i < |sorted|
      invariant 0 <= i <= |sorted|
      invariant notices == MoveNotices(sorted[..i])
    {
      assert sorted[..i + 1][..i] == sorted[..i];
      var oldPosition := sorted[i].state.position;
      if oldPosition != i {
        notices := notices + [Reordered(oldPosition, i)];
      }
      i := i + 1;
    }
    assert sorted[..i] == sorted;
  }

  class ToolbarComponent {
    const rack: EffectRack
    /** `JucePlugin_Name`, which Distortion, Chorus and Equalizer report as their name. */
    const pluginName: string
    var effectStates: seq<Entry>
    /** The buttons, identified by the effect name each one carries. */
    var effectButtons: seq<string>
    var width: int

    ghost predicate Valid()
      reads this, rack
    {
      rack.Valid() && KeysSorted(effectStates) && Distinct(effectButtons)
    }

    constructor(rack: EffectRack, pluginName: string)
      requires rack.Valid()
      ensures this.rack == rack && this.pluginName == pluginName && Valid()
      ensures effectStates == [] && effectButtons == InitialButtons && width == 200
    {
      this.rack := rack;
      this.pluginName := pluginName;
      effectStates := [];
      effectButtons := InitialButtons;
      width := 200;
    }

    /** `findNextAvailablePosition`: the smallest non-negative position that no
        enabled entry holds; 0 when no entry is enabled. */
    method FindNextAvailablePosition() returns (p: int)
      ensures p >= 0 && !Used(effectStates, p)
      ensures forall q :: 0 <= q < p ==> Used(effectStates, q)
      ensures p == SmallestFree(effectStates)
    {
      var es := effectStates;
      var maxPosition := -1;
      var i := 0;
      while i < |es|
        invariant 0 <= i <= |es|
        invariant maxPosition == MaxEnabled(es[..i])
      {
        assert es[..i + 1][..i] == es[..i];
        var st := es[i].state;
        if st.isEnabled && st.position > maxPosition {
          maxPosition := st.position;
        }
        i := i + 1;
      }
      assert es[..i] == es;
      if maxPosition == -1 {
        return 0;
      }
      var positions := new bool[maxPosition + 1](_ => false);
      i := 0;
      while i < |es|
        invariant 0 <= i <= |es|
        invariant forall q :: 0 <= q < positions.Length ==> (positions[q] <==> Used(es[..i], q))
      {
        var st := es[i].state;
        if st.isEnabled && st.position >= 0 {
          positions[st.position] := true;
        }
        forall q | 0 <= q < positions.Length
          ensures Used(es[..i + 1], q) <==> Used(es[..i], q) || (st.isEnabled && st.position == q)
        {
          if Used(es[..i + 1], q) {
            var j :| 0 <= j < i + 1 && es[..i + 1][j].state.isEnabled && es[..i + 1][j].state.position == q;
            if j < i {
              assert es[..i][j] == es[j];
            }
          }
          if Used(es[..i], q) {
            var j :| 0 <= j < i && es[..i][j].state.isEnabled && es[..i][j].state.position == q;
            assert es[..i + 1][j] == es[j];
          }
          if st.isEnabled && st.position == q {
            assert es[..i + 1][i] == es[i];
          }
        }
        i := i + 1;
      }
      assert es[..i] == es;
      var k := 0;
      while k < positions.Length
        invariant 0 <= k <= positions.Length
        invariant forall q :: 0 <= q < k ==> Used(es, q)
      {
        if !positions[k] {
          ghost var s := SmallestFree(es);
          assert s < k ==> Used(es, s);
          return k;
        }
        k := k + 1;
      }
      ghost var s := SmallestFree(es);
      assert s <= maxPosition ==> Used(es, s);
      return maxPosition + 1;
    }

    /** `findEffectPosition(name)`, then `setEffectOrder` on the index found. */
    method RepositionInRack(name: string, p: int) returns (found: bool)
      requires rack.Valid()
      modifies rack`effects, rack`graphUpdatePending
      ensures rack.Valid() && rack.effects == Reposition(old(rack.effects), name, p)
      ensures found <==> name in Names(old(rack.effects))
      ensures rack.graphUpdatePending == (old(rack.graphUpdatePending) || found)
    {
      var index := rack.FindEffectPosition(name);
      found := index >= 0;
      if found {
        rack.SetEffectOrder(index, p);
      }
    }

    /** `findEffectPosition(name)`, then `setEffectOrder` and `updateEffectOrder` on
        the index found: the second re-order finds the entries already in order, so
        the outcome is the one of `RepositionInRack`. */
    method MoveInRack(name: string, p: int) returns (found: bool)
      requires rack.Valid()
      modifies rack`effects, rack`graphUpdatePending
      ensures rack.Valid() && rack.effects == Reposition(old(rack.effects), name, p)
      ensures found <==> name in Names(old(rack.effects))
      ensures rack.graphUpdatePending == (old(rack.graphUpdatePending) || found)
    {
      found := RepositionInRack(name, p);
      if found {
        ghost var index := IndexOf(Names(old(rack.effects)), name);
        OrderedIdempotent(old(rack.effects)[index := old(rack.effects)[index].(position := p)]);
        rack.UpdateEffectOrder();
      }
    }

    /** `saveEffectState`: an enabled entry of that name is left alone and nothing
        is reported; otherwise the entry is (re)written as enabled at `position`,
        the rack entry of that name moves to `position`, and a new panel at
        `position` is reported. */
    method SaveEffectState(name: string, position: int) returns (notices: seq<Notice>)
      requires Valid()
      modifies this`effectStates, rack`effects, rack`graphUpdatePending
      ensures Valid()
      ensures var cur := Lookup(old(effectStates), name);
        if cur.Some? && cur.value.isEnabled then
          effectStates == old(effectStates) && rack.effects == old(rack.effects) &&
          rack.graphUpdatePending == old(rack.graphUpdatePending) && notices == []
        else
          effectStates == Put(old(effectStates), name, EffectState(true, position)) &&
          rack.effects == Reposition(old(rack.effects), name, position) &&
          rack.graphUpdatePending == (old(rack.graphUpdatePending) || name in Names(old(rack.effects))) &&
          notices == [Reordered(-1, position)]
      ensures Lookup(effectStates, name).Some? && Lookup(effectStates, name).value.isEnabled
    {
      var cur := Lookup(effectStates, name);
      if cur.Some? && cur.value.isEnabled {
        return [];
      }
      PutKeepsOrder(effectStates, name, EffectState(true, position));
      PutFinds(effectStates, name, EffectState(true, position));
      effectStates := Put(effectStates, name, EffectState(true, position));
      ghost var placed := Reposition(rack.effects, name, position);
      var found := MoveInRack(name, position);
      notices := [Reordered(-1, position)];
    }

    /** A button's "on" handler. Reverb, Chorus and EQ bring back a disabled entry
        as it was, without touching the rack. Otherwise (and always for Delay and
        Distortion) a new processor is added to the rack under the name it reports,
        and its state is saved at the smallest free slot; an entry that is already
        enabled keeps its state, although the rack still gains the new processor. */
    method TurnOn(kind: EffectKind) returns (notices: seq<Notice>)
      requires Valid()
      modifies this`effectStates, rack`effects, rack`graphNodes, rack`nextNode, rack`graphUpdatePending
      ensures Valid()
      ensures var name := DisplayName(kind);
        var cur := Lookup(old(effectStates), name);
        if Reenables(kind) && cur.Some? && !cur.value.isEnabled then
          effectStates == Put(old(effectStates), name, cur.value.(isEnabled := true)) &&
          rack.effects == old(rack.effects) && rack.nextNode == old(rack.nextNode) &&
          rack.graphNodes == old(rack.graphNodes) &&
          rack.graphUpdatePending == old(rack.graphUpdatePending) &&
          notices == [VisibilityChanged(name, true)]
        else
          var added := Added(old(rack.effects), old(rack.nextNode), kind, ReportedNameAsWritten(kind, pluginName));
          var p := SmallestFree(old(effectStates));
          rack.nextNode == old(rack.nextNode) + 1 &&
          rack.graphNodes == old(rack.graphNodes) + {old(rack.nextNode)} && rack.graphUpdatePending &&
          if cur.Some? && cur.value.isEnabled then
            effectStates == old(effectStates) && rack.effects == added &&
            notices == [VisibilityChanged(name, true)]
          else
            effectStates == Put(old(effectStates), name, EffectState(true, p)) &&
            rack.effects == Reposition(added, name, p) &&
            notices == [Reordered(-1, p), VisibilityChanged(name, true)]
      ensures Lookup(effectStates, DisplayName(kind)).Some? && Lookup(effectStates, DisplayName(kind)).value.isEnabled
    {
      var name := DisplayName(kind);
      var cur := Lookup(effectStates, name);
      if Reenables(kind) && cur.Some? && !cur.value.isEnabled {
        PutKeepsOrder(effectStates, name, cur.value.(isEnabled := true));
        PutFinds(effectStates, name, cur.value.(isEnabled := true));
        effectStates := Put(effectStates, name, cur.value.(isEnabled := true));
        notices := [VisibilityChanged(name, true)];
      } else {
        var position := FindNextAvailablePosition();
        rack.AddEffect(Some(Processor(kind, ReportedNameAsWritten(kind, pluginName))));
        var saved := SaveEffectState(name, position);
        notices := saved + [VisibilityChanged(name, true)];
      }
    }

    /** A button's "off" handler. Without an entry of that name nothing happens.
        Otherwise the entry is marked disabled and the panel reported hidden; only
        for Delay is the rack entry of that name also switched off (and the
        connections rebuilt), the other effects keep processing in the rack. */
    method TurnOff(kind: EffectKind) returns (notices: seq<Notice>)
      requires Valid()
      modifies this`effectStates, rack`effects, rack`connections
      ensures Valid()
      ensures var name := DisplayName(kind);
        var cur := Lookup(old(effectStates), name);
        if cur.None? then
          effectStates == old(effectStates) && rack.effects == old(rack.effects) &&
          rack.connections == old(rack.connections) && notices == []
        else
          effectStates == Put(old(effectStates), name, cur.value.(isEnabled := false)) &&
          notices == [VisibilityChanged(name, false)] &&
          if kind == Delay && name in Names(old(rack.effects)) then
            rack.effects == Deactivated(rack.Acceptance(), old(rack.effects), name) &&
            rack.connections == Rebuilt(rack.Acceptance(), rack.effects).added
          else
            rack.effects == old(rack.effects) && rack.connections == old(rack.connections)
      ensures Lookup(effectStates, DisplayName(kind)).Some? ==> !Lookup(effectStates, DisplayName(kind)).value.isEnabled
    {
      var name := DisplayName(kind);
      var cur := Lookup(effectStates, name);
      if cur.None? {
        return [];
      }
      if kind == Delay {
        var index := rack.FindEffectPosition(name);
        if index >= 0 {
          rack.SetEffectActive(index, false);
        }
      }
      notices := [VisibilityChanged(name, false)];
      PutKeepsOrder(effectStates, name, cur.value.(isEnabled := false));
      PutFinds(effectStates, name, cur.value.(isEnabled := false));
      effectStates := Put(effectStates, name, cur.value.(isEnabled := false));
    }

    /** `restoreEffectState`: an entry of that name is enabled again at the position
        it holds, the rack entry of that name moves there, and the panel is reported
        shown and then placed; without an entry nothing happens. */
    method RestoreEffectState(name: string) returns (notices: seq<Notice>)
      requires Valid()
      modifies this`effectStates, rack`effects, rack`graphUpdatePending
      ensures Valid()
      ensures var cur := Lookup(old(effectStates), name);
        if cur.None? then
          effectStates == old(effectStates) && rack.effects == old(rack.effects) &&
          rack.graphUpdatePending == old(rack.graphUpdatePending) && notices == []
        else
          effectStates == Put(old(effectStates), name, cur.value.(isEnabled := true)) &&
          rack.effects == Reposition(old(rack.effects), name, cur.value.position) &&
          rack.graphUpdatePending == (old(rack.graphUpdatePending) || name in Names(old(rack.effects))) &&
          notices == [VisibilityChanged(name, true), Reordered(-1, cur.value.position)]
    {
      var cur := Lookup(effectStates, name);
      if cur.None? {
        return [];
      }
      var position := cur.value.position;
      PutKeepsOrder(effectStates, name, cur.value.(isEnabled := true));
      effectStates := Put(effectStates, name, cur.value.(isEnabled := true));
      var found := MoveInRack(name, position);
      notices := [VisibilityChanged(name, true), Reordered(-1, position)];
    }

    /** `getButtonInsertIndex`: the slot a button dropped at height `y` goes to,
        counting slots of one button height plus one spacing from the top margin,
        and never outside 0 .. the number of buttons. */
    function GetButtonInsertIndex(y: int): (r: int)
      reads this
      ensures 0 <= r <= |effectButtons|
    {
      var h := ButtonHeight(width);
      var spacing := Spacing(h);
      Clamp(0, |effectButtons|, TruncDiv(y - ButtonMargin + spacing / 2, h + spacing))
    }

    /** The first pass of `normalizePositions`: the enabled entries in key order,
        and whether their positions fail to read 0, 1, 2, ... */
    method CollectEnabled() returns (enabled: seq<Entry>, needsNormalization: bool)
      ensures enabled == EnabledEntries(effectStates)
      ensures needsNormalization <==> !Consecutive(enabled)
    {
      var es := effectStates;
      enabled := [];
      needsNormalization := false;
      var lastPosition := -1;
      var i := 0;
      while i < |es|
        invariant 0 <= i <= |es|
        invariant enabled == EnabledEntries(es[..i])
        invariant TracksGap(enabled, needsNormalization, lastPosition)
      {
        EnabledEntriesStep(es, i);
        var e := es[i];
        if e.state.isEnabled {
          GapStep(enabled, e, needsNormalization, lastPosition);
          enabled := enabled + [e];
          if e.state.position != lastPosition + 1 {
            needsNormalization := true;
          }
          lastPosition := e.state.position;
        }
        i := i + 1;
      }
      assert es[..i] == es;
    }

    /** The second pass of `normalizePositions`: each ranked entry whose position
        differs from its rank is given its rank, in the map and in the rack. */
    method AssignRanks(sorted: seq<Entry>)
      requires KeysSorted(effectStates) && rack.Valid() && sorted == Ranking(effectStates)
      modifies this`effectStates, rack`effects, rack`graphUpdatePending
      ensures rack.Valid()
      ensures effectStates == Normalized(old(effectStates))
      ensures rack.effects == RackReorders(old(rack.effects), sorted, |sorted|)
      ensures old(rack.graphUpdatePending) ==> rack.graphUpdatePending
    {
      ghost var es := effectStates;
      ghost var rs := rack.effects;
      ghost var order := Keys(sorted);
      var states := effectStates;
      var i := 0;
      while i < |sorted|
        invariant 0 <= i <= |sorted|
        invariant rack.Valid()
        invariant states == Ranked(es, order, i)
        invariant rack.effects == RackReorders(rs, sorted, i)
        invariant old(rack.graphUpdatePending) ==> rack.graphUpdatePending
      {
        var name := sorted[i].name;
        var newPosition := i;
        RankingStep(es, i);
        RackReordersStep(rs, sorted, i);
        var cur := Lookup(states, name);
        if cur.value.position != newPosition {
          states := Put(states, name, cur.value.(position := newPosition));
          var found := RepositionInRack(name, newPosition);
        }
        i := i + 1;
      }
      effectStates := states;
    }

    /** `normalizePositions`. The first pass collects the enabled entries in key
        order and finds nothing to do when their positions already read 0, 1, 2, ...
        Otherwise every enabled entry is given its rank by previous position, the
        rack entry of each moved one is moved to its rank and the rack is
        re-ordered. The notification loop then reads each entry's "old" position
        back from the map it has just updated, so it never finds a move and
        reports nothing. */
    method NormalizePositions() returns (notices: seq<Notice>)
      requires Valid()
      modifies this`effectStates, rack`effects, rack`graphUpdatePending
      ensures Valid()
      ensures effectStates == Normalized(old(effectStates))
      ensures Consecutive(EnabledEntries(old(effectStates))) ==>
        rack.effects == old(rack.effects) && rack.graphUpdatePending == old(rack.graphUpdatePending)
      ensures !Consecutive(EnabledEntries(old(effectStates))) ==>
        var rk := Ranking(old(effectStates));
        rack.effects == Ordered(RackReorders(old(rack.effects), rk, |rk|)) &&
        (old(rack.graphUpdatePending) ==> rack.graphUpdatePending)
      ensures notices == []
    {
      var es := effectStates;
      var enabled, needsNormalization := CollectEnabled();
      if !needsNormalization {
        ConsecutiveIsNormalized(es);
        return [];
      }
      var sorted := SortByKey(enabled, EntryPosition);
      assert sorted == Ranking(es);
      AssignRanks(sorted);
      rack.UpdateEffectOrder();
      RankedKeysSorted(es, Keys(sorted), |sorted|);
      notices := ReportMovesAsWritten(sorted);
      AsWrittenNeverNotifies(es);
    }

    /** The notification loop of `normalizePositions` as written: each entry's old
        position is looked up in the current map (a missing name reads as the
        default state, position -1). */
    method ReportMovesAsWritten(sorted: seq<Entry>) returns (notices: seq<Notice>)
      ensures notices == MoveNoticesAsWritten(effectStates, sorted)
    {
      notices := [];
      var i := 0;
      while i < |sorted|
        invariant 0 <= i <= |sorted|
        invariant notices == MoveNoticesAsWritten(effectStates, sorted[..i])
      {
        assert sorted[..i + 1][..i] == sorted[..i];
        var oldPosition := Lookup(effectStates, sorted[i].name).GetOr(EffectState(false, -1)).position;
        if oldPosition != i {
          notices := notices + [Reordered(oldPosition, i)];
        }
        i := i + 1;
      }
      assert sorted[..i] == sorted;
    }

    /** The search of `reorderButtons` for the dragged button. */
    method FindButton(dragged: string) returns (currentPosition: int)
      ensures currentPosition == IndexOf(effectButtons, dragged)
    {
      currentPosition := -1;
      var i := 0;
      while i < |effectButtons|
        invariant 0 <= i <= |effectButtons|
        invariant dragged !in effectButtons[..i]
      {
        if effectButtons[i] == dragged {
          IndexOfFirst(effectButtons, i, dragged);
          return i;
        }
        assert effectButtons[..i + 1] == effectButtons[..i] + [effectButtons[i]];
        i := i + 1;
      }
      assert effectButtons[..i] == effectButtons;
    }

    /** The loop of `reorderButtons` that gives every entry named by a button that
        button's index as its position. */
    method AssignButtonPositions()
      requires KeysSorted(effectStates) && Distinct(effectButtons)
      modifies this`effectStates
      ensures effectStates == Ranked(old(effectStates), effectButtons, |effectButtons|)
    {
      ghost var es := effectStates;
      var i := 0;
      while i < |effectButtons|
        invariant 0 <= i <= |effectButtons|
        invariant effectStates == Ranked(es, effectButtons, i)
      {
        RankedStep(es, effectButtons, i);
        RankedKeysSorted(es, effectButtons, i);
        var st := Lookup(effectStates, effectButtons[i]);
        if st.Some? {
          effectStates := Put(effectStates, effectButtons[i], st.value.(position := i));
        }
        i := i + 1;
      }
    }

    /** `reorderButtons`: a button that is not on the toolbar, or is dropped where
        it stands, changes nothing. Otherwise the button is moved to `newPosition`,
        every entry named by a button takes that button's index as its position,
        the rack entry of the dragged effect moves to `newPosition`, and the move
        is reported. */
    method ReorderButtons(dragged: string, newPosition: int) returns (notices: seq<Notice>)
      requires Valid()
      requires dragged in effectButtons && IndexOf(effectButtons, dragged) != newPosition ==>
        0 <= newPosition < |effectButtons|
      modifies this`effectButtons, this`effectStates, rack`effects, rack`graphUpdatePending
      ensures Valid()
      ensures var from := IndexOf(old(effectButtons), dragged);
        if from < 0 || from == newPosition then
          effectButtons == old(effectButtons) && effectStates == old(effectStates) &&
          rack.effects == old(rack.effects) && rack.graphUpdatePending == old(rack.graphUpdatePending) &&
          notices == []
        else
          effectButtons == Move(old(effectButtons), from, newPosition) &&
          effectStates == Ranked(old(effectStates), effectButtons, |effectButtons|) &&
          rack.effects == Reposition(old(rack.effects), dragged, newPosition) &&
          rack.graphUpdatePending == (old(rack.graphUpdatePending) || dragged in Names(old(rack.effects))) &&
          notices == [Reordered(from, newPosition)]
      ensures (dragged in old(effectButtons) && IndexOf(old(effectButtons), dragged) != newPosition &&
               Lookup(old(effectStates), dragged).Some?) ==>
        Lookup(effectStates, dragged) == Some(Lookup(old(effectStates), dragged).value.(position := newPosition))
    {
      var currentPosition := FindButton(dragged);
      if currentPosition == -1 || currentPosition == newPosition {
        return [];
      }
      ghost var es := effectStates;
      var buttons := Move(effectButtons, currentPosition, newPosition);
      assert Distinct(buttons) && buttons[newPosition] == dragged by {
        MoveProperties(effectButtons, currentPosition, newPosition);
        PermutationOfDistinct(buttons, effectButtons);
      }
      effectButtons := buttons;
      AssignButtonPositions();
      RankedKeysSorted(es, effectButtons, |effectButtons|);
      assert Lookup(es, dragged).Some? ==>
        Lookup(effectStates, dragged) == Some(Lookup(es, dragged).value.(position := newPosition)) by {
        ButtonEntriesMatchButtons(es, effectButtons);
        IndexOfDistinct(effectButtons, newPosition);
      }
      var found := MoveInRack(dragged, newPosition);
      notices := [Reordered(currentPosition, newPosition)];
    }
  }

  /** Dropping lower never yields an earlier slot. */
  lemma InsertIndexMonotone(t: ToolbarComponent, y1: int, y2: int)
    requires y1 <= y2
    ensures t.GetButtonInsertIndex(y1) <= t.GetButtonInsertIndex(y2)
  {
    var h := ButtonHeight(t.width);
    var spacing := Spacing(h);
    TruncDivMonotone(y1 - ButtonMargin + spacing / 2, y2 - ButtonMargin + spacing / 2, h + spacing);
  }

  /** A drop at the top edge of slot `k` (for `k` up to the number of buttons)
      goes to slot `k`. */
  lemma InsertIndexAtSlot(t: ToolbarComponent, k: nat)
    requires k <= |t.effectButtons|
    ensures var h := ButtonHeight(t.width);
      t.GetButtonInsertIndex(ButtonMargin + k * (h + Spacing(h))) == k
  {
    var h := ButtonHeight(t.width);
    var spacing := Spacing(h);
    var d := h + spacing;
    MulMonotone(d, 0, k);
    DivOfMultiple(k, d, spacing / 2);
  }

  lemma DivOfMultiple(k: int, d: int, r: int)
    requires d > 0 && 0 <= r < d
    ensures (k * d + r) / d == k
  {
    var a := k * d + r;
    var q, m := a / d, a % d;
    assert a == d * q + m;
    assert d * (q - k) == r - m;
    MulMonotone(d, 1, q - k);
    MulMonotone(d, q - k, -1);
  }
}
