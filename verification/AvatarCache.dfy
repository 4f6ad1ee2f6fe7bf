/** Bounding the avatar cache: oldest-first eviction under an entry count and a
    byte total, with pinned entries exempt
    (crates/fetchit-chat/src/fedi_avatar.rs). */
module AvatarCache {
  import opened TextOrder

  const MAX_ENTRIES: nat := 32
  const MAX_BYTES: nat := 8 * 1024 * 1024

  datatype Entry = Entry(key: string, fetchedAtMs: int, bytes: nat, pinned: bool)

  /** The eviction order: oldest fetch first, the key breaking ties. */
  predicate Before(a: Entry, b: Entry) {
    a.fetchedAtMs < b.fetchedAtMs || (a.fetchedAtMs == b.fetchedAtMs && Less(a.key, b.key))
  }

  predicate Within(es: seq<Entry>) { |es| <= MAX_ENTRIES && Total(es) <= MAX_BYTES }

  function Total(es: seq<Entry>): nat { if es == [] then 0 else Total(es[..|es| - 1]) + es[|es| - 1].bytes }

  /** Entries are named after distinct files. */
  ghost predicate DistinctKeys(es: seq<Entry>) {
    forall i, j :: 0 <= i < j < |es| ==> es[i].key != es[j].key
  }

  function KeysOf(es: seq<Entry>): set<string> { set e | e in es :: e.key }

  /** What is left once the entries named in `gone` are deleted. */
  function Keep(es: seq<Entry>, gone: set<string>): seq<Entry> {
    if es == [] then []
    else if es[|es| - 1].key in gone then Keep(es[..|es| - 1], gone)
    else Keep(es[..|es| - 1], gone) + [es[|es| - 1]]
  }

  function Unpinned(es: seq<Entry>): seq<Entry> {
    if es == [] then []
    else if es[|es| - 1].pinned then Unpinned(es[..|es| - 1])
    else Unpinned(es[..|es| - 1]) + [es[|es| - 1]]
  }

  function Pinned(es: seq<Entry>): seq<Entry> {
    if es == [] then []
    else if es[|es| - 1].pinned then Pinned(es[..|es| - 1]) + [es[|es| - 1]]
    else Pinned(es[..|es| - 1])
  }

  // -------------------------------------------------------------------- sorting

  predicate Sorted(es: seq<Entry>) { forall i, j :: 0 <= i < j < |es| ==> !Before(es[j], es[i]) }

  /** `e` placed after everything that is not later than it. */
  function Insert(e: Entry, es: seq<Entry>): seq<Entry> {
    if es == [] || !Before(e, es[|es| - 1]) then es + [e]
    else Insert(e, es[..|es| - 1]) + [es[|es| - 1]]
  }

  function OldestFirst(es: seq<Entry>): seq<Entry> {
    if es == [] then [] else Insert(es[|es| - 1], OldestFirst(es[..|es| - 1]))
  }

  lemma NotBeforeTransitive(a: Entry, b: Entry, c: Entry)
    requires !Before(b, a) && !Before(c, b)
    ensures !Before(c, a)
  {
    if Before(c, a) {
      LessTotal(a.key, b.key);
      LessTotal(b.key, c.key);
      if Less(a.key, b.key) && Less(c.key, a.key) {
        LessTransitive(c.key, a.key, b.key);
      }
      if Less(b.key, c.key) && Less(c.key, a.key) {
        LessTransitive(b.key, c.key, a.key);
      }
    }
  }

  lemma BeforeAsymmetric(a: Entry, b: Entry)
    requires Before(a, b)
    ensures !Before(b, a)
  {
    if a.fetchedAtMs == b.fetchedAtMs {
      LessAsymmetric(a.key, b.key);
    }
  }

  lemma {:induction false} InsertMembers(e: Entry, es: seq<Entry>)
    ensures forall x :: x in Insert(e, es) <==> x == e || x in es
  {
    if es != [] && Before(e, es[|es| - 1]) {
      InsertMembers(e, es[..|es| - 1]);
      assert es == es[..|es| - 1] + [es[|es| - 1]];
    }
  }

  lemma {:induction false} InsertDistinct(e: Entry, es: seq<Entry>)
    requires DistinctKeys(es) && forall x <- es :: x.key != e.key
    ensures DistinctKeys(Insert(e, es))
  {
    if es != [] && Before(e, es[|es| - 1]) {
      var front, last := es[..|es| - 1], es[|es| - 1];
      InsertDistinct(e, front);
      InsertMembers(e, front);
      assert forall x <- front :: x.key != last.key;
      assert forall x <- Insert(e, front) :: x.key != last.key;
    }
  }

  lemma {:induction false} InsertSorted(e: Entry, es: seq<Entry>)
    requires Sorted(es)
    ensures Sorted(Insert(e, es))
  {
    if es == [] {
    } else if !Before(e, es[|es| - 1]) {
      forall i | 0 <= i < |es| ensures !Before(e, es[i]) {
        if i < |es| - 1 {
          NotBeforeTransitive(es[i], es[|es| - 1], e);
        }
      }
    } else {
      var front, last := es[..|es| - 1], es[|es| - 1];
      InsertSorted(e, front);
      InsertMembers(e, front);
      BeforeAsymmetric(e, last);
      LastIsLatest(Insert(e, front), last);
    }
  }

  lemma LastIsLatest(es: seq<Entry>, last: Entry)
    requires Sorted(es) && forall x <- es :: !Before(last, x)
    ensures Sorted(es + [last])
  {
  }

  lemma {:induction false} OldestFirstSorts(es: seq<Entry>)
    ensures Sorted(OldestFirst(es))
    ensures forall x :: x in OldestFirst(es) <==> x in es
  {
    if es != [] {
      var front, last := es[..|es| - 1], es[|es| - 1];
      OldestFirstSorts(front);
      InsertSorted(last, OldestFirst(front));
      InsertMembers(last, OldestFirst(front));
      assert es == front + [last];
    }
  }

  lemma {:induction false} OldestFirstDistinct(es: seq<Entry>)
    requires DistinctKeys(es)
    ensures DistinctKeys(OldestFirst(es))
  {
    if es != [] {
      var front, last := es[..|es| - 1], es[|es| - 1];
      OldestFirstDistinct(front);
      OldestFirstSorts(front);
      assert forall x <- front :: x.key != last.key;
      InsertDistinct(last, OldestFirst(front));
    }
  }

  // ------------------------------------------------------------ what is left over

  lemma TotalSnoc(es: seq<Entry>, e: Entry)
    ensures Total(es + [e]) == Total(es) + e.bytes
  {
    assert (es + [e])[..|es|] == es;
  }

  lemma KeepSnoc(es: seq<Entry>, e: Entry, gone: set<string>)
    ensures Keep(es + [e], gone) == if e.key in gone then Keep(es, gone) else Keep(es, gone) + [e]
  {
    assert (es + [e])[..|es|] == es;
  }

  lemma {:induction false} KeepMembers(es: seq<Entry>, gone: set<string>)
    ensures forall x :: x in Keep(es, gone) <==> x in es && x.key !in gone
  {
    if es != [] {
      KeepMembers(es[..|es| - 1], gone);
      assert es == es[..|es| - 1] + [es[|es| - 1]];
    }
  }

  lemma {:induction false} KeepDistinct(es: seq<Entry>, gone: set<string>)
    requires DistinctKeys(es)
    ensures DistinctKeys(Keep(es, gone))
  {
    if es != [] {
      KeepDistinct(es[..|es| - 1], gone);
      KeepMembers(es[..|es| - 1], gone);
      assert forall x <- es[..|es| - 1] :: x.key != es[|es| - 1].key;
    }
  }

  lemma {:induction false} KeepTwice(es: seq<Entry>, a: set<string>, b: set<string>)
    ensures Keep(Keep(es, a), b) == Keep(es, a + b)
  {
    if es != [] {
      var front := es[..|es| - 1];
      KeepTwice(front, a, b);
      KeepSnoc(Keep(front, a), es[|es| - 1], b);
    }
  }

  lemma {:induction false} KeepAll(es: seq<Entry>, gone: set<string>)
    requires forall x <- es :: x.key !in gone
    ensures Keep(es, gone) == es
  {
    if es != [] {
      assert forall x <- es[..|es| - 1] :: x in es;
      KeepAll(es[..|es| - 1], gone);
      assert es == es[..|es| - 1] + [es[|es| - 1]];
    }
  }

  lemma {:induction false} KeepShrinks(es: seq<Entry>, gone: set<string>)
    ensures |Keep(es, gone)| <= |es| && Total(Keep(es, gone)) <= Total(es)
  {
    if es != [] {
      var front := es[..|es| - 1];
      KeepShrinks(front, gone);
      TotalSnoc(Keep(front, gone), es[|es| - 1]);
    }
  }

  /** Deleting one entry takes one off the count and its bytes off the total. */
  lemma {:induction false} KeepOne(es: seq<Entry>, e: Entry)
    requires DistinctKeys(es) && e in es
    ensures |Keep(es, {e.key})| == |es| - 1
    ensures Total(Keep(es, {e.key})) == Total(es) - e.bytes
  {
    var front, last := es[..|es| - 1], es[|es| - 1];
    if last == e {
      KeepAll(front, {e.key});
    } else {
      var i :| 0 <= i < |es| && es[i] == e;
      assert front[i] == e && last.key != e.key;
      KeepOne(front, e);
      TotalSnoc(Keep(front, {e.key}), last);
    }
  }

  lemma {:induction false} UnpinnedMembers(es: seq<Entry>)
    ensures forall x :: x in Unpinned(es) <==> x in es && !x.pinned
  {
    if es != [] {
      UnpinnedMembers(es[..|es| - 1]);
      assert es == es[..|es| - 1] + [es[|es| - 1]];
    }
  }

  lemma {:induction false} UnpinnedSorted(es: seq<Entry>)
    requires Sorted(es)
    ensures Sorted(Unpinned(es))
  {
    if es != [] {
      var front, last := es[..|es| - 1], es[|es| - 1];
      UnpinnedSorted(front);
      UnpinnedMembers(front);
      LastIsLatest(Unpinned(front), last);
    }
  }

  lemma {:induction false} UnpinnedPrefix(es: seq<Entry>, i: nat)
    requires i <= |es|
    ensures Unpinned(es[..i]) <= Unpinned(es)
    decreases |es|
  {
    if i == |es| {
      assert es[..i] == es;
    } else {
      UnpinnedPrefix(es[..|es| - 1], i);
      assert es[..|es| - 1][..i] == es[..i];
    }
  }

  lemma {:induction false} PinnedIsTheRest(es: seq<Entry>, gone: set<string>)
    requires forall x <- es :: x.key in gone <==> !x.pinned
    ensures Keep(es, gone) == Pinned(es)
  {
    if es != [] {
      PinnedIsTheRest(es[..|es| - 1], gone);
    }
  }

  // ------------------------------------------------------------------- evictions

  /** Every entry of `gone` had to go: the ones before it were not enough. */
  ghost predicate Needed(es: seq<Entry>, gone: seq<Entry>) {
    && gone <= Unpinned(OldestFirst(es))
    && forall j :: 0 <= j < |gone| ==> !Within(Keep(es, KeysOf(gone[..j])))
  }

  /** `gone` is a complete eviction: the shortest run of oldest unpinned entries
      whose removal meets the bounds, or all of them. */
  ghost predicate IsEviction(es: seq<Entry>, gone: seq<Entry>) {
    Needed(es, gone) && (Within(Keep(es, KeysOf(gone))) || gone == Unpinned(OldestFirst(es)))
  }

  lemma ShorterIsShort(es: seq<Entry>, a: seq<Entry>, b: seq<Entry>)
    requires IsEviction(es, a) && Needed(es, b)
    ensures |b| <= |a|
  {
    assert |a| <= |b| ==> b[..|a|] == a;
  }

  /** The bounds and the order leave no choice. */
  lemma EvictionUnique(es: seq<Entry>, a: seq<Entry>, b: seq<Entry>)
    requires IsEviction(es, a) && IsEviction(es, b)
    ensures a == b
  {
    ShorterIsShort(es, a, b);
    ShorterIsShort(es, b, a);
  }

  /** Two entries of a cache with equal keys are the same entry. */
  lemma SameKeySameEntry(es: seq<Entry>, x: Entry, y: Entry)
    requires DistinctKeys(es) && x in es && y in es && x.key == y.key
    ensures x == y
  {
  }

  /** Pinned entries survive, and whatever else survives was fetched after
      everything evicted. */
  lemma EvictsOldest(es: seq<Entry>, gone: seq<Entry>, x: Entry, y: Entry)
    requires DistinctKeys(es) && IsEviction(es, gone) && x in gone && y in es
    ensures x in es && !x.pinned
    ensures y.pinned ==> y in Keep(es, KeysOf(gone))
    ensures y in Keep(es, KeysOf(gone)) && !y.pinned ==>
              x.fetchedAtMs < y.fetchedAtMs || (x.fetchedAtMs == y.fetchedAtMs && Precedes(x.key, y.key))
  {
    var u := Unpinned(OldestFirst(es));
    OldestFirstSorts(es);
    UnpinnedMembers(OldestFirst(es));
    assert x in u && forall z <- gone :: z in u;
    KeepMembers(es, KeysOf(gone));
    forall z | z in gone && z.key == y.key ensures z == y {
      SameKeySameEntry(es, z, y);
    }
    if y in Keep(es, KeysOf(gone)) && !y.pinned {
      UnpinnedSorted(OldestFirst(es));
      LaterInOrder(u, gone, x, y);
      LessTotal(x.key, y.key);
      LessIff(x.key, y.key);
    }
  }

  lemma LaterInOrder(u: seq<Entry>, gone: seq<Entry>, x: Entry, y: Entry)
    requires Sorted(u) && gone <= u && x in gone && y in u && y.key !in KeysOf(gone)
    ensures !Before(y, x) && x.key != y.key
  {
    var i :| 0 <= i < |gone| && gone[i] == x;
    var j :| 0 <= j < |u| && u[j] == y;
    assert u[i] == x && forall k :: 0 <= k < |gone| ==> u[k] == gone[k] && gone[k].key in KeysOf(gone);
  }

  lemma AllUnpinnedKeys(es: seq<Entry>)
    requires DistinctKeys(es)
    ensures Keep(es, KeysOf(Unpinned(OldestFirst(es)))) == Pinned(es)
  {
    var u := Unpinned(OldestFirst(es));
    OldestFirstSorts(es);
    UnpinnedMembers(OldestFirst(es));
    forall x | x in es ensures x.key in KeysOf(u) <==> !x.pinned {
      forall z | z in u && z.key == x.key ensures z == x {
        SameKeySameEntry(es, z, x);
      }
      assert !x.pinned ==> x in u;
    }
    PinnedIsTheRest(es, KeysOf(u));
  }

  /** An eviction leaves the cache within its bounds exactly when the pinned
      entries alone are. */
  lemma BoundedIffPinnedFit(es: seq<Entry>, gone: seq<Entry>)
    requires DistinctKeys(es) && IsEviction(es, gone)
    ensures Within(Keep(es, KeysOf(gone))) <==> Within(Pinned(es))
  {
    hide Keep, Pinned, Total, Needed;
    var u := Unpinned(OldestFirst(es));
    AllUnpinnedKeys(es);
    if Within(Keep(es, KeysOf(gone))) {
      PrefixKeys(gone, u, es);
      KeepTwice(es, KeysOf(gone), KeysOf(u));
      KeepShrinks(Keep(es, KeysOf(gone)), KeysOf(u));
    }
  }

  lemma PrefixKeys(gone: seq<Entry>, u: seq<Entry>, es: seq<Entry>)
    requires Needed(es, gone) && u == Unpinned(OldestFirst(es))
    ensures KeysOf(gone) + KeysOf(u) == KeysOf(u)
  {
    assert forall z <- gone :: z in u;
  }

  /** A second pass straight after finds nothing to evict. */
  lemma SecondPassIsIdle(es: seq<Entry>, gone: seq<Entry>)
    requires DistinctKeys(es) && IsEviction(es, gone)
    ensures IsEviction(Keep(es, KeysOf(gone)), [])
  {
    hide Keep, Total;
    var kept := Keep(es, KeysOf(gone));
    assert KeysOf([]) == {};
    KeepAll(kept, {});
    if !Within(kept) {
      AllUnpinnedKeys(es);
      PinnedMembers(es);
      OldestFirstSorts(kept);
      UnpinnedMembers(OldestFirst(kept));
      EmptyOrInhabited(Unpinned(OldestFirst(kept)));
    }
  }

  lemma {:induction false} PinnedMembers(es: seq<Entry>)
    ensures forall x :: x in Pinned(es) ==> x.pinned
  {
    if es != [] {
      PinnedMembers(es[..|es| - 1]);
    }
  }

  lemma EmptyOrInhabited(es: seq<Entry>)
    ensures es == [] || exists x :: x in es
  {
    if es != [] {
      assert es[0] in es;
    }
  }

  // -------------------------------------------------------------------- the cache

  /** Which delete failed: that of an entry's image or of its sidecar. */
  datatype Result = Ok(evicted: nat) | ImageStuck(key: string) | SidecarStuck(key: string)

  /** Deleting the image leaves an entry of no bytes. */
  function WithoutImage(es: seq<Entry>, key: string): (r: seq<Entry>)
    ensures |r| == |es|
    ensures forall i :: 0 <= i < |es| ==> r[i] == if es[i].key == key then es[i].(bytes := 0) else es[i]
  {
    seq(|es|, i requires 0 <= i < |es| => if es[i].key == key then es[i].(bytes := 0) else es[i])
  }

  lemma {:induction false} KeepWithoutImage(es: seq<Entry>, key: string)
    ensures Keep(WithoutImage(es, key), {key}) == Keep(es, {key})
  {
    if es != [] {
      KeepWithoutImage(es[..|es| - 1], key);
      assert WithoutImage(es, key)[..|es| - 1] == WithoutImage(es[..|es| - 1], key);
    }
  }

  /** The entry the eviction stopped at: the oldest unpinned one still there. */
  ghost predicate NextToGo(es: seq<Entry>, gone: seq<Entry>, key: string) {
    var u := Unpinned(OldestFirst(es));
    |gone| < |u| && gone == u[..|gone|] && u[|gone|].key == key
  }

  class Cache {
    var entries: seq<Entry>

    constructor (es: seq<Entry>)
      ensures entries == es
    {
      entries := es;
    }

    /** `images` and `sidecars` name the entries whose image or sidecar file
        cannot be deleted. The loop works on running figures; they stay those of
        the entries that are left. */
    method EnforceBounds(images: set<string>, sidecars: set<string>) returns (r: Result, gone: seq<Entry>)
      requires DistinctKeys(entries)
      modifies this
      ensures KeysOf(gone) !! images && KeysOf(gone) !! sidecars
      ensures r.Ok? ==>
                && r.evicted == |gone| && IsEviction(old(entries), gone)
                && entries == Keep(old(entries), KeysOf(gone))
      ensures !r.Ok? ==>
                && Needed(old(entries), gone) && !Within(Keep(old(entries), KeysOf(gone)))
                && NextToGo(old(entries), gone, r.key)
      ensures r.ImageStuck? ==> r.key in images && entries == Keep(old(entries), KeysOf(gone))
      ensures r.SidecarStuck? ==>
                && r.key in sidecars && r.key !in images
                && entries == WithoutImage(Keep(old(entries), KeysOf(gone)), r.key)
    {
      ghost var es := entries;
      var sorted := OldestFirst(entries);
      var total, count := Total(entries), |entries|;
      gone := [];
      KeepAll(es, {});
      assert KeysOf(gone) == {};
      hide Keep, Total, OldestFirst, DistinctKeys;
      for i := 0 to |sorted|
        invariant gone == Unpinned(sorted[..i])
        invariant entries == Keep(es, KeysOf(gone)) && DistinctKeys(entries)
        invariant total == Total(entries) && count == |entries|
        invariant Needed(es, gone) && KeysOf(gone) !! images && KeysOf(gone) !! sidecars
      {
        if count <= MAX_ENTRIES && total <= MAX_BYTES {
          return Ok(|gone|), gone;
        }
        ghost var next := sorted[..i + 1];
        assert next[..i] == sorted[..i];
        if sorted[i].pinned {
          continue;
        }
        OneMore(es, sorted, i, gone);
        if sorted[i].key in images {
          return ImageStuck(sorted[i].key), gone;
        }
        entries := WithoutImage(entries, sorted[i].key);
        if sorted[i].key in sidecars {
          return SidecarStuck(sorted[i].key), gone;
        }
        KeepWithoutImage(Keep(es, KeysOf(gone)), sorted[i].key);
        entries := Keep(entries, {sorted[i].key});
        total := if total >= sorted[i].bytes then total - sorted[i].bytes else 0;
        count := count - 1;
        gone := gone + [sorted[i]];
      }
      assert sorted[..|sorted|] == sorted;
      r := Ok(|gone|);
    }
  }

  lemma OneMore(es: seq<Entry>, sorted: seq<Entry>, i: nat, gone: seq<Entry>)
    requires DistinctKeys(es) && sorted == OldestFirst(es) && i < |sorted| && !sorted[i].pinned
    requires gone == Unpinned(sorted[..i]) && Needed(es, gone) && !Within(Keep(es, KeysOf(gone)))
    ensures var left := Keep(es, KeysOf(gone));
            var next := Keep(left, {sorted[i].key});
            && next == Keep(es, KeysOf(gone + [sorted[i]])) && DistinctKeys(next)
            && |next| == |left| - 1 && Total(next) == Total(left) - sorted[i].bytes
    ensures KeysOf(gone + [sorted[i]]) == KeysOf(gone) + {sorted[i].key}
    ensures Needed(es, gone + [sorted[i]]) && gone + [sorted[i]] == Unpinned(sorted[..i + 1])
    ensures NextToGo(es, gone, sorted[i].key)
  {
    hide Keep, Total, OldestFirst;
    var e, left := sorted[i], Keep(es, KeysOf(gone));
    assert sorted[..i + 1][..i] == sorted[..i];
    assert KeysOf(gone + [e]) == KeysOf(gone) + {e.key};
    KeepTwice(es, KeysOf(gone), {e.key});
    KeepDistinct(es, KeysOf(gone));
    KeepDistinct(left, {e.key});
    StillThere(es, sorted, i, gone);
    KeepOne(left, e);
    UnpinnedPrefix(sorted, i + 1);
    NeededNext(es, gone, e);
  }

  lemma StillThere(es: seq<Entry>, sorted: seq<Entry>, i: nat, gone: seq<Entry>)
    requires DistinctKeys(es) && sorted == OldestFirst(es) && i < |sorted| && gone == Unpinned(sorted[..i])
    ensures sorted[i] in Keep(es, KeysOf(gone))
  {
    hide Keep, OldestFirst;
    OldestFirstSorts(es);
    OldestFirstDistinct(es);
    UnpinnedMembers(sorted[..i]);
    KeepMembers(es, KeysOf(gone));
    assert sorted[i] in es;
    forall x | x in gone ensures x.key != sorted[i].key {
      assert x in sorted[..i];
    }
  }

  lemma NeededNext(es: seq<Entry>, gone: seq<Entry>, e: Entry)
    requires Needed(es, gone) && !Within(Keep(es, KeysOf(gone))) && gone + [e] <= Unpinned(OldestFirst(es))
    ensures Needed(es, gone + [e])
  {
    hide Keep, OldestFirst, Within;
    var more := gone + [e];
    forall j | 0 <= j < |more| ensures !Within(Keep(es, KeysOf(more[..j]))) {
      assert more[..j] == if j < |gone| then gone[..j] else gone;
    }
  }
}
