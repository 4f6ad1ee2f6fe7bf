/** `FediThreads` as the mutable object the client holds between a load and a
    save, proved against the value functions of module FediThreads. */
module FediThreadStore {
  import opened StableSorting
  import opened FediThreads
  import opened TextOrder
  import opened WhiteSpace

  datatype Summary = Summary(key: string, lastBody: string, lastAtMs: I64, lastOutbound: bool, unread: nat)

  function SummaryOf(t: Threads, key: string): Summary
    requires key in t.threads && t.threads[key] != []
  {
    var msgs := t.threads[key];
    var last := msgs[|msgs| - 1];
    Summary(key, last.text, last.atMs, last.outbound, UnreadSince(msgs, ReadMark(t, key)))
  }

  /** Newest activity first, ties by label. */
  predicate Before(a: Summary, b: Summary) {
    a.lastAtMs > b.lastAtMs || (a.lastAtMs == b.lastAtMs && Less(a.key, b.key))
  }

  ghost predicate Ordered(out: seq<Summary>) {
    forall i, j :: 0 <= i < j < |out| ==> Before(out[i], out[j])
  }

  /** One row for each thread in `keys` that has messages. */
  ghost predicate Rows(t: Threads, keys: set<string>, out: seq<Summary>) {
    && (forall i :: 0 <= i < |out| ==>
          out[i].key in keys && out[i].key in t.threads && t.threads[out[i].key] != [] && out[i] == SummaryOf(t, out[i].key))
    && (forall key :: key in keys && key in t.threads && t.threads[key] != [] ==> SummaryOf(t, key) in out)
  }

  ghost predicate IsOverview(t: Threads, out: seq<Summary>) {
    Rows(t, t.threads.Keys, out) && Ordered(out)
  }

  lemma BeforeStrict(a: Summary, b: Summary, c: Summary)
    ensures !Before(a, a)
    ensures Before(a, b) && Before(b, c) ==> Before(a, c)
    ensures Before(a, b) || Before(b, a) || (a.lastAtMs == b.lastAtMs && a.key == b.key)
  {
    LessIrreflexive(a.key);
    LessTotal(a.key, b.key);
    if Less(a.key, b.key) && Less(b.key, c.key) {
      LessTransitive(a.key, b.key, c.key);
    }
  }

  /** The overview is determined by the store: two correct ones are equal. */
  lemma {:induction false} OrderedUnique(a: seq<Summary>, b: seq<Summary>)
    requires Ordered(a) && Ordered(b)
    requires forall x :: x in a <==> x in b
    ensures a == b
  {
    assert |a| > 0 ==> a[0] in b;
    assert |b| > 0 ==> b[0] in a;
    if |a| > 0 && |b| > 0 {
      var i :| 0 <= i < |b| && b[i] == a[0];
      var j :| 0 <= j < |a| && a[j] == b[0];
      BeforeStrict(a[0], b[0], a[0]);
      assert a[0] == b[0];
      forall x ensures x in a[1..] <==> x in b[1..] {
        TailMembers(a, x);
        TailMembers(b, x);
      }
      OrderedUnique(a[1..], b[1..]);
      assert a == [a[0]] + a[1..] && b == [b[0]] + b[1..];
    }
  }

  lemma TailMembers(a: seq<Summary>, x: Summary)
    requires a != [] && Ordered(a)
    ensures x in a[1..] <==> x in a && x != a[0]
  {
    BeforeStrict(a[0], a[0], a[0]);
    assert forall k :: 1 <= k < |a| ==> Before(a[0], a[k]) && a[k] == a[1..][k - 1];
  }

  lemma OverviewUnique(t: Threads, a: seq<Summary>, b: seq<Summary>)
    requires IsOverview(t, a) && IsOverview(t, b)
    ensures a == b
  {
    forall x ensures x in a <==> x in b {
      if x in a {
        assert SummaryOf(t, x.key) in b;
      }
      if x in b {
        assert SummaryOf(t, x.key) in a;
      }
    }
    OrderedUnique(a, b);
  }

  /** A row shows the newest message of its thread, the last of several with that
      stamp, and counts the inbound ones newer than the thread's read mark. */
  lemma OverviewShowsNewest(t: Threads, out: seq<Summary>, i: nat)
    requires WellFormed(t) && IsOverview(t, out) && i < |out|
    ensures var r, msgs := out[i], Thread(t, out[i].key);
            && msgs != [] && (forall k :: 0 <= k < |msgs| ==> msgs[k].atMs <= r.lastAtMs)
            && r.lastBody == msgs[|msgs| - 1].text && r.lastAtMs == msgs[|msgs| - 1].atMs
            && r.lastOutbound == msgs[|msgs| - 1].outbound
            && (var n := |UnreadAt(msgs, ReadMark(t, r.key))|; r.unread == if n <= U32_MAX then n else U32_MAX)
  {
    var msgs := Thread(t, out[i].key);
    assert out[i] == SummaryOf(t, out[i].key);
    forall k | 0 <= k < |msgs| ensures msgs[k].atMs <= msgs[|msgs| - 1].atMs {
      assert StampOf(msgs[k]) <= StampOf(msgs[|msgs| - 1]);
    }
    NewerCounts(msgs, ReadMark(t, out[i].key));
  }

  /** The list runs from the latest activity to the earliest, equal stamps in the
      order of their labels, and has exactly the threads that have messages. */
  lemma OverviewRunsBackwards(t: Threads, out: seq<Summary>)
    requires IsOverview(t, out)
    ensures forall i, j :: 0 <= i < j < |out| ==>
              out[i].lastAtMs > out[j].lastAtMs || (out[i].lastAtMs == out[j].lastAtMs && Precedes(out[i].key, out[j].key))
    ensures forall key :: Thread(t, key) != [] <==> exists i :: 0 <= i < |out| && out[i].key == key
  {
    hide Less, SummaryOf;
    forall i, j | 0 <= i < j < |out|
      ensures out[i].lastAtMs > out[j].lastAtMs || (out[i].lastAtMs == out[j].lastAtMs && Precedes(out[i].key, out[j].key))
    {
      LessIff(out[i].key, out[j].key);
    }
    forall key | Thread(t, key) != [] ensures exists i :: 0 <= i < |out| && out[i].key == key {
      assert SummaryOf(t, key) in out;
      KeyOfRow(t, key);
    }
  }

  lemma KeyOfRow(t: Threads, key: string)
    requires key in t.threads && t.threads[key] != []
    ensures SummaryOf(t, key).key == key
  {
  }

  /** In every store that lists a thread at `key`, the list's badge is the unread
      count looked up by that label. */
  ghost predicate BadgeAlwaysAgrees(key: string) {
    forall t: Threads, out: seq<Summary>, i ::
      IsOverview(t, out) && 0 <= i < |out| && out[i].key == key ==> out[i].unread == Unread(t, CanonicalLabel(key))
  }

  /** One inbound message. */
  predicate Unseen(m: Msg) { !m.outbound && m.atMs > I64_MIN }

  lemma OneMessageStore(key: string, m: Msg)
    requires Unseen(m)
    ensures var t := Inserted(EMPTY, key, m);
            && t.threads == map[key := [m]] && SummaryOf(t, key).unread == 1
            && forall other :: other != key ==> Unread(t, other) == 0
  {
    var t := Inserted(EMPTY, key, m);
    SortedFixed(StampOf, [m]);
    assert [] + [m] == [m];
    assert t.threads == map[key := [m]] && t.readMs == map[];
    assert Newer([m], I64_MIN) == 1 by {
      assert [m][..0] == [];
    }
    assert forall other :: other != key ==> Thread(t, other) == [];
  }

  /** A first message to a label that is not canonical: the list shows one unread
      message, the look-up none. */
  lemma FirstMessageDisagrees(key: string, m: Msg)
    requires Unseen(m) && CanonicalLabel(key) != key
    ensures var t := Inserted(EMPTY, key, m);
            && key in t.threads && t.threads[key] != [] && IsOverview(t, [SummaryOf(t, key)])
            && SummaryOf(t, key).unread == 1 && Unread(t, CanonicalLabel(key)) == 0
  {
    hide CanonicalLabel, Inserted, Unread;
    OneMessageStore(key, m);
  }

  /** Badge and unread count agree in every store exactly on the labels that are
      fixed points of the canonical label. */
  lemma BadgeAgreesIff(key: string)
    ensures BadgeAlwaysAgrees(key) <==> CanonicalLabel(key) == key
  {
    hide CanonicalLabel;
    if CanonicalLabel(key) == key {
      forall t: Threads, out: seq<Summary>, i | IsOverview(t, out) && 0 <= i < |out| && out[i].key == key
        ensures out[i].unread == Unread(t, CanonicalLabel(key))
      {
        assert out[i] == SummaryOf(t, out[i].key);
      }
    } else {
      var m := Msg(false, "", "", 0, "", false);
      var t := Inserted(EMPTY, key, m);
      FirstMessageDisagrees(key, m);
      var out := [SummaryOf(t, key)];
      assert IsOverview(t, out) && out[0].key == key && out[0].unread != Unread(t, CanonicalLabel(key));
    }
  }

  /** For a correspondent as typed: they agree exactly unless the trimmed handle
      has `@` in front of another `@` or of white space. */
  lemma TypedHandleAgreesIff(handle: string)
    ensures BadgeAlwaysAgrees(CanonicalLabel(handle)) <==>
            !(|Trim(handle)| >= 2 && Trim(handle)[0] == '@' && (Trim(handle)[1] == '@' || IsWhite(Trim(handle)[1])))
  {
    hide CanonicalLabel, Trim, BadgeAlwaysAgrees;
    BadgeAgreesIff(CanonicalLabel(handle));
    CanonicalIdempotentIff(handle);
  }

  /** Put `x` in its place in an ordered list. */
  function Slot(out: seq<Summary>, x: Summary): (r: seq<Summary>)
    ensures forall y :: y in r <==> y in out || y == x
  {
    if out == [] then [x]
    else if Before(x, out[0]) then [x] + out
    else
      assert out == [out[0]] + out[1..];
      [out[0]] + Slot(out[1..], x)
  }

  lemma {:induction false} SlotOrdered(out: seq<Summary>, x: Summary)
    requires Ordered(out)
    requires forall i :: 0 <= i < |out| ==> out[i].key != x.key
    ensures Ordered(Slot(out, x))
  {
    if out != [] {
      BeforeStrict(x, out[0], x);
      if Before(x, out[0]) {
        forall j | 0 <= j < |out| ensures Before(x, out[j]) {
          BeforeStrict(x, out[0], out[j]);
        }
      } else {
        SlotOrdered(out[1..], x);
        var r := Slot(out[1..], x);
        forall j | 0 <= j < |r| ensures Before(out[0], r[j]) {
          assert r[j] in r;
          if r[j] != x {
            assert r[j] in out[1..];
          }
        }
      }
    }
  }

  lemma SlotRows(t: Threads, keys: set<string>, out: seq<Summary>, key: string)
    requires key in t.threads && t.threads[key] != [] && Rows(t, keys, out)
    ensures Rows(t, keys + {key}, Slot(out, SummaryOf(t, key)))
  {
    var r := Slot(out, SummaryOf(t, key));
    forall i | 0 <= i < |r|
      ensures r[i].key in keys + {key} && r[i].key in t.threads && t.threads[r[i].key] != [] && r[i] == SummaryOf(t, r[i].key)
    {
      assert r[i] in r;
    }
  }

  lemma FoldStep(keyOf: string -> string, t: Threads, items: seq<InboxItem>, i: nat)
    requires i < |items|
    ensures var mid, it := Folded(keyOf, t, items[..i]), items[i];
            && Folded(keyOf, t, items[..i + 1]) == Inserted(mid.(cursorMs := Max(mid.cursorMs, it.createdMs)), keyOf(it.sender), MsgOf(it))
            && (HasNote(Thread(mid, keyOf(it.sender)), it.noteId) <==> !IsNew(keyOf, t, items, i))
  {
    assert items[..i + 1][..i] == items[..i];
    FoldMembers(keyOf, t, items[..i]);
    FoldedHasNote(keyOf, t, items, i);
  }

  class Store {
    var cursorMs: I64
    var threads: map<string, seq<Msg>>
    var readMs: map<string, I64>

    ghost function Value(): Threads
      reads this
    {
      Threads(cursorMs, threads, readMs)
    }

    constructor (t: Threads)
      ensures Value() == t
    {
      cursorMs, threads, readMs := t.cursorMs, t.threads, t.readMs;
    }

    method Insert(handle: string, msg: Msg) returns (stored: bool)
      modifies this`threads
      ensures Value() == Inserted(old(Value()), CanonicalLabel(handle), msg)
      ensures stored <==> !HasNote(old(Thread(Value(), CanonicalLabel(handle))), msg.noteId)
    {
      var key := CanonicalLabel(handle);
      var list := if key in threads then threads[key] else [];
      if HasNote(list, msg.noteId) {
        return false;
      }
      threads := threads[key := StableSort(StampOf, list + [msg])];
      return true;
    }

    /** `author` is the actor-URL labeller; `keyOf` its canonical form. */
    method FoldInbox(author: string -> string, items: seq<InboxItem>, ghost keyOf: string -> string) returns (inserted: nat)
      requires forall url :: keyOf(url) == CanonicalLabel(author(url))
      modifies this
      ensures Value() == Folded(keyOf, old(Value()), items)
      ensures inserted == NewCount(keyOf, old(Value()), items, |items|)
    {
      inserted := 0;
      ghost var was := Value();
      var i := 0;
      while i < |items|
        invariant i <= |items|
        invariant Value() == Folded(keyOf, was, items[..i])
        invariant inserted == NewCount(keyOf, was, items, i)
      {
        var stored := FoldOne(author, items, i, keyOf, was);
        i := i + 1;
        if stored {
          inserted := inserted + 1;
        }
      }
      assert items[..|items|] == items;
    }

    /** One turn of the fold loop: advance the cursor, then insert. */
    method FoldOne(author: string -> string, items: seq<InboxItem>, i: nat, ghost keyOf: string -> string, ghost was: Threads)
      returns (stored: bool)
      requires i < |items| && keyOf(items[i].sender) == CanonicalLabel(author(items[i].sender))
      requires Value() == Folded(keyOf, was, items[..i])
      modifies this
      ensures Value() == Folded(keyOf, was, items[..i + 1])
      ensures stored <==> IsNew(keyOf, was, items, i)
    {
      FoldStep(keyOf, was, items, i);
      ghost var mid := Value();
      cursorMs := Max(cursorMs, items[i].createdMs);
      assert Value() == mid.(cursorMs := Max(mid.cursorMs, items[i].createdMs));
      stored := Insert(author(items[i].sender), MsgOf(items[i]));
    }

    method MarkRead(handle: string) returns (moved: bool)
      modifies this`readMs
      ensures Value() == MarkedRead(old(Value()), CanonicalLabel(handle))
      ensures moved <==> Value() != old(Value())
    {
      var key := CanonicalLabel(handle);
      var msgs := if key in threads then threads[key] else [];
      if msgs == [] {
        return false;
      }
      var newest := msgs[|msgs| - 1].atMs;
      if newest <= (if key in readMs then readMs[key] else I64_MIN) {
        return false;
      }
      assert key in readMs ==> readMs[key := newest][key] != readMs[key];
      readMs := readMs[key := newest];
      return true;
    }

    method Overview() returns (out: seq<Summary>)
      ensures IsOverview(Value(), out)
    {
      out := [];
      var left := threads.Keys;
      while left != {}
        invariant left <= threads.Keys
        invariant Rows(Value(), threads.Keys - left, out)
        invariant Ordered(out)
        decreases left
      {
        var key :| key in left;
        if threads[key] != [] {
          SlotRows(Value(), threads.Keys - left, out, key);
          SlotOrdered(out, SummaryOf(Value(), key));
          var msgs := threads[key];
          var last := msgs[|msgs| - 1];
          var read := if key in readMs then readMs[key] else I64_MIN;
          out := Slot(out, Summary(key, last.text, last.atMs, last.outbound, UnreadSince(msgs, read)));
        }
        assert threads.Keys - (left - {key}) == (threads.Keys - left) + {key};
        left := left - {key};
      }
      assert threads.Keys - {} == threads.Keys;
    }
  }
}
