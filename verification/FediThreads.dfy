/** The durable store of fediverse direct-message threads
    (crates/fetchit-chat/src/fedi_thread.rs): insertion with dedup and stable
    sort, folding of a pulled inbox batch, read marks and unread counts. */
module FediThreads {
  import opened Basics
  import opened StableSorting
  import opened WhiteSpace

  const I64_MIN: int := -0x8000_0000_0000_0000
  const I64_MAX: int := 0x7fff_ffff_ffff_ffff
  const U32_MAX: nat := 0xffff_ffff

  type I64 = x: int | I64_MIN <= x <= I64_MAX

  // ---------------------------------------------------------------- labels

  function Lower(s: string): (r: string)
    ensures |r| == |s|
    ensures forall i :: 0 <= i < |s| ==> r[i] == LowerChar(s[i])
  {
    seq(|s|, i requires 0 <= i < |s| => LowerChar(s[i]))
  }

  function StripAt(s: string): string {
    if s != [] && s[0] == '@' then s[1..] else s
  }

  /** Trimmed, one leading `@` removed, lower-cased. */
  function CanonicalLabel(s: string): string {
    Lower(StripAt(Trim(s)))
  }

  lemma LowerKeeps(c: char)
    ensures IsWhite(LowerChar(c)) == IsWhite(c)
    ensures (LowerChar(c) == '@') == (c == '@')
    ensures LowerChar(LowerChar(c)) == LowerChar(c)
  {
  }

  /** A lower-cased string that does not end in white space is a fixed point
      unless it begins with `@` or white space. */
  lemma FixedPointIff(u: string)
    requires u != [] ==> !IsWhite(u[|u| - 1])
    ensures CanonicalLabel(Lower(u)) == Lower(u) <==> (u == [] || (u[0] != '@' && !IsWhite(u[0])))
  {
    var c := Lower(u);
    if u != [] {
      LowerKeeps(u[0]);
      LowerKeeps(u[|u| - 1]);
      if !IsWhite(u[0]) {
        assert Trim(c) == c;
        if u[0] != '@' {
          forall i | 0 <= i < |u| ensures Lower(c)[i] == c[i] {
            LowerKeeps(u[i]);
          }
        }
      }
    }
  }

  /** Canonicalising twice is canonicalising once, except exactly when the
      trimmed handle has `@` in front of another `@` or of white space. */
  lemma CanonicalIdempotentIff(s: string)
    ensures CanonicalLabel(CanonicalLabel(s)) == CanonicalLabel(s) <==>
            !(|Trim(s)| >= 2 && Trim(s)[0] == '@' && (Trim(s)[1] == '@' || IsWhite(Trim(s)[1])))
  {
    FixedPointIff(StripAt(Trim(s)));
  }

  /** The label of a handle: white space around it and one `@` in front are taken
      off, and capital letters become small; nothing else changes. */
  lemma LabelParts(s: string) returns (a: string, at: string, u: string, b: string)
    ensures s == a + at + u + b && AllWhite(a) && AllWhite(b) && (at == "@" || at == "")
    ensures at + u != [] ==> !IsWhite((at + u)[0]) && !IsWhite((at + u)[|at + u| - 1])
    ensures at == "" && u != [] ==> u[0] != '@'
    ensures |CanonicalLabel(s)| == |u|
    ensures forall i :: 0 <= i < |u| ==>
              CanonicalLabel(s)[i] as int == if 'A' <= u[i] <= 'Z' then u[i] as int + 32 else u[i] as int
  {
    hide Trim, IsWhite, AllWhite;
    a, b := TrimParts(s);
    var t := Trim(s);
    u := StripAt(t);
    at := if t != [] && t[0] == '@' then "@" else "";
    assert t == at + u;
  }

  lemma DoubledAtIsNotAFixedPoint()
    ensures CanonicalLabel("@@x") == "@x" && CanonicalLabel("@x") == "x"
  {
    assert Trim("@@x") == "@@x" && StripAt("@@x") == "@x";
    assert Trim("@x") == "@x" && StripAt("@x") == "x";
    assert Lower("@x") == "@x" && Lower("x") == "x";
  }

  // ----------------------------------------------------------------- store

  datatype Msg = Msg(outbound: bool, text: string, noteId: string, atMs: I64, peer: string, delivered: bool)

  datatype InboxItem = InboxItem(sender: string, noteId: string, text: string, published: string, createdMs: I64)

  datatype Threads = Threads(cursorMs: I64, threads: map<string, seq<Msg>>, readMs: map<string, I64>)

  const EMPTY := Threads(0, map[], map[])

  function StampOf(m: Msg): int { m.atMs }

  function Thread(t: Threads, handle: string): seq<Msg> {
    if handle in t.threads then t.threads[handle] else []
  }

  predicate HasNote(msgs: seq<Msg>, id: string) {
    exists i :: 0 <= i < |msgs| && msgs[i].noteId == id
  }

  ghost predicate UniqueNotes(msgs: seq<Msg>) {
    forall i, j :: 0 <= i < j < |msgs| ==> msgs[i].noteId != msgs[j].noteId
  }

  /** What every thread of every reachable store satisfies. */
  ghost predicate WellFormed(t: Threads) {
    forall handle :: handle in t.threads ==> Sorted(StampOf, t.threads[handle]) && UniqueNotes(t.threads[handle])
  }

  /** `insert`, given the canonical label of the thread. */
  function Inserted(t: Threads, key: string, msg: Msg): Threads {
    var list := Thread(t, key);
    if HasNote(list, msg.noteId) then t
    else t.(threads := t.threads[key := StableSort(StampOf, list + [msg])])
  }

  lemma SortSplices(was: seq<Msg>, msg: Msg) returns (k: nat)
    requires Sorted(StampOf, was)
    ensures k <= |was|
    ensures StableSort(StampOf, was + [msg]) == was[..k] + [msg] + was[k..]
    ensures forall i :: 0 <= i < k ==> was[i].atMs <= msg.atMs
    ensures forall i :: k <= i < |was| ==> msg.atMs < was[i].atMs
  {
    SortedFixed(StampOf, was);
    SortSnoc(StampOf, was, msg);
    k := PlaceSplits(StampOf, was, msg);
    forall i | 0 <= i < |was| ensures StampOf(was[i]) == was[i].atMs {}
  }

  /** A new message goes behind every message stamped no later and in front of
      every later one; nothing else in the store moves. */
  lemma InsertSplits(t: Threads, key: string, msg: Msg) returns (k: nat)
    requires WellFormed(t)
    requires !HasNote(Thread(t, key), msg.noteId)
    ensures k <= |Thread(t, key)|
    ensures Inserted(t, key, msg) == t.(threads := t.threads[key := Thread(t, key)[..k] + [msg] + Thread(t, key)[k..]])
    ensures forall i :: 0 <= i < k ==> Thread(t, key)[i].atMs <= msg.atMs
    ensures forall i :: k <= i < |Thread(t, key)| ==> msg.atMs < Thread(t, key)[i].atMs
  {
    k := SortSplices(Thread(t, key), msg);
  }

  lemma SpliceKeepsUnique(was: seq<Msg>, msg: Msg, k: nat)
    requires k <= |was| && UniqueNotes(was) && !HasNote(was, msg.noteId)
    ensures UniqueNotes(was[..k] + [msg] + was[k..])
  {
    var now := was[..k] + [msg] + was[k..];
    assert forall i :: 0 <= i < |was| ==> was[i].noteId != msg.noteId;
    assert forall i :: 0 <= i < |now| ==> now[i] == if i < k then was[i] else if i == k then msg else was[i - 1];
  }

  lemma InsertKeepsWellFormed(t: Threads, key: string, msg: Msg)
    requires WellFormed(t)
    ensures WellFormed(Inserted(t, key, msg))
  {
    var was := Thread(t, key);
    if !HasNote(was, msg.noteId) {
      var k := InsertSplits(t, key, msg);
      SpliceKeepsUnique(was, msg, k);
      StableSortCorrect(StampOf, was + [msg]);
    }
  }

  lemma InsertMembers(t: Threads, key: string, msg: Msg)
    ensures var t' := Inserted(t, key, msg);
            && (forall l :: l != key ==> Thread(t', l) == Thread(t, l))
            && (forall m :: m in Thread(t', key) <==>
                  m in Thread(t, key) || (m == msg && !HasNote(Thread(t, key), msg.noteId)))
            && t'.cursorMs == t.cursorMs && t'.readMs == t.readMs
  {
    var was := Thread(t, key);
    SortMembers(StampOf, was + [msg]);
    assert forall m :: m in was + [msg] <==> m in was || m == msg;
  }

  // ------------------------------------------------- arrival-order reference

  datatype Arrival = Arrival(key: string, msg: Msg)

  function InsertAll(t: Threads, xs: seq<Arrival>): Threads {
    if xs == [] then t
    else Inserted(InsertAll(t, xs[..|xs| - 1]), xs[|xs| - 1].key, xs[|xs| - 1].msg)
  }

  /** The messages for thread `key` in arrival order, repeated note ids dropped. */
  function Arrivals(xs: seq<Arrival>, key: string): seq<Msg> {
    if xs == [] then []
    else
      var front, last := Arrivals(xs[..|xs| - 1], key), xs[|xs| - 1];
      if last.key == key && !HasNote(front, last.msg.noteId) then front + [last.msg] else front
  }

  lemma SortHasNote(a: seq<Msg>, id: string)
    ensures HasNote(StableSort(StampOf, a), id) <==> HasNote(a, id)
  {
    var s := StableSort(StampOf, a);
    SortMembers(StampOf, a);
    if HasNote(s, id) {
      var i :| 0 <= i < |s| && s[i].noteId == id;
      assert s[i] in a;
    }
    if HasNote(a, id) {
      var i :| 0 <= i < |a| && a[i].noteId == id;
      assert a[i] in s;
    }
  }

  lemma ResortSnoc(a: seq<Msg>, m: Msg)
    ensures StableSort(StampOf, StableSort(StampOf, a) + [m]) == StableSort(StampOf, a + [m])
  {
    var s := StableSort(StampOf, a);
    StableSortCorrect(StampOf, a);
    SortedFixed(StampOf, s);
    SortSnoc(StampOf, s, m);
    SortSnoc(StampOf, a, m);
  }

  lemma SortNothing()
    ensures StableSort(StampOf, []) == []
  {
  }

  /** However messages were interleaved, a thread is the stable sort of what
      arrived for it: sorted, without repeats, equal stamps in arrival order. */
  lemma {:induction false} ThreadIsSortedArrivals(xs: seq<Arrival>, key: string)
    ensures Thread(InsertAll(EMPTY, xs), key) == StableSort(StampOf, Arrivals(xs, key))
  {
    hide HasNote, StableSort;
    if xs == [] {
      SortNothing();
    } else {
      var front, last := xs[..|xs| - 1], xs[|xs| - 1];
      ThreadIsSortedArrivals(front, key);
      SortHasNote(Arrivals(front, key), last.msg.noteId);
      ResortSnoc(Arrivals(front, key), last.msg);
    }
  }

  // ------------------------------------------------------------------ fold

  function MsgOf(it: InboxItem): Msg {
    Msg(false, it.text, it.noteId, it.createdMs, it.sender, false)
  }

  /** The thread an inbox item belongs to; `keyOf` takes an actor URL to its
      canonical label. */
  function LabelOf(keyOf: string -> string, it: InboxItem): string {
    keyOf(it.sender)
  }

  function Max(a: I64, b: I64): I64 { if a < b then b else a }

  function Folded(keyOf: string -> string, t: Threads, items: seq<InboxItem>): Threads {
    if items == [] then t
    else
      var t', it := Folded(keyOf, t, items[..|items| - 1]), items[|items| - 1];
      Inserted(t'.(cursorMs := Max(t'.cursorMs, it.createdMs)), keyOf(it.sender), MsgOf(it))
  }

  /** Item `i` is new: neither stored before the batch nor earlier in it. */
  predicate IsNew(keyOf: string -> string, t: Threads, items: seq<InboxItem>, i: nat)
    requires i < |items|
  {
    var handle := LabelOf(keyOf, items[i]);
    && !HasNote(Thread(t, handle), items[i].noteId)
    && forall j :: 0 <= j < i && LabelOf(keyOf, items[j]) == handle ==> items[j].noteId != items[i].noteId
  }

  /** How many of the first `n` items are new. */
  function NewCount(keyOf: string -> string, t: Threads, items: seq<InboxItem>, n: nat): nat
    requires n <= |items|
  {
    if n == 0 then 0
    else NewCount(keyOf, t, items, n - 1) + if IsNew(keyOf, t, items, n - 1) then 1 else 0
  }

  /** `m` enters thread `key` with the batch. */
  ghost predicate Brought(keyOf: string -> string, t: Threads, items: seq<InboxItem>, key: string, m: Msg) {
    exists i :: 0 <= i < |items| && LabelOf(keyOf, items[i]) == key && MsgOf(items[i]) == m && IsNew(keyOf, t, items, i)
  }

  ghost predicate HoldsBatch(keyOf: string -> string, t: Threads, items: seq<InboxItem>, t': Threads) {
    forall key, m :: m in Thread(t', key) <==> m in Thread(t, key) || Brought(keyOf, t, items, key, m)
  }

  /** The message says what the inbox item says. */
  ghost predicate Says(m: Msg, it: InboxItem) {
    !m.outbound && m.text == it.text && m.noteId == it.noteId && m.atMs == it.createdMs && m.peer == it.sender && !m.delivered
  }

  /** At one index of the thread is what the item says, and nowhere else its id. */
  ghost predicate SaidOnce(thread: seq<Msg>, it: InboxItem) {
    exists k :: 0 <= k < |thread| && Says(thread[k], it)
                && forall j :: 0 <= j < |thread| && j != k ==> thread[j].noteId != it.noteId
  }

  lemma MsgOfSays(it: InboxItem, m: Msg)
    ensures m == MsgOf(it) <==> Says(m, it)
  {
  }

  lemma MemberSaidOnce(thread: seq<Msg>, it: InboxItem)
    requires UniqueNotes(thread) && MsgOf(it) in thread
    ensures SaidOnce(thread, it)
  {
    var k :| 0 <= k < |thread| && thread[k] == MsgOf(it);
    MsgOfSays(it, thread[k]);
  }

  lemma IsNewInPrefix(keyOf: string -> string, t: Threads, items: seq<InboxItem>, n: nat, i: nat)
    requires i < n <= |items|
    ensures items[..n][i] == items[i]
    ensures IsNew(keyOf, t, items[..n], i) <==> IsNew(keyOf, t, items, i)
  {
    assert forall j :: 0 <= j <= i ==> items[..n][j] == items[j];
  }

  lemma BroughtSnoc(keyOf: string -> string, t: Threads, items: seq<InboxItem>, key: string, m: Msg)
    requires items != []
    ensures var n := |items| - 1;
            Brought(keyOf, t, items, key, m) <==>
            || Brought(keyOf, t, items[..n], key, m)
            || (LabelOf(keyOf, items[n]) == key && MsgOf(items[n]) == m && IsNew(keyOf, t, items, n))
  {
    hide IsNew, MsgOf;
    var n := |items| - 1;
    forall i | 0 <= i < n
      ensures items[..n][i] == items[i] && IsNew(keyOf, t, items[..n], i) == IsNew(keyOf, t, items, i)
    {
      IsNewInPrefix(keyOf, t, items, n, i);
    }
    if Brought(keyOf, t, items[..n], key, m) {
      var i :| 0 <= i < n && LabelOf(keyOf, items[..n][i]) == key && MsgOf(items[..n][i]) == m && IsNew(keyOf, t, items[..n], i);
      assert LabelOf(keyOf, items[i]) == key && MsgOf(items[i]) == m && IsNew(keyOf, t, items, i);
    }
    if Brought(keyOf, t, items, key, m) {
      var i :| 0 <= i < |items| && LabelOf(keyOf, items[i]) == key && MsgOf(items[i]) == m && IsNew(keyOf, t, items, i);
      if i < n {
        assert LabelOf(keyOf, items[..n][i]) == key && MsgOf(items[..n][i]) == m && IsNew(keyOf, t, items[..n], i);
      }
    }
  }

  /** A folded store holds what it held before plus exactly the new items, each
      in its sender's thread. */
  lemma {:induction false} FoldMembers(keyOf: string -> string, t: Threads, items: seq<InboxItem>)
    ensures HoldsBatch(keyOf, t, items, Folded(keyOf, t, items))
    ensures Folded(keyOf, t, items).readMs == t.readMs
  {
    hide IsNew, HasNote, Inserted;
    if items != [] {
      var n := |items| - 1;
      var it := items[n];
      FoldMembers(keyOf, t, items[..n]);
      var mid := Folded(keyOf, t, items[..n]);
      var bumped := mid.(cursorMs := Max(mid.cursorMs, it.createdMs));
      InsertMembers(bumped, keyOf(it.sender), MsgOf(it));
      FoldedHasNote(keyOf, t, items, n);
      forall key, m
        ensures m in Thread(Folded(keyOf, t, items), key) <==> m in Thread(t, key) || Brought(keyOf, t, items, key, m)
      {
        BroughtSnoc(keyOf, t, items, key, m);
        assert Thread(bumped, key) == Thread(mid, key);
        assert m in Thread(mid, key) <==> m in Thread(t, key) || Brought(keyOf, t, items[..n], key, m);
      }
    } else {
      assert forall key, m :: !Brought(keyOf, t, items, key, m);
    }
  }

  /** Before item `n` is folded, its thread has its note id iff it is not new. */
  lemma FoldedHasNote(keyOf: string -> string, t: Threads, items: seq<InboxItem>, n: nat)
    requires n < |items|
    requires HoldsBatch(keyOf, t, items[..n], Folded(keyOf, t, items[..n]))
    ensures HasNote(Thread(Folded(keyOf, t, items[..n]), LabelOf(keyOf, items[n])), items[n].noteId) <==> !IsNew(keyOf, t, items, n)
  {
    var front := items[..n];
    var key, id := LabelOf(keyOf, items[n]), items[n].noteId;
    var now := Thread(Folded(keyOf, t, front), key);
    if HasNote(now, id) {
      var k :| 0 <= k < |now| && now[k].noteId == id;
      assert now[k] in now;
      if now[k] in Thread(t, key) {
        assert HasNote(Thread(t, key), id);
      } else {
        assert Brought(keyOf, t, front, key, now[k]);
        var i :| 0 <= i < n && LabelOf(keyOf, front[i]) == key && MsgOf(front[i]) == now[k] && IsNew(keyOf, t, front, i);
        assert items[i] == front[i];
      }
    }
    if !IsNew(keyOf, t, items, n) {
      if HasNote(Thread(t, key), id) {
        var k :| 0 <= k < |Thread(t, key)| && Thread(t, key)[k].noteId == id;
        assert Thread(t, key)[k] in now;
      } else {
        var j :| 0 <= j < n && LabelOf(keyOf, items[j]) == key && items[j].noteId == id;
        var i := FirstNew(keyOf, t, items, n, j);
        IsNewInPrefix(keyOf, t, items, n, i);
        assert Brought(keyOf, t, front, key, MsgOf(front[i]));
        assert MsgOf(front[i]) in now;
      }
    }
  }

  /** The earliest item carrying a note id not yet in its thread is new. */
  lemma {:induction false} FirstNew(keyOf: string -> string, t: Threads, items: seq<InboxItem>, n: nat, j: nat) returns (i: nat)
    requires j < n <= |items|
    requires !HasNote(Thread(t, LabelOf(keyOf, items[j])), items[j].noteId)
    ensures i <= j && IsNew(keyOf, t, items, i)
    ensures LabelOf(keyOf, items[i]) == LabelOf(keyOf, items[j]) && items[i].noteId == items[j].noteId
  {
    if IsNew(keyOf, t, items, j) {
      i := j;
    } else {
      var k :| 0 <= k < j && LabelOf(keyOf, items[k]) == LabelOf(keyOf, items[j]) && items[k].noteId == items[j].noteId;
      i := FirstNew(keyOf, t, items, n, k);
    }
  }

  lemma {:induction false} FoldKeepsWellFormed(keyOf: string -> string, t: Threads, items: seq<InboxItem>)
    requires WellFormed(t)
    ensures WellFormed(Folded(keyOf, t, items))
  {
    if items != [] {
      FoldKeepsWellFormed(keyOf, t, items[..|items| - 1]);
      var t', it := Folded(keyOf, t, items[..|items| - 1]), items[|items| - 1];
      InsertKeepsWellFormed(t'.(cursorMs := Max(t'.cursorMs, it.createdMs)), keyOf(it.sender), MsgOf(it));
    }
  }

  /** After a fold, an item that was new is in its sender's thread with its own
      text, id, stamp and sender, once. */
  lemma FoldStores(keyOf: string -> string, t: Threads, items: seq<InboxItem>, i: nat)
    requires WellFormed(t) && i < |items| && IsNew(keyOf, t, items, i)
    ensures SaidOnce(Thread(Folded(keyOf, t, items), keyOf(items[i].sender)), items[i])
  {
    hide Folded, IsNew;
    FoldMembers(keyOf, t, items);
    FoldKeepsWellFormed(keyOf, t, items);
    assert Brought(keyOf, t, items, keyOf(items[i].sender), MsgOf(items[i]));
    MemberSaidOnce(Thread(Folded(keyOf, t, items), keyOf(items[i].sender)), items[i]);
  }

  /** The cursor after a batch: the greatest of the old one and the stamps. */
  function CursorOver(c: I64, items: seq<InboxItem>): I64 {
    if items == [] then c else Max(CursorOver(c, items[..|items| - 1]), items[|items| - 1].createdMs)
  }

  lemma {:induction false} FoldedCursor(keyOf: string -> string, t: Threads, items: seq<InboxItem>)
    ensures Folded(keyOf, t, items).cursorMs == CursorOver(t.cursorMs, items)
  {
    if items != [] {
      FoldedCursor(keyOf, t, items[..|items| - 1]);
    }
  }

  lemma {:induction false} CursorOverIsMax(c: I64, items: seq<InboxItem>)
    ensures c <= CursorOver(c, items)
    ensures forall i :: 0 <= i < |items| ==> items[i].createdMs <= CursorOver(c, items)
    ensures CursorOver(c, items) == c || exists i :: 0 <= i < |items| && items[i].createdMs == CursorOver(c, items)
  {
    if items != [] {
      var n := |items| - 1;
      CursorOverIsMax(c, items[..n]);
      assert forall i :: 0 <= i < n ==> items[..n][i] == items[i];
    }
  }

  /** The cursor never moves back, is past every item folded, and if it moved
      it is the stamp of one of them. */
  lemma FoldCursor(keyOf: string -> string, t: Threads, items: seq<InboxItem>)
    ensures var c := Folded(keyOf, t, items).cursorMs;
            && t.cursorMs <= c
            && (forall i :: 0 <= i < |items| ==> items[i].createdMs <= c)
            && (c == t.cursorMs || exists i :: 0 <= i < |items| && items[i].createdMs == c)
  {
    FoldedCursor(keyOf, t, items);
    CursorOverIsMax(t.cursorMs, items);
  }

  // ------------------------------------------------------- unread and marks

  /** Inbound messages newer than `read`. */
  function Newer(msgs: seq<Msg>, read: I64): nat {
    if msgs == [] then 0
    else Newer(msgs[..|msgs| - 1], read) + if !msgs[|msgs| - 1].outbound && msgs[|msgs| - 1].atMs > read then 1 else 0
  }

  /** `unread_since`: the count, saturating at u32::MAX. */
  function UnreadSince(msgs: seq<Msg>, read: I64): nat {
    if Newer(msgs, read) <= U32_MAX then Newer(msgs, read) else U32_MAX
  }

  function ReadMark(t: Threads, key: string): I64 {
    if key in t.readMs then t.readMs[key] else I64_MIN
  }

  /** `unread`, given the canonical label of the thread. */
  function Unread(t: Threads, key: string): nat {
    UnreadSince(Thread(t, key), ReadMark(t, key))
  }

  /** `mark_read`, given the canonical label of the thread. */
  function MarkedRead(t: Threads, key: string): Threads {
    var msgs := Thread(t, key);
    if msgs == [] || msgs[|msgs| - 1].atMs <= ReadMark(t, key) then t
    else t.(readMs := t.readMs[key := msgs[|msgs| - 1].atMs])
  }

  lemma {:induction false} NewerNone(msgs: seq<Msg>, read: I64)
    requires forall i :: 0 <= i < |msgs| ==> msgs[i].atMs <= read
    ensures Newer(msgs, read) == 0
  {
    if msgs != [] {
      NewerNone(msgs[..|msgs| - 1], read);
    }
  }

  /** Opening a thread clears its unread count, whatever was marked before, and
      changes no other thread's. */
  lemma MarkReadClears(t: Threads, key: string)
    requires WellFormed(t)
    ensures Unread(MarkedRead(t, key), key) == 0
    ensures forall other :: other != key ==> Unread(MarkedRead(t, key), other) == Unread(t, other)
  {
    var msgs, t' := Thread(t, key), MarkedRead(t, key);
    if msgs != [] {
      forall i | 0 <= i < |msgs| ensures msgs[i].atMs <= ReadMark(t', key) {
        assert StampOf(msgs[i]) <= StampOf(msgs[|msgs| - 1]);
      }
      NewerNone(msgs, ReadMark(t', key));
    }
  }

  /** The mark moves up to the newest message of the thread and no further, and
      never back; no other mark and no message changes. */
  lemma MarkIsNewest(t: Threads, key: string)
    requires WellFormed(t)
    ensures var t' := MarkedRead(t, key); var mark := ReadMark(t', key);
            && mark >= ReadMark(t, key) && (forall m <- Thread(t, key) :: m.atMs <= mark)
            && (mark == ReadMark(t, key) || exists m :: m in Thread(t, key) && m.atMs == mark)
            && (forall other :: other != key ==> ReadMark(t', other) == ReadMark(t, other))
            && t'.threads == t.threads && t'.cursorMs == t.cursorMs
  {
    var msgs := Thread(t, key);
    if msgs != [] {
      assert msgs[|msgs| - 1] in msgs;
      forall i | 0 <= i < |msgs| ensures msgs[i].atMs <= msgs[|msgs| - 1].atMs {
        assert StampOf(msgs[i]) <= StampOf(msgs[|msgs| - 1]);
      }
    }
  }

  /** The next inbound message after that is unread again. */
  lemma MarkReadRearms(t: Threads, key: string, m: Msg)
    requires WellFormed(t) && !m.outbound && !HasNote(Thread(t, key), m.noteId) && m.atMs > ReadMark(MarkedRead(t, key), key)
    ensures Unread(Inserted(MarkedRead(t, key), key, m), key) == 1
  {
    hide MarkedRead, Inserted;
    var t' := MarkedRead(t, key);
    MarkIsNewest(t, key);
    MarkReadClears(t, key);
    NewerInsert(t', key, m, key, ReadMark(t', key));
    InsertMembers(t', key, m);
  }

  /** Where the inbound messages newer than `read` are. */
  ghost function UnreadAt(msgs: seq<Msg>, read: I64): set<nat> {
    set i: nat | i < |msgs| && !msgs[i].outbound && msgs[i].atMs > read
  }

  lemma UnreadAtSnoc(front: seq<Msg>, last: Msg, read: I64)
    ensures UnreadAt(front + [last], read) == UnreadAt(front, read) + if !last.outbound && last.atMs > read then {|front|} else {}
  {
  }

  lemma {:induction false} NewerCounts(msgs: seq<Msg>, read: I64)
    ensures Newer(msgs, read) == |UnreadAt(msgs, read)|
  {
    if msgs == [] {
      assert UnreadAt([], read) == {};
    } else {
      var front, last := msgs[..|msgs| - 1], msgs[|msgs| - 1];
      NewerCounts(front, read);
      UnreadAtSnoc(front, last, read);
      assert msgs == front + [last] && |front| !in UnreadAt(front, read);
    }
  }

  lemma {:induction false} NewerPlace(s: seq<Msg>, m: Msg, read: I64)
    ensures Newer(Place(StampOf, s, m), read) == Newer(s, read) + if !m.outbound && m.atMs > read then 1 else 0
  {
    if s != [] {
      var front, last := s[..|s| - 1], s[|s| - 1];
      if StampOf(last) <= StampOf(m) {
        assert (s + [m])[..|s + [m]| - 1] == s;
      } else {
        NewerPlace(front, m, read);
        var p := Place(StampOf, front, m);
        assert (p + [last])[..|p + [last]| - 1] == p;
      }
    }
  }

  /** Newly inserted rows of thread `key`, among the first `n`, newer than `read`. */
  function NewUnread(keyOf: string -> string, t: Threads, items: seq<InboxItem>, n: nat, key: string, read: I64): nat
    requires n <= |items|
  {
    if n == 0 then 0
    else NewUnread(keyOf, t, items, n - 1, key, read)
         + if IsNew(keyOf, t, items, n - 1) && LabelOf(keyOf, items[n - 1]) == key && items[n - 1].createdMs > read then 1 else 0
  }

  lemma {:induction false} NewUnreadPrefix(keyOf: string -> string, t: Threads, items: seq<InboxItem>, k: nat, n: nat, key: string, read: I64)
    requires k <= n <= |items|
    ensures NewUnread(keyOf, t, items[..n], k, key, read) == NewUnread(keyOf, t, items, k, key, read)
  {
    if k > 0 {
      NewUnreadPrefix(keyOf, t, items, k - 1, n, key, read);
      IsNewInPrefix(keyOf, t, items, n, k - 1);
    }
  }

  lemma NewerInsert(t: Threads, at: string, m: Msg, key: string, read: I64)
    requires WellFormed(t)
    ensures Newer(Thread(Inserted(t, at, m), key), read) ==
            Newer(Thread(t, key), read)
            + if at == key && !HasNote(Thread(t, key), m.noteId) && !m.outbound && m.atMs > read then 1 else 0
  {
    NewerSortSnoc(Thread(t, at), m, read);
  }

  lemma NewerSortSnoc(was: seq<Msg>, m: Msg, read: I64)
    requires Sorted(StampOf, was)
    ensures Newer(StableSort(StampOf, was + [m]), read) == Newer(was, read) + if !m.outbound && m.atMs > read then 1 else 0
  {
    SortedFixed(StampOf, was);
    SortSnoc(StampOf, was, m);
    NewerPlace(was, m, read);
  }

  lemma {:induction false} FoldNewer(keyOf: string -> string, t: Threads, items: seq<InboxItem>, key: string, read: I64)
    requires WellFormed(t)
    ensures Newer(Thread(Folded(keyOf, t, items), key), read) ==
            Newer(Thread(t, key), read) + NewUnread(keyOf, t, items, |items|, key, read)
  {
    if items != [] {
      var n := |items| - 1;
      FoldNewer(keyOf, t, items[..n], key, read);
      NewUnreadPrefix(keyOf, t, items, n, n, key, read);
      FoldMembers(keyOf, t, items[..n]);
      FoldedHasNote(keyOf, t, items, n);
      FoldKeepsWellFormed(keyOf, t, items[..n]);
      var mid := Folded(keyOf, t, items[..n]);
      NewerInsert(mid.(cursorMs := Max(mid.cursorMs, items[n].createdMs)), keyOf(items[n].sender), MsgOf(items[n]), key, read);
    }
  }

  /** A folded batch raises a thread's unread count by exactly the rows that
      were new to that thread and newer than its read mark. */
  lemma FoldRaisesUnread(keyOf: string -> string, t: Threads, items: seq<InboxItem>, key: string)
    requires WellFormed(t)
    ensures var n := Newer(Thread(t, key), ReadMark(t, key)) + NewUnread(keyOf, t, items, |items|, key, ReadMark(t, key));
            Unread(Folded(keyOf, t, items), key) == if n <= U32_MAX then n else U32_MAX
  {
    FoldNewer(keyOf, t, items, key, ReadMark(t, key));
    FoldMembers(keyOf, t, items);
  }
}
