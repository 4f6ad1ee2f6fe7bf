/** The bridge inbox table and the device's load / fetch / save operations on
    the sealed thread store, interleaved step by step
    (crates/fetchit-bridge-server/src/store.rs, crates/fetchit-chat/src/fedi_dm.rs). */
module InboxSync {
  import opened StableSorting
  import opened FediThreads

  // ------------------------------------------------------------ bridge table

  /** A row of `inbox_messages`; the table is a sequence in rowid order. */
  datatype Row = Row(actor: string, item: InboxItem)

  predicate HasRow(table: seq<Row>, actor: string, noteId: string) {
    exists r :: r in table && r.actor == actor && r.item.noteId == noteId
  }

  /** `inbox_insert`: `INSERT OR IGNORE` under `UNIQUE (actor_id, note_id)`. */
  function InboxInserted(table: seq<Row>, row: Row): seq<Row> {
    if HasRow(table, row.actor, row.item.noteId) then table else table + [row]
  }

  ghost predicate UniqueRows(table: seq<Row>) {
    forall i, j :: 0 <= i < j < |table| ==> table[i].actor != table[j].actor || table[i].item.noteId != table[j].item.noteId
  }

  /** `WHERE actor_id = ? AND created_ms > ?`, in rowid order. */
  function Eligible(table: seq<Row>, actor: string, since: I64): seq<InboxItem> {
    if table == [] then []
    else
      var front, last := Eligible(table[..|table| - 1], actor, since), table[|table| - 1];
      if last.actor == actor && last.item.createdMs > since then front + [last.item] else front
  }

  function Received(it: InboxItem): int { it.createdMs }

  /** `ORDER BY created_ms ASC, id ASC`. */
  function InOrder(table: seq<Row>, actor: string, since: I64): seq<InboxItem> {
    StableSort(Received, Eligible(table, actor, since))
  }

  /** `inbox_list`. */
  function Page(table: seq<Row>, actor: string, since: I64, limit: nat): seq<InboxItem> {
    var all := InOrder(table, actor, since);
    if |all| <= limit then all else all[..limit]
  }

  /** LIMIT falls between two rows received in the same millisecond. */
  predicate CutsTie(table: seq<Row>, actor: string, since: I64, limit: nat) {
    var all := InOrder(table, actor, since);
    0 < limit < |all| && all[limit - 1].createdMs == all[limit].createdMs
  }

  lemma {:induction false} EligibleMembers(table: seq<Row>, actor: string, since: I64)
    ensures forall it :: it in Eligible(table, actor, since) <==>
                         Row(actor, it) in table && it.createdMs > since
  {
    if table != [] {
      EligibleMembers(table[..|table| - 1], actor, since);
      assert table == table[..|table| - 1] + [table[|table| - 1]];
    }
  }

  lemma InOrderMembers(table: seq<Row>, actor: string, since: I64)
    ensures forall it :: it in InOrder(table, actor, since) <==>
                         Row(actor, it) in table && it.createdMs > since
  {
    EligibleMembers(table, actor, since);
    SortMembers(Received, Eligible(table, actor, since));
  }

  lemma InOrderSorted(table: seq<Row>, actor: string, since: I64)
    ensures var all := InOrder(table, actor, since);
            forall i, j :: 0 <= i < j < |all| ==> all[i].createdMs <= all[j].createdMs
  {
    var all := InOrder(table, actor, since);
    StableSortCorrect(Received, Eligible(table, actor, since));
    forall i, j | 0 <= i < j < |all| ensures all[i].createdMs <= all[j].createdMs {
      assert Received(all[i]) <= Received(all[j]);
    }
  }

  lemma {:induction false} EligibleOnce(table: seq<Row>, actor: string, since: I64, it: InboxItem)
    requires UniqueRows(table)
    ensures multiset(Eligible(table, actor, since))[it] <= 1
  {
    if table != [] {
      var front, last := table[..|table| - 1], table[|table| - 1];
      EligibleOnce(front, actor, since, it);
      if last.actor == actor && last.item == it {
        EligibleMembers(front, actor, since);
        assert Row(actor, it) !in front;
        assert it !in multiset(Eligible(front, actor, since));
      }
    }
  }

  lemma SameTwice<T>(s: seq<T>, j: nat, k: nat)
    requires j < k < |s| && s[j] == s[k]
    ensures multiset(s)[s[j]] >= 2
  {
    assert s == s[..k] + [s[k]] + s[k + 1..];
    assert s[j] in multiset(s[..k]);
  }

  /** The listing shows no row twice. */
  lemma InOrderDistinct(table: seq<Row>, actor: string, since: I64, j: nat, k: nat)
    requires UniqueRows(table)
    requires j < k < |InOrder(table, actor, since)|
    ensures InOrder(table, actor, since)[j] != InOrder(table, actor, since)[k]
  {
    var all := InOrder(table, actor, since);
    if all[j] == all[k] {
      SameTwice(all, j, k);
      EligibleOnce(table, actor, since, all[j]);
    }
  }

  // ----------------------------------------------------------------- device

  /** The owner's actor id, and the thread key of a sender's actor URL. */
  datatype Device = Device(me: string, keyOf: string -> string)

  /** An operation between its load and its save: a sync that still waits for
      the bridge, or any operation ready to write its copy back. */
  datatype Session = Pulling(store: Threads) | Ready(store: Threads)

  datatype World = World(table: seq<Row>, disk: Threads, sessions: map<nat, Session>)

  const START := World([], EMPTY, map[])

  datatype Event =
    | Deliver(row: Row)
    | BeginSync(sid: nat)
    | Fetch(sid: nat, limit: nat)
    | Send(sid: nat, key: string, msg: Msg)
    | MarkRead(sid: nat, key: string)
    | Save(sid: nat)
    | Abandon(sid: nat)

  function Sent(msg: Msg): Msg { msg.(outbound := true) }

  /** One step; an event that does not apply changes nothing. */
  function Step(d: Device, w: World, e: Event): World {
    match e
    case Deliver(row) => w.(table := InboxInserted(w.table, row))
    case BeginSync(sid) =>
      if sid in w.sessions then w else w.(sessions := w.sessions[sid := Pulling(w.disk)])
    case Fetch(sid, limit) =>
      if sid in w.sessions && w.sessions[sid].Pulling? then
        var x := w.sessions[sid].store;
        var page := Page(w.table, d.me, x.cursorMs, limit);
        if page == [] then w.(sessions := w.sessions - {sid})
        else w.(sessions := w.sessions[sid := Ready(Folded(d.keyOf, x, page))])
      else w
    case Send(sid, key, msg) =>
      if sid in w.sessions then w
      else w.(sessions := w.sessions[sid := Ready(Inserted(w.disk, key, Sent(msg)))])
    case MarkRead(sid, key) =>
      if sid in w.sessions || MarkedRead(w.disk, key) == w.disk then w
      else w.(sessions := w.sessions[sid := Ready(MarkedRead(w.disk, key))])
    case Save(sid) =>
      if sid in w.sessions && w.sessions[sid].Ready?
      then w.(disk := w.sessions[sid].store, sessions := w.sessions - {sid})
      else w
    case Abandon(sid) => w.(sessions := w.sessions - {sid})
  }

  function RunFrom(d: Device, w: World, es: seq<Event>): World {
    if es == [] then w else Step(d, RunFrom(d, w, es[..|es| - 1]), es[|es| - 1])
  }

  function Run(d: Device, es: seq<Event>): World { RunFrom(d, START, es) }

  // -------------------------------------------------------------- invariant

  ghost predicate Stored(d: Device, x: Threads, it: InboxItem) {
    MsgOf(it) in Thread(x, d.keyOf(it.sender))
  }

  /** Stored means in the sender's thread, saying what the item says. */
  lemma StoredSays(d: Device, x: Threads, it: InboxItem)
    ensures Stored(d, x, it) <==> exists m :: m in Thread(x, d.keyOf(it.sender)) && Says(m, it)
  {
    MsgOfSays(it, MsgOf(it));
    forall m ensures m == MsgOf(it) <==> Says(m, it) {
      MsgOfSays(it, m);
    }
  }

  /** No bridge message at or before the cursor is missing. */
  ghost predicate Covers(d: Device, table: seq<Row>, x: Threads) {
    forall it :: Row(d.me, it) in table && it.createdMs <= x.cursorMs ==> Stored(d, x, it)
  }

  ghost predicate FromBridge(d: Device, table: seq<Row>, key: string, m: Msg) {
    exists it :: Row(d.me, it) in table && d.keyOf(it.sender) == key && MsgOf(it) == m
  }

  /** Every inbound message came from the bridge, is in its sender's thread and
      is not past the cursor. */
  ghost predicate Traced(d: Device, table: seq<Row>, x: Threads) {
    forall key, m :: m in Thread(x, key) && !m.outbound ==> m.atMs <= x.cursorMs && FromBridge(d, table, key, m)
  }

  /** What every copy of the store satisfies in every run, whatever happens. */
  ghost predicate Sound(d: Device, table: seq<Row>, x: Threads) { WellFormed(x) && Traced(d, table, x) }

  ghost predicate StoreOk(d: Device, table: seq<Row>, x: Threads) { Sound(d, table, x) && Covers(d, table, x) }

  ghost predicate Inv(d: Device, w: World) {
    && UniqueRows(w.table)
    && StoreOk(d, w.table, w.disk)
    && forall sid :: sid in w.sessions ==> StoreOk(d, w.table, w.sessions[sid].store)
  }

  // --------------------------------------------------- what makes a step safe

  /** An item of the page carries the note id of a message we sent in its
      thread, so folding the page drops it as a repeat. */
  ghost predicate Clashes(d: Device, x: Threads, page: seq<InboxItem>) {
    exists i, m :: 0 <= i < |page| && m in Thread(x, d.keyOf(page[i].sender)) && m.outbound && m.noteId == page[i].noteId
  }

  /** The exact condition under which a step keeps the cursor's promise. */
  ghost predicate Safe(d: Device, w: World, e: Event) {
    match e
    case Deliver(row) =>
      row.actor == d.me && !HasRow(w.table, d.me, row.item.noteId) ==>
        && row.item.createdMs > w.disk.cursorMs
        && forall sid :: sid in w.sessions ==> row.item.createdMs > w.sessions[sid].store.cursorMs
    case Fetch(sid, limit) =>
      sid in w.sessions && w.sessions[sid].Pulling? ==>
        var x := w.sessions[sid].store;
        && !CutsTie(w.table, d.me, x.cursorMs, limit)
        && !Clashes(d, x, Page(w.table, d.me, x.cursorMs, limit))
    case _ => true
  }

  lemma TableGrows(table: seq<Row>, row: Row)
    ensures forall r :: r in table + [row] <==> r in table || r == row
  {
  }

  lemma GrowFromBridge(d: Device, table: seq<Row>, row: Row, key: string, m: Msg)
    requires FromBridge(d, table, key, m)
    ensures FromBridge(d, table + [row], key, m)
  {
    var it :| Row(d.me, it) in table && d.keyOf(it.sender) == key && MsgOf(it) == m;
    assert Row(d.me, it) in table + [row];
  }

  lemma NotStoredYet(d: Device, table: seq<Row>, x: Threads, it: InboxItem)
    requires Traced(d, table, x) && !HasRow(table, d.me, it.noteId)
    ensures !Stored(d, x, it)
  {
  }

  lemma DeliverSound(d: Device, table: seq<Row>, x: Threads, row: Row)
    requires Sound(d, table, x)
    ensures Sound(d, table + [row], x)
  {
    forall key, m | m in Thread(x, key) && !m.outbound ensures FromBridge(d, table + [row], key, m) {
      GrowFromBridge(d, table, row, key, m);
    }
  }

  /** A newly delivered row keeps the promise of a store exactly when the store
      has not read up to its stamp. */
  lemma DeliverExact(d: Device, table: seq<Row>, x: Threads, row: Row)
    requires StoreOk(d, table, x)
    requires row.actor == d.me && !HasRow(table, d.me, row.item.noteId)
    ensures StoreOk(d, table + [row], x) <==> row.item.createdMs > x.cursorMs
  {
    TableGrows(table, row);
    NotStoredYet(d, table, x, row.item);
    DeliverSound(d, table, x, row);
    assert row == Row(d.me, row.item);
    assert Row(d.me, row.item) in table + [row];
  }

  lemma DeliverForeign(d: Device, table: seq<Row>, x: Threads, row: Row)
    requires StoreOk(d, table, x) && row.actor != d.me
    ensures StoreOk(d, table + [row], x)
  {
    TableGrows(table, row);
    DeliverSound(d, table, x, row);
  }

  lemma SameNoteSameItem(table: seq<Row>, me: string, a: InboxItem, b: InboxItem)
    requires UniqueRows(table) && Row(me, a) in table && Row(me, b) in table && a.noteId == b.noteId
    ensures a == b
  {
    var i :| 0 <= i < |table| && table[i] == Row(me, a);
    var j :| 0 <= j < |table| && table[j] == Row(me, b);
  }

  /** `x'` is what folding `page` into `x` leaves, as far as membership and
      cursor go. */
  ghost predicate Took(d: Device, x: Threads, page: seq<InboxItem>, x': Threads) {
    && page != []
    && HoldsBatch(d.keyOf, x, page, x')
    && x'.cursorMs == page[|page| - 1].createdMs
  }

  /** `all` lists the rows newer than the cursor, oldest first, each once. */
  ghost predicate Lists(d: Device, table: seq<Row>, x: Threads, all: seq<InboxItem>) {
    && (forall it :: it in all <==> Row(d.me, it) in table && it.createdMs > x.cursorMs)
    && (forall i, j :: 0 <= i < j < |all| ==> all[i].createdMs <= all[j].createdMs && all[i] != all[j])
  }

  lemma NoteFromBridge(d: Device, table: seq<Row>, x: Threads, it: InboxItem)
    requires UniqueRows(table) && Sound(d, table, x) && Row(d.me, it) in table
    requires HasNote(Thread(x, d.keyOf(it.sender)), it.noteId)
    requires forall m :: m in Thread(x, d.keyOf(it.sender)) && m.outbound ==> m.noteId != it.noteId
    ensures Stored(d, x, it)
  {
    var key := d.keyOf(it.sender);
    var k :| 0 <= k < |Thread(x, key)| && Thread(x, key)[k].noteId == it.noteId;
    var m := Thread(x, key)[k];
    assert m in Thread(x, key);
    assert FromBridge(d, table, key, m);
    var r :| Row(d.me, r) in table && d.keyOf(r.sender) == key && MsgOf(r) == m;
    SameNoteSameItem(table, d.me, r, it);
  }

  /** Every item of a fetched page ends up stored in its sender's thread, unless
      a message we sent has its id there. */
  lemma PageStored(d: Device, table: seq<Row>, x: Threads, page: seq<InboxItem>, x': Threads, i: nat)
    requires UniqueRows(table) && Sound(d, table, x) && HoldsBatch(d.keyOf, x, page, x')
    requires forall k :: 0 <= k < |page| ==> Row(d.me, page[k]) in table
    requires i < |page| && !Clashes(d, x, page)
    ensures Stored(d, x', page[i])
  {
    var it, key := page[i], d.keyOf(page[i].sender);
    if HasNote(Thread(x, key), it.noteId) {
      NoteFromBridge(d, table, x, it);
    } else {
      var j := FirstNew(d.keyOf, x, page, |page|, i);
      SameNoteSameItem(table, d.me, page[j], it);
      assert Brought(d.keyOf, x, page, key, MsgOf(it));
    }
  }

  /** An item is not stored where a message we sent has its id. */
  lemma SentIdBlocks(d: Device, x: Threads, it: InboxItem, m: Msg)
    requires WellFormed(x) && m in Thread(x, d.keyOf(it.sender)) && m.outbound && m.noteId == it.noteId
    ensures !Stored(d, x, it)
  {
    var thread := Thread(x, d.keyOf(it.sender));
    assert UniqueNotes(thread);
    var a :| 0 <= a < |thread| && thread[a] == m;
    forall b | 0 <= b < |thread| ensures thread[b] != MsgOf(it) {
      assert a < b || b < a || thread[b].outbound;
    }
  }

  lemma ClashLoses(d: Device, x: Threads, page: seq<InboxItem>, x': Threads) returns (i: nat)
    requires Clashes(d, x, page) && HoldsBatch(d.keyOf, x, page, x') && WellFormed(x')
    ensures i < |page| && !Stored(d, x', page[i])
  {
    var k, m :| 0 <= k < |page| && m in Thread(x, d.keyOf(page[k].sender)) && m.outbound && m.noteId == page[k].noteId;
    i := k;
    assert m in Thread(x', d.keyOf(page[k].sender));
    SentIdBlocks(d, x', page[k], m);
  }

  /** Taking a prefix that does not end inside a group of equal stamps leaves
      nothing behind the new cursor, if no id clashes. */
  lemma PrefixCovers(d: Device, table: seq<Row>, x: Threads, all: seq<InboxItem>, n: nat, x': Threads)
    requires UniqueRows(table) && StoreOk(d, table, x) && Lists(d, table, x, all)
    requires 0 < n <= |all| && Took(d, x, all[..n], x') && !Clashes(d, x, all[..n])
    requires n < |all| ==> all[n - 1].createdMs < all[n].createdMs
    ensures Covers(d, table, x')
  {
    forall k | n <= k < |all| ensures x'.cursorMs < all[k].createdMs {
      assert k == n || all[n].createdMs <= all[k].createdMs;
    }
    forall k | 0 <= k < n ensures all[..n][k] == all[k] && Row(d.me, all[k]) in table {
      assert all[k] in all;
    }
    forall it | Row(d.me, it) in table && it.createdMs <= x'.cursorMs ensures Stored(d, x', it) {
      if it.createdMs <= x.cursorMs {
        assert Stored(d, x, it);
      } else {
        assert it in all;
        var i :| 0 <= i < |all| && all[i] == it;
        PageStored(d, table, x, all[..n], x', i);
      }
    }
  }

  /** A prefix that ends inside a group of equal stamps leaves the next row
      out, with the new cursor already at its stamp. */
  lemma CutLoses(d: Device, table: seq<Row>, x: Threads, all: seq<InboxItem>, n: nat, x': Threads)
    requires UniqueRows(table) && StoreOk(d, table, x) && Lists(d, table, x, all)
    requires 0 < n < |all| && Took(d, x, all[..n], x')
    requires all[n - 1].createdMs == all[n].createdMs
    ensures Row(d.me, all[n]) in table && all[n].createdMs == x'.cursorMs && !Stored(d, x', all[n])
  {
    var it, key := all[n], d.keyOf(all[n].sender);
    assert it in all;
    assert MsgOf(it) !in Thread(x, key);
    forall j | 0 <= j < n ensures all[..n][j].noteId != it.noteId {
      assert all[j] in all;
      if all[j].noteId == it.noteId {
        SameNoteSameItem(table, d.me, all[j], it);
      }
    }
    assert !Brought(d.keyOf, x, all[..n], key, MsgOf(it));
  }

  lemma TakeTraced(d: Device, table: seq<Row>, x: Threads, page: seq<InboxItem>, x': Threads)
    requires Traced(d, table, x) && HoldsBatch(d.keyOf, x, page, x') && x.cursorMs <= x'.cursorMs
    requires forall k :: 0 <= k < |page| ==> Row(d.me, page[k]) in table && page[k].createdMs <= x'.cursorMs
    ensures Traced(d, table, x')
  {
    forall key, m | m in Thread(x', key) && !m.outbound
      ensures m.atMs <= x'.cursorMs && FromBridge(d, table, key, m)
    {
      if m !in Thread(x, key) {
        assert Brought(d.keyOf, x, page, key, m);
      }
    }
  }

  lemma InOrderLists(d: Device, table: seq<Row>, x: Threads)
    requires UniqueRows(table)
    ensures Lists(d, table, x, InOrder(table, d.me, x.cursorMs))
  {
    var all := InOrder(table, d.me, x.cursorMs);
    InOrderMembers(table, d.me, x.cursorMs);
    InOrderSorted(table, d.me, x.cursorMs);
    forall i, j | 0 <= i < j < |all| ensures all[i] != all[j] {
      InOrderDistinct(table, d.me, x.cursorMs, i, j);
    }
  }

  lemma FoldTakes(d: Device, table: seq<Row>, x: Threads, all: seq<InboxItem>, n: nat)
    requires Lists(d, table, x, all) && 0 < n <= |all|
    ensures Took(d, x, all[..n], Folded(d.keyOf, x, all[..n]))
  {
    FoldMembers(d.keyOf, x, all[..n]);
    FoldCursor(d.keyOf, x, all[..n]);
    assert all[n - 1] in all;
    assert all[..n][n - 1] == all[n - 1];
  }

  lemma TakeSound(d: Device, table: seq<Row>, x: Threads, all: seq<InboxItem>, n: nat, x': Threads)
    requires Sound(d, table, x) && Lists(d, table, x, all)
    requires 0 < n <= |all| && Took(d, x, all[..n], x') && WellFormed(x')
    ensures Sound(d, table, x')
    ensures forall k :: 0 <= k < n ==> Row(d.me, all[..n][k]) in table && all[..n][k].createdMs <= x'.cursorMs
  {
    assert all[n - 1] in all;
    forall k | 0 <= k < n ensures Row(d.me, all[..n][k]) in table && all[..n][k].createdMs <= x'.cursorMs {
      assert all[..n][k] == all[k];
      assert all[k] in all;
    }
    TakeTraced(d, table, x, all[..n], x');
  }

  /** A pulled prefix keeps the promise exactly when it does not end inside a
      group of equal stamps and no item has the id of a message we sent. */
  lemma TakeExact(d: Device, table: seq<Row>, x: Threads, all: seq<InboxItem>, n: nat, x': Threads)
    requires UniqueRows(table) && StoreOk(d, table, x) && Lists(d, table, x, all)
    requires 0 < n <= |all| && Took(d, x, all[..n], x') && WellFormed(x')
    ensures StoreOk(d, table, x') <==> (n < |all| ==> all[n - 1].createdMs < all[n].createdMs) && !Clashes(d, x, all[..n])
  {
    hide WellFormed, Traced, HoldsBatch;
    TakeSound(d, table, x, all, n, x');
    if Clashes(d, x, all[..n]) {
      var i := ClashLoses(d, x, all[..n], x');
      assert Row(d.me, all[..n][i]) in table;
    } else if n < |all| && all[n - 1].createdMs == all[n].createdMs {
      CutLoses(d, table, x, all, n, x');
    } else {
      PrefixCovers(d, table, x, all, n, x');
    }
  }

  /** The page as a prefix of the listing. */
  lemma PageIsPrefix(d: Device, table: seq<Row>, x: Threads, limit: nat) returns (n: nat)
    requires UniqueRows(table) && Page(table, d.me, x.cursorMs, limit) != []
    ensures var all, page := InOrder(table, d.me, x.cursorMs), Page(table, d.me, x.cursorMs, limit);
            && 0 < n <= |all| && page == all[..n] && n == (if |all| <= limit then |all| else limit)
            && Lists(d, table, x, all) && Took(d, x, page, Folded(d.keyOf, x, page))
  {
    var all := InOrder(table, d.me, x.cursorMs);
    n := if |all| <= limit then |all| else limit;
    assert Page(table, d.me, x.cursorMs, limit) == all[..n];
    InOrderLists(d, table, x);
    FoldTakes(d, table, x, all, n);
  }

  lemma FetchSound(d: Device, table: seq<Row>, x: Threads, limit: nat)
    requires UniqueRows(table) && Sound(d, table, x)
    requires Page(table, d.me, x.cursorMs, limit) != []
    ensures Sound(d, table, Folded(d.keyOf, x, Page(table, d.me, x.cursorMs, limit)))
  {
    hide InOrder, Folded, Page;
    var page := Page(table, d.me, x.cursorMs, limit);
    var n := PageIsPrefix(d, table, x, limit);
    FoldKeepsWellFormed(d.keyOf, x, page);
    TakeSound(d, table, x, InOrder(table, d.me, x.cursorMs), n, Folded(d.keyOf, x, page));
  }

  lemma FetchExact(d: Device, table: seq<Row>, x: Threads, limit: nat)
    requires UniqueRows(table) && StoreOk(d, table, x)
    requires Page(table, d.me, x.cursorMs, limit) != []
    ensures var page := Page(table, d.me, x.cursorMs, limit);
            StoreOk(d, table, Folded(d.keyOf, x, page))
            <==> !CutsTie(table, d.me, x.cursorMs, limit) && !Clashes(d, x, page)
  {
    hide InOrder, Folded, Page, StoreOk, Clashes;
    var all, page := InOrder(table, d.me, x.cursorMs), Page(table, d.me, x.cursorMs, limit);
    var n := PageIsPrefix(d, table, x, limit);
    assert WellFormed(x) by { OkIsWellFormed(d, table, x); }
    FoldKeepsWellFormed(d.keyOf, x, page);
    TakeExact(d, table, x, all, n, Folded(d.keyOf, x, page));
    assert n < |all| ==> all[n - 1].createdMs <= all[n].createdMs;
  }

  lemma OkIsWellFormed(d: Device, table: seq<Row>, x: Threads)
    requires StoreOk(d, table, x)
    ensures WellFormed(x)
  {
  }

  /** Recording a sent message keeps the promise, whatever its id. */
  lemma SendKeepsOk(d: Device, table: seq<Row>, x: Threads, key: string, msg: Msg)
    ensures Sound(d, table, x) ==> Sound(d, table, Inserted(x, key, Sent(msg)))
    ensures Covers(d, table, x) ==> Covers(d, table, Inserted(x, key, Sent(msg)))
  {
    hide Inserted, WellFormed, Traced, Covers;
    InsertMembers(x, key, Sent(msg));
    if WellFormed(x) {
      InsertKeepsWellFormed(x, key, Sent(msg));
    }
    AddedKeeps(d, table, x, key, Sent(msg), Inserted(x, key, Sent(msg)));
  }

  lemma AddedKeeps(d: Device, table: seq<Row>, x: Threads, key: string, m': Msg, x': Threads)
    requires m'.outbound && x'.cursorMs == x.cursorMs
    requires forall k :: k != key ==> Thread(x', k) == Thread(x, k)
    requires forall m :: m in Thread(x, key) ==> m in Thread(x', key)
    requires forall m :: m in Thread(x', key) ==> m in Thread(x, key) || m == m'
    ensures Traced(d, table, x) ==> Traced(d, table, x')
    ensures Covers(d, table, x) ==> Covers(d, table, x')
  {
    hide FromBridge;
    if Covers(d, table, x) {
      forall it | Row(d.me, it) in table && it.createdMs <= x'.cursorMs ensures Stored(d, x', it) {
        assert Stored(d, x, it);
      }
    }
  }

  /** A sent message under a new id is in its thread as it was sent. */
  lemma SendStores(x: Threads, key: string, msg: Msg)
    requires !HasNote(Thread(x, key), msg.noteId)
    ensures exists m :: m in Thread(Inserted(x, key, Sent(msg)), key) && m.outbound && m.text == msg.text && m.noteId == msg.noteId
                        && m.atMs == msg.atMs && m.peer == msg.peer && m.delivered == msg.delivered
  {
    InsertMembers(x, key, Sent(msg));
    assert Sent(msg) in Thread(Inserted(x, key, Sent(msg)), key);
  }

  lemma MarkKeepsOk(d: Device, table: seq<Row>, x: Threads, key: string)
    ensures Sound(d, table, x) ==> Sound(d, table, MarkedRead(x, key))
    ensures Covers(d, table, x) ==> Covers(d, table, MarkedRead(x, key))
  {
    var x' := MarkedRead(x, key);
    assert x'.threads == x.threads && x'.cursorMs == x.cursorMs;
    hide MarkedRead, FromBridge, MsgOf, Sorted, UniqueNotes;
    assert forall k :: Thread(x', k) == Thread(x, k);
    assert forall it :: Stored(d, x', it) == Stored(d, x, it);
  }
}
