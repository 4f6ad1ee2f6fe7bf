/** Progress and loss: repeated syncs drain the bridge, and a message passed
    over by the cursor never comes back. */
module InboxLoss {
  import opened StableSorting
  import opened FediThreads
  import opened InboxSync
  import opened InboxRuns

  // --------------------------------------------------------------- progress

  /** `sync_fedi_inbox` without interference. */
  function SyncOnce(d: Device, table: seq<Row>, x: Threads, limit: nat): Threads {
    var page := Page(table, d.me, x.cursorMs, limit);
    if page == [] then x else Folded(d.keyOf, x, page)
  }

  /** Successive states, each `next` of the one before. */
  ghost predicate Chain<X>(next: X -> X, xs: seq<X>) {
    forall i :: 0 < i < |xs| ==> Follows(next, xs, i)
  }

  ghost predicate Follows<X>(next: X -> X, xs: seq<X>, i: nat)
    requires 0 < i < |xs|
  {
    xs[i] == next(xs[i - 1])
  }

  ghost predicate Strict(all: seq<InboxItem>) {
    forall i, j :: 0 <= i < j < |all| ==> all[i].createdMs < all[j].createdMs
  }

  lemma StrictTail(a: seq<InboxItem>, x: InboxItem)
    requires a != [] && Strict(a)
    ensures x in a[1..] <==> x in a && x != a[0]
  {
    assert forall k :: 1 <= k < |a| ==> a[0].createdMs < a[k].createdMs && a[1..][k - 1] == a[k];
  }

  lemma StrictHeads(a: seq<InboxItem>, b: seq<InboxItem>)
    requires Strict(a) && Strict(b) && a != [] && b != []
    requires a[0] in b && b[0] in a
    ensures a[0] == b[0]
  {
    var i :| 0 <= i < |b| && b[i] == a[0];
    var j :| 0 <= j < |a| && a[j] == b[0];
  }

  lemma {:induction false} StrictUnique(a: seq<InboxItem>, b: seq<InboxItem>)
    requires Strict(a) && Strict(b)
    requires forall x :: x in a <==> x in b
    ensures a == b
  {
    assert |a| > 0 ==> a[0] in b;
    assert |b| > 0 ==> b[0] in a;
    if |a| > 0 && |b| > 0 {
      StrictHeads(a, b);
      forall x ensures x in a[1..] <==> x in b[1..] {
        StrictTail(a, x);
        StrictTail(b, x);
      }
      StrictUnique(a[1..], b[1..]);
      assert a == [a[0]] + a[1..] && b == [b[0]] + b[1..];
    }
  }

  function PageSize(all: seq<InboxItem>, limit: nat): nat {
    if |all| <= limit then |all| else limit
  }

  lemma SyncGood(d: Device, table: seq<Row>, x: Threads, limit: nat)
    requires UniqueRows(table) && StoreOk(d, table, x) && Strict(InOrder(table, d.me, x.cursorMs))
    requires !Clashes(d, x, InOrder(table, d.me, x.cursorMs))
    ensures StoreOk(d, table, SyncOnce(d, table, x, limit))
  {
    hide StoreOk, Folded, InOrder;
    if Page(table, d.me, x.cursorMs, limit) != [] {
      PartNoClash(d, x, InOrder(table, d.me, x.cursorMs), limit);
      FetchExact(d, table, x, limit);
    }
  }

  lemma PartNoClash(d: Device, x: Threads, all: seq<InboxItem>, n: nat)
    requires !Clashes(d, x, all)
    ensures !Clashes(d, x, if |all| <= n then all else all[..n])
    ensures !Clashes(d, x, all[PageSize(all, n)..])
  {
    var k := PageSize(all, n);
    assert forall i :: 0 <= i < |all| - k ==> all[k..][i] == all[k + i];
  }

  lemma SyncCursor(d: Device, table: seq<Row>, x: Threads, limit: nat)
    requires UniqueRows(table)
    ensures var all := InOrder(table, d.me, x.cursorMs); var k := PageSize(all, limit);
            SyncOnce(d, table, x, limit).cursorMs == if k == 0 then x.cursorMs else all[k - 1].createdMs
  {
    var all := InOrder(table, d.me, x.cursorMs);
    var k := PageSize(all, limit);
    assert Page(table, d.me, x.cursorMs, limit) == all[..k];
    if k > 0 {
      InOrderLists(d, table, x);
      FoldTakes(d, table, x, all, k);
    }
  }

  /** A sync takes exactly one page off the front of what is left. */
  lemma SyncTakesPage(d: Device, table: seq<Row>, x: Threads, limit: nat)
    requires UniqueRows(table) && Strict(InOrder(table, d.me, x.cursorMs))
    ensures var all, x' := InOrder(table, d.me, x.cursorMs), SyncOnce(d, table, x, limit);
            InOrder(table, d.me, x'.cursorMs) == all[PageSize(all, limit)..]
  {
    var all, x' := InOrder(table, d.me, x.cursorMs), SyncOnce(d, table, x, limit);
    var k := PageSize(all, limit);
    SyncCursor(d, table, x, limit);
    if k > 0 {
      InOrderLists(d, table, x);
      InOrderLists(d, table, x');
      LeftOver(d, table, x, all, k, x', InOrder(table, d.me, x'.cursorMs));
    }
  }

  lemma StrictApart(all: seq<InboxItem>, a: InboxItem, b: InboxItem)
    requires Strict(all) && a in all && b in all && a != b
    ensures a.createdMs != b.createdMs
  {
    var p :| 0 <= p < |all| && all[p] == a;
    var q :| 0 <= q < |all| && all[q] == b;
  }

  lemma LeftOver(d: Device, table: seq<Row>, x: Threads, all: seq<InboxItem>, k: nat, x': Threads, rest: seq<InboxItem>)
    requires Lists(d, table, x, all) && Strict(all) && 0 < k <= |all| && x'.cursorMs == all[k - 1].createdMs
    requires Lists(d, table, x', rest)
    ensures rest == all[k..]
  {
    assert all[k - 1] in all;
    forall it ensures it in rest <==> it in all[k..] {
      if it in rest {
        assert it in all;
        var i :| 0 <= i < |all| && all[i] == it;
        assert i >= k;
        assert all[k..][i - k] == it;
      }
      if it in all[k..] {
        var i :| k <= i < |all| && all[i] == it;
        assert it in all;
      }
    }
    forall i, j | 0 <= i < j < |rest| ensures rest[i].createdMs < rest[j].createdMs {
      assert rest[i] in rest && rest[j] in rest;
      StrictApart(all, rest[i], rest[j]);
    }
    StrictUnique(rest, all[k..]);
  }

  ghost predicate AllStored(d: Device, table: seq<Row>, x: Threads) {
    forall it :: Row(d.me, it) in table ==> Stored(d, x, it)
  }

  lemma NothingLeft(d: Device, table: seq<Row>, x: Threads)
    requires StoreOk(d, table, x) && InOrder(table, d.me, x.cursorMs) == []
    ensures AllStored(d, table, x)
  {
    InOrderMembers(table, d.me, x.cursorMs);
    forall it | Row(d.me, it) in table ensures Stored(d, x, it) {
      assert it !in InOrder(table, d.me, x.cursorMs);
    }
  }

  lemma StrictDrop(all: seq<InboxItem>, k: nat)
    requires Strict(all) && k <= |all|
    ensures Strict(all[k..])
  {
  }

  /** `n` pages of `limit` rows. */
  function Pages(limit: nat, n: nat): nat {
    if n == 0 then 0 else Pages(limit, n - 1) + limit
  }

  lemma {:induction false} PagesIsProduct(limit: nat, n: nat)
    ensures Pages(limit, n) == n * limit
  {
    if n > 0 {
      PagesIsProduct(limit, n - 1);
      assert n * limit == (n - 1) * limit + limit;
    }
  }

  /** A good store with `rest` still to pull, none of it under an id we sent. */
  ghost predicate Remaining(d: Device, table: seq<Row>, x: Threads, rest: seq<InboxItem>) {
    && UniqueRows(table) && StoreOk(d, table, x) && InOrder(table, d.me, x.cursorMs) == rest
    && Strict(rest) && !Clashes(d, x, rest)
  }

  lemma Round(d: Device, table: seq<Row>, x: Threads, limit: nat, rest: seq<InboxItem>)
    requires Remaining(d, table, x, rest)
    ensures Remaining(d, table, SyncOnce(d, table, x, limit), rest[PageSize(rest, limit)..])
  {
    hide StoreOk, SyncOnce, InOrder;
    SyncGood(d, table, x, limit);
    SyncTakesPage(d, table, x, limit);
    StrictDrop(rest, PageSize(rest, limit));
    PartNoClash(d, x, rest, limit);
    SyncSends(d, table, x, limit);
    SameClashes(d, x, SyncOnce(d, table, x, limit), rest[PageSize(rest, limit)..]);
  }

  /** A sync neither adds nor drops a message we sent. */
  lemma SyncSends(d: Device, table: seq<Row>, x: Threads, limit: nat)
    ensures forall key, m: Msg :: m.outbound ==> (m in Thread(SyncOnce(d, table, x, limit), key) <==> m in Thread(x, key))
  {
    hide Folded;
    var page := Page(table, d.me, x.cursorMs, limit);
    FoldMembers(d.keyOf, x, page);
    assert forall key, m: Msg :: m.outbound ==> !Brought(d.keyOf, x, page, key, m);
  }

  lemma SameClashes(d: Device, x: Threads, y: Threads, page: seq<InboxItem>)
    requires forall key, m: Msg :: m.outbound ==> (m in Thread(y, key) <==> m in Thread(x, key))
    ensures Clashes(d, x, page) <==> Clashes(d, y, page)
  {
    if Clashes(d, x, page) {
      var i, m :| 0 <= i < |page| && m in Thread(x, d.keyOf(page[i].sender)) && m.outbound && m.noteId == page[i].noteId;
      assert m in Thread(y, d.keyOf(page[i].sender));
    }
    if Clashes(d, y, page) {
      var i, m :| 0 <= i < |page| && m in Thread(y, d.keyOf(page[i].sender)) && m.outbound && m.noteId == page[i].noteId;
      assert m in Thread(x, d.keyOf(page[i].sender));
    }
  }

  lemma DropDrop(rest: seq<InboxItem>, limit: nat, done: nat)
    ensures rest[PageSize(rest, done)..][PageSize(rest[PageSize(rest, done)..], limit)..] == rest[PageSize(rest, done + limit)..]
  {
  }

  /** If each step takes one page off what is left, `n` steps take `n` pages. */
  lemma {:induction false} PageByPage<X(!new)>(left: (X, seq<InboxItem>) -> bool, next: X -> X, limit: nat,
                                              xs: seq<X>, n: nat, rest: seq<InboxItem>)
    requires forall x, r :: left(x, r) ==> left(next(x), r[PageSize(r, limit)..])
    requires n < |xs| && Chain(next, xs) && left(xs[0], rest)
    ensures left(xs[n], rest[PageSize(rest, Pages(limit, n))..])
    decreases n
  {
    if n == 0 {
      assert rest[0..] == rest;
    } else {
      PageByPage(left, next, limit, xs, n - 1, rest);
      assert Follows(next, xs, n);
      DropDrop(rest, limit, Pages(limit, n - 1));
    }
  }

  /** Syncing again and again, enough rounds for the number of waiting rows, at
      any page limit, leave every row of the bridge in the store, exactly when no
      waiting row has the id of a message we sent in its thread. */
  lemma SyncDrainsIff(d: Device, table: seq<Row>, limit: nat, xs: seq<Threads>, n: nat)
    requires n < |xs| && Chain(x => SyncOnce(d, table, x, limit), xs)
    requires UniqueRows(table) && StoreOk(d, table, xs[0]) && Strict(InOrder(table, d.me, xs[0].cursorMs))
    requires n * limit >= |InOrder(table, d.me, xs[0].cursorMs)|
    ensures AllStored(d, table, xs[n]) <==> !Clashes(d, xs[0], InOrder(table, d.me, xs[0].cursorMs))
  {
    if Clashes(d, xs[0], InOrder(table, d.me, xs[0].cursorMs)) {
      ClashStays(d, table, limit, xs, n);
    } else {
      SyncDrains(d, table, limit, xs, n);
    }
  }

  lemma SyncDrains(d: Device, table: seq<Row>, limit: nat, xs: seq<Threads>, n: nat)
    requires n < |xs| && Chain(x => SyncOnce(d, table, x, limit), xs)
    requires UniqueRows(table) && StoreOk(d, table, xs[0]) && Strict(InOrder(table, d.me, xs[0].cursorMs))
    requires n * limit >= |InOrder(table, d.me, xs[0].cursorMs)|
    requires !Clashes(d, xs[0], InOrder(table, d.me, xs[0].cursorMs))
    ensures AllStored(d, table, xs[n])
  {
    var left := (x, r) => Remaining(d, table, x, r);
    var next := x => SyncOnce(d, table, x, limit);
    var rest := InOrder(table, d.me, xs[0].cursorMs);
    forall x, r | left(x, r) ensures left(next(x), r[PageSize(r, limit)..]) {
      Round(d, table, x, limit, r);
    }
    PageByPage(left, next, limit, xs, n, rest);
    PagesIsProduct(limit, n);
    NothingLeft(d, table, xs[n]);
  }

  /** Along successive syncs the messages we sent stay as they are. */
  lemma {:induction false} SyncsSends(d: Device, table: seq<Row>, limit: nat, xs: seq<Threads>, n: nat)
    requires n < |xs| && Chain(x => SyncOnce(d, table, x, limit), xs) && WellFormed(xs[0])
    ensures WellFormed(xs[n])
    ensures forall key, m: Msg :: m.outbound ==> (m in Thread(xs[n], key) <==> m in Thread(xs[0], key))
    decreases n
  {
    hide WellFormed, Page, Folded;
    if n > 0 {
      SyncsSends(d, table, limit, xs, n - 1);
      assert Follows(x => SyncOnce(d, table, x, limit), xs, n);
      SyncSends(d, table, xs[n - 1], limit);
      FoldKeepsWellFormed(d.keyOf, xs[n - 1], Page(table, d.me, xs[n - 1].cursorMs, limit));
    }
  }

  lemma ClashStays(d: Device, table: seq<Row>, limit: nat, xs: seq<Threads>, n: nat)
    requires n < |xs| && Chain(x => SyncOnce(d, table, x, limit), xs) && WellFormed(xs[0])
    requires Clashes(d, xs[0], InOrder(table, d.me, xs[0].cursorMs))
    ensures !AllStored(d, table, xs[n])
  {
    hide SyncOnce, Chain, InOrder, WellFormed;
    var all := InOrder(table, d.me, xs[0].cursorMs);
    SyncsSends(d, table, limit, xs, n);
    SameClashes(d, xs[0], xs[n], all);
    var i := ClashNotStored(d, xs[n], all);
    InOrderMembers(table, d.me, xs[0].cursorMs);
    assert all[i] in all;
  }

  lemma ClashNotStored(d: Device, x: Threads, page: seq<InboxItem>) returns (i: nat)
    requires Clashes(d, x, page) && WellFormed(x)
    ensures i < |page| && !Stored(d, x, page[i])
  {
    var k, m :| 0 <= k < |page| && m in Thread(x, d.keyOf(page[k].sender)) && m.outbound && m.noteId == page[k].noteId;
    i := k;
    SentIdBlocks(d, x, page[k], m);
  }

  // ---------------------------------------------------------- permanent loss

  /** The row is in no copy of the store and every cursor is past it. */
  ghost predicate Lost(d: Device, w: World, it: InboxItem) {
    && Row(d.me, it) in w.table
    && LostTo(d, w.disk, it)
    && forall sid :: sid in w.sessions ==> LostTo(d, w.sessions[sid].store, it)
  }

  ghost predicate LostTo(d: Device, x: Threads, it: InboxItem) {
    it.createdMs <= x.cursorMs && !Stored(d, x, it)
  }

  lemma FetchKeepsLost(d: Device, table: seq<Row>, x: Threads, limit: nat, it: InboxItem)
    requires LostTo(d, x, it)
    ensures LostTo(d, Folded(d.keyOf, x, Page(table, d.me, x.cursorMs, limit)), it)
  {
    var page, all := Page(table, d.me, x.cursorMs, limit), InOrder(table, d.me, x.cursorMs);
    FoldMembers(d.keyOf, x, page);
    FoldCursor(d.keyOf, x, page);
    InOrderMembers(table, d.me, x.cursorMs);
    forall k | 0 <= k < |page| ensures page[k].createdMs > it.createdMs {
      assert page[k] == all[k];
      assert all[k] in all;
    }
    StillLost(d, x, page, Folded(d.keyOf, x, page), it);
  }

  lemma StillLost(d: Device, x: Threads, page: seq<InboxItem>, x': Threads, it: InboxItem)
    requires LostTo(d, x, it) && HoldsBatch(d.keyOf, x, page, x') && x.cursorMs <= x'.cursorMs
    requires forall k :: 0 <= k < |page| ==> page[k].createdMs > it.createdMs
    ensures LostTo(d, x', it)
  {
    assert !Brought(d.keyOf, x, page, d.keyOf(it.sender), MsgOf(it));
  }

  lemma LostOpen(d: Device, w: World, sid: nat, s: Session, it: InboxItem)
    requires Lost(d, w, it) && LostTo(d, s.store, it)
    ensures Lost(d, w.(sessions := w.sessions[sid := s]), it)
  {
  }

  lemma LostSend(d: Device, x: Threads, key: string, msg: Msg, it: InboxItem)
    requires LostTo(d, x, it)
    ensures LostTo(d, Inserted(x, key, Sent(msg)), it)
  {
    InsertMembers(x, key, Sent(msg));
  }

  lemma LostStep(d: Device, w: World, e: Event, it: InboxItem)
    requires Lost(d, w, it)
    ensures Lost(d, Step(d, w, e), it)
  {
    match e
    case Deliver(row) => TableGrows(w.table, row);
    case BeginSync(sid) => LostOpen(d, w, sid, Pulling(w.disk), it);
    case Fetch(sid, limit) =>
      if sid in w.sessions && w.sessions[sid].Pulling? {
        var x := w.sessions[sid].store;
        FetchKeepsLost(d, w.table, x, limit, it);
        LostOpen(d, w, sid, Ready(Folded(d.keyOf, x, Page(w.table, d.me, x.cursorMs, limit))), it);
      }
    case Send(sid, key, msg) =>
      LostSend(d, w.disk, key, msg, it);
      LostOpen(d, w, sid, Ready(Inserted(w.disk, key, Sent(msg))), it);
    case MarkRead(sid, key) =>
      assert MarkedRead(w.disk, key).threads == w.disk.threads;
      LostOpen(d, w, sid, Ready(MarkedRead(w.disk, key)), it);
    case Save(sid) =>
    case Abandon(sid) =>
  }

  /** A message the cursor has passed over in every copy is never stored again,
      whatever happens afterwards. */
  lemma {:induction false} LossIsPermanent(d: Device, w: World, es: seq<Event>, it: InboxItem)
    requires Lost(d, w, it)
    ensures Lost(d, RunFrom(d, w, es), it)
  {
    if es != [] {
      LossIsPermanent(d, w, es[..|es| - 1], it);
      LostStep(d, RunFrom(d, w, es[..|es| - 1]), es[|es| - 1], it);
    }
  }

  lemma FetchOnly(d: Device, w: World, sid: nat, limit: nat, page: seq<InboxItem>)
    requires w.sessions.Keys == {sid} && w.sessions[sid].Pulling?
    requires page == Page(w.table, d.me, w.sessions[sid].store.cursorMs, limit) && page != []
    ensures Step(d, w, Fetch(sid, limit)) == w.(sessions := map[sid := Ready(Folded(d.keyOf, w.sessions[sid].store, page))])
  {
  }

  lemma SaveOnly(d: Device, w: World, sid: nat, x: Threads)
    requires w.sessions == map[sid := Ready(x)]
    ensures Step(d, w, Save(sid)) == World(w.table, x, map[])
  {
  }

  /** When the device runs a single sync whose page ends inside a group of
      equal stamps, the first row behind the cut is lost once it is saved. */
  lemma TieCutLoses(d: Device, w: World, sid: nat, limit: nat)
    requires Inv(d, w) && w.sessions.Keys == {sid} && w.sessions[sid].Pulling?
    requires CutsTie(w.table, d.me, w.sessions[sid].store.cursorMs, limit)
    ensures Lost(d, Step(d, Step(d, w, Fetch(sid, limit)), Save(sid)),
                 InOrder(w.table, d.me, w.sessions[sid].store.cursorMs)[limit])
  {
    var x := w.sessions[sid].store;
    var all := InOrder(w.table, d.me, x.cursorMs);
    assert Page(w.table, d.me, x.cursorMs, limit) == all[..limit];
    FetchOnly(d, w, sid, limit, all[..limit]);
    SaveOnly(d, Step(d, w, Fetch(sid, limit)), sid, Folded(d.keyOf, x, all[..limit]));
    PageLoses(d, w.table, x, all, limit);
  }

  lemma PageLoses(d: Device, table: seq<Row>, x: Threads, all: seq<InboxItem>, limit: nat)
    requires UniqueRows(table) && StoreOk(d, table, x) && all == InOrder(table, d.me, x.cursorMs)
    requires 0 < limit < |all| && all[limit - 1].createdMs == all[limit].createdMs
    ensures Row(d.me, all[limit]) in table && LostTo(d, Folded(d.keyOf, x, all[..limit]), all[limit])
  {
    InOrderLists(d, table, x);
    FoldTakes(d, table, x, all, limit);
    CutLoses(d, table, x, all, limit, Folded(d.keyOf, x, all[..limit]));
  }

  /** A row received in a millisecond the stored cursor has already reached is
      lost on arrival when no operation is under way. */
  lemma LateArrivalLost(d: Device, w: World, it: InboxItem)
    requires SoundWorld(d, w) && w.sessions == map[]
    requires !HasRow(w.table, d.me, it.noteId) && it.createdMs <= w.disk.cursorMs
    ensures Lost(d, Step(d, w, Deliver(Row(d.me, it))), it)
  {
    NotStoredYet(d, w.table, w.disk, it);
    TableGrows(w.table, Row(d.me, it));
  }

  // ---------------------------------------------------------- a tie arises

  function Rows(me: string, items: seq<InboxItem>): seq<Row> {
    seq(|items|, i requires 0 <= i < |items| => Row(me, items[i]))
  }

  function Deliveries(me: string, items: seq<InboxItem>): seq<Event> {
    seq(|items|, i requires 0 <= i < |items| => Deliver(Row(me, items[i])))
  }

  /** Different rows, all received in one millisecond. */
  ghost predicate OneMillisecond(items: seq<InboxItem>) {
    && (forall i :: 0 <= i < |items| ==> items[i].createdMs > 0)
    && (forall i, j :: 0 <= i < j < |items| ==> items[i].createdMs == items[j].createdMs && items[i].noteId != items[j].noteId)
  }

  lemma RowsSnoc(me: string, items: seq<InboxItem>)
    requires items != []
    ensures var n := |items| - 1;
            && items == items[..n] + [items[n]]
            && Rows(me, items) == Rows(me, items[..n]) + [Row(me, items[n])]
            && Deliveries(me, items)[..n] == Deliveries(me, items[..n])
  {
  }

  lemma FrontMillisecond(items: seq<InboxItem>)
    requires items != [] && OneMillisecond(items)
    ensures var n := |items| - 1;
            && OneMillisecond(items[..n]) && items[n].createdMs > 0
            && forall i :: 0 <= i < n ==> items[..n][i].noteId != items[n].noteId
  {
  }

  lemma {:induction false} DeliveriesRun(d: Device, items: seq<InboxItem>)
    requires OneMillisecond(items)
    ensures Run(d, Deliveries(d.me, items)) == World(Rows(d.me, items), EMPTY, map[])
  {
    hide OneMillisecond;
    if items != [] {
      var n := |items| - 1;
      var front := items[..n];
      FrontMillisecond(items);
      DeliveriesRun(d, front);
      RowsSnoc(d.me, items);
      assert forall r :: r in Rows(d.me, front) ==> r.item.noteId != items[n].noteId;
    } else {
      assert Rows(d.me, items) == [];
    }
  }

  lemma EligibleSnoc(table: seq<Row>, row: Row)
    requires row.item.createdMs > 0
    ensures Eligible(table + [row], row.actor, 0) == Eligible(table, row.actor, 0) + [row.item]
  {
    assert (table + [row])[..|table|] == table;
  }

  lemma {:induction false} RowsEligible(me: string, items: seq<InboxItem>)
    requires OneMillisecond(items)
    ensures Eligible(Rows(me, items), me, 0) == items
  {
    hide OneMillisecond;
    if items != [] {
      hide *;
      var n := |items| - 1;
      FrontMillisecond(items);
      RowsEligible(me, items[..n]);
      RowsSnoc(me, items);
      EligibleSnoc(Rows(me, items[..n]), Row(me, items[n]));
    }
  }

  lemma RowsInOrder(me: string, items: seq<InboxItem>)
    requires OneMillisecond(items)
    ensures InOrder(Rows(me, items), me, 0) == items
  {
    RowsEligible(me, items);
    SortedFixed(Received, items);
  }

  lemma DeliveredGood(d: Device, items: seq<InboxItem>)
    requires OneMillisecond(items)
    ensures Inv(d, World(Rows(d.me, items), EMPTY, map[0 := Pulling(EMPTY)]))
  {
    var table := Rows(d.me, items);
    assert forall key :: Thread(EMPTY, key) == [];
    assert forall r :: r in table ==> r.item.createdMs > 0;
  }

  /** At every page limit, the route's 200 among them, one more row than a page
      holds, all received in one millisecond, loses that row for good. */
  lemma TieReachable(d: Device, items: seq<InboxItem>, limit: nat)
    requires limit >= 1 && |items| == limit + 1 && OneMillisecond(items)
    ensures Lost(d, Run(d, Deliveries(d.me, items) + [BeginSync(0), Fetch(0, limit), Save(0)]), items[limit])
  {
    hide Lost, Inv, Step;
    var es := Deliveries(d.me, items) + [BeginSync(0), Fetch(0, limit), Save(0)];
    var n := limit + 1;
    var w := World(Rows(d.me, items), EMPTY, map[0 := Pulling(EMPTY)]);
    assert es[..n] == Deliveries(d.me, items) && es[..n + 3] == es;
    DeliveriesRun(d, items);
    RunSnoc(d, es, n);
    RunSnoc(d, es, n + 1);
    RunSnoc(d, es, n + 2);
    Begun(d, Rows(d.me, items));
    DeliveredGood(d, items);
    RowsInOrder(d.me, items);
    TieCutLoses(d, w, 0, limit);
  }

  lemma Begun(d: Device, table: seq<Row>)
    ensures Step(d, World(table, EMPTY, map[]), BeginSync(0)) == World(table, EMPTY, map[0 := Pulling(EMPTY)])
  {
  }

  // ------------------------------------------------- an id of ours, a late row

  lemma OneItemPage(d: Device, it: InboxItem, limit: nat)
    requires it.createdMs > 0 && limit >= 1
    ensures Page([Row(d.me, it)], d.me, 0, limit) == [it]
  {
    assert Rows(d.me, [it]) == [Row(d.me, it)];
    RowsInOrder(d.me, [it]);
  }

  /** We send a message, and a bridge message with its note id follows. */
  function SentIdRun(d: Device, it: InboxItem, msg: Msg, limit: nat): seq<Event> {
    [Send(0, d.keyOf(it.sender), msg), Save(0), Deliver(Row(d.me, it)), BeginSync(1), Fetch(1, limit), Save(1)]
  }

  lemma SentIdStates(d: Device, it: InboxItem, msg: Msg, limit: nat)
    requires it.createdMs > 0 && limit >= 1
    ensures var y := Inserted(EMPTY, d.keyOf(it.sender), Sent(msg));
            Run(d, SentIdRun(d, it, msg, limit)) == World([Row(d.me, it)], Folded(d.keyOf, y, [it]), map[])
  {
    hide Folded, Inserted, Page, Run;
    var es := SentIdRun(d, it, msg, limit);
    var table := [Row(d.me, it)];
    var y := Inserted(EMPTY, d.keyOf(it.sender), Sent(msg));
    InsertMembers(EMPTY, d.keyOf(it.sender), Sent(msg));
    RunNothing(d, es[..0]);
    RunSnoc(d, es, 0);
    assert Run(d, es[..1]) == World([], EMPTY, map[0 := Ready(y)]);
    RunSnoc(d, es, 1);
    assert Run(d, es[..2]) == World([], y, map[]);
    RunSnoc(d, es, 2);
    assert Run(d, es[..3]) == World(table, y, map[]) by { assert [] + table == table; }
    RunSnoc(d, es, 3);
    assert Run(d, es[..4]) == World(table, y, map[1 := Pulling(y)]);
    OneItemPage(d, it, limit);
    RunSnoc(d, es, 4);
    assert Run(d, es[..5]) == World(table, y, map[1 := Ready(Folded(d.keyOf, y, [it]))]);
    RunSnoc(d, es, 5);
    assert es[..6] == es;
  }

  /** It is taken for a repeat of ours and lost, at any page limit. */
  lemma SentIdReachable(d: Device, it: InboxItem, msg: Msg, limit: nat)
    requires msg.noteId == it.noteId && it.createdMs > 0 && limit >= 1
    ensures Lost(d, Run(d, SentIdRun(d, it, msg, limit)), it)
  {
    hide Folded, Inserted, Run, Step;
    var key := d.keyOf(it.sender);
    var y := Inserted(EMPTY, key, Sent(msg));
    var z := Folded(d.keyOf, y, [it]);
    SentIdStates(d, it, msg, limit);
    InsertMembers(EMPTY, key, Sent(msg));
    InsertKeepsWellFormed(EMPTY, key, Sent(msg));
    FoldMembers(d.keyOf, y, [it]);
    FoldCursor(d.keyOf, y, [it]);
    FoldKeepsWellFormed(d.keyOf, y, [it]);
    assert [it][0].createdMs <= z.cursorMs;
    SentIdBlocks(d, z, it, Sent(msg));
  }

  /** A row is synced, and another one follows in its millisecond. */
  function LateRun(d: Device, a: InboxItem, b: InboxItem, limit: nat): seq<Event> {
    [Deliver(Row(d.me, a)), BeginSync(0), Fetch(0, limit), Save(0), Deliver(Row(d.me, b))]
  }

  lemma LateStates(d: Device, a: InboxItem, b: InboxItem, limit: nat)
    requires a.createdMs > 0 && limit >= 1
    ensures var es := LateRun(d, a, b, limit); var w := World([Row(d.me, a)], Folded(d.keyOf, EMPTY, [a]), map[]);
            Run(d, es[..4]) == w && Run(d, es) == Step(d, w, Deliver(Row(d.me, b)))
  {
    hide Folded, Page, Run;
    var es := LateRun(d, a, b, limit);
    var table := [Row(d.me, a)];
    RunNothing(d, es[..0]);
    RunSnoc(d, es, 0);
    assert Run(d, es[..1]) == World(table, EMPTY, map[]) by { assert [] + table == table; }
    RunSnoc(d, es, 1);
    assert Run(d, es[..2]) == World(table, EMPTY, map[0 := Pulling(EMPTY)]);
    OneItemPage(d, a, limit);
    RunSnoc(d, es, 2);
    assert Run(d, es[..3]) == World(table, EMPTY, map[0 := Ready(Folded(d.keyOf, EMPTY, [a]))]);
    RunSnoc(d, es, 3);
    RunSnoc(d, es, 4);
    assert es[..5] == es;
  }

  /** It is lost on arrival, at any page limit. */
  lemma LateArrivalReachable(d: Device, a: InboxItem, b: InboxItem, limit: nat)
    requires a.noteId != b.noteId && a.createdMs == b.createdMs > 0 && limit >= 1
    ensures Lost(d, Run(d, LateRun(d, a, b, limit)), b)
  {
    hide Folded, Run, Lost, Step;
    var es := LateRun(d, a, b, limit);
    LateStates(d, a, b, limit);
    RunSound(d, es[..4]);
    FoldCursor(d.keyOf, EMPTY, [a]);
    assert [a][0].createdMs <= Run(d, es[..4]).disk.cursorMs;
    LateArrivalLost(d, Run(d, es[..4]), b);
  }
}
