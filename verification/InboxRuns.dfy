/** What holds over whole runs of the inbox protocol of module InboxSync. */
module InboxRuns {
  import opened FediThreads
  import opened InboxSync

  // ------------------------------------------------------------ single steps

  lemma UniqueSnoc(table: seq<Row>, row: Row)
    requires UniqueRows(table) && !HasRow(table, row.actor, row.item.noteId)
    ensures UniqueRows(table + [row])
  {
    forall i | 0 <= i < |table| ensures table[i].actor != row.actor || table[i].item.noteId != row.item.noteId {
      assert table[i] in table;
    }
  }

  /** What holds of every world in every run, safe or not. */
  ghost predicate SoundWorld(d: Device, w: World) {
    && UniqueRows(w.table)
    && Sound(d, w.table, w.disk)
    && forall sid :: sid in w.sessions ==> Sound(d, w.table, w.sessions[sid].store)
  }

  /** The promise: no copy's cursor is past a message that copy lacks. */
  ghost predicate Covered(d: Device, w: World) {
    && Covers(d, w.table, w.disk)
    && forall sid :: sid in w.sessions ==> Covers(d, w.table, w.sessions[sid].store)
  }

  lemma InvParts(d: Device, w: World)
    ensures Inv(d, w) <==> SoundWorld(d, w) && Covered(d, w)
  {
  }

  lemma SoundOpen(d: Device, w: World, sid: nat, s: Session)
    requires SoundWorld(d, w) && Sound(d, w.table, s.store)
    ensures SoundWorld(d, w.(sessions := w.sessions[sid := s]))
  {
  }

  lemma SoundDeliver(d: Device, w: World, row: Row)
    requires SoundWorld(d, w)
    ensures SoundWorld(d, Step(d, w, Deliver(row)))
  {
    hide Sound;
    if !HasRow(w.table, row.actor, row.item.noteId) {
      UniqueSnoc(w.table, row);
      DeliverSound(d, w.table, w.disk, row);
      forall sid | sid in w.sessions ensures Sound(d, w.table + [row], w.sessions[sid].store) {
        DeliverSound(d, w.table, w.sessions[sid].store, row);
      }
    }
  }

  lemma SoundStep(d: Device, w: World, e: Event)
    requires SoundWorld(d, w)
    ensures SoundWorld(d, Step(d, w, e))
  {
    hide Sound, Folded, Inserted, MarkedRead, Page, UniqueRows;
    match e
    case Deliver(row) => SoundDeliver(d, w, row);
    case BeginSync(sid) => SoundOpen(d, w, sid, Pulling(w.disk));
    case Fetch(sid, limit) =>
      if sid in w.sessions && w.sessions[sid].Pulling? {
        var x := w.sessions[sid].store;
        var page := Page(w.table, d.me, x.cursorMs, limit);
        if page != [] {
          FetchSound(d, w.table, x, limit);
          SoundOpen(d, w, sid, Ready(Folded(d.keyOf, x, page)));
        }
      }
    case Send(sid, key, msg) =>
      SendKeepsOk(d, w.table, w.disk, key, msg);
      SoundOpen(d, w, sid, Ready(Inserted(w.disk, key, Sent(msg))));
    case MarkRead(sid, key) =>
      MarkKeepsOk(d, w.table, w.disk, key);
      SoundOpen(d, w, sid, Ready(MarkedRead(w.disk, key)));
    case Save(sid) =>
    case Abandon(sid) =>
  }

  lemma DeliverStep(d: Device, w: World, row: Row)
    requires Inv(d, w)
    ensures Inv(d, Step(d, w, Deliver(row))) <==> Safe(d, w, Deliver(row))
  {
    hide StoreOk;
    if !HasRow(w.table, row.actor, row.item.noteId) {
      UniqueSnoc(w.table, row);
      if row.actor == d.me {
        DeliverExact(d, w.table, w.disk, row);
        forall sid | sid in w.sessions
          ensures StoreOk(d, w.table + [row], w.sessions[sid].store) <==> row.item.createdMs > w.sessions[sid].store.cursorMs
        {
          DeliverExact(d, w.table, w.sessions[sid].store, row);
        }
      } else {
        DeliverForeign(d, w.table, w.disk, row);
        forall sid | sid in w.sessions ensures StoreOk(d, w.table + [row], w.sessions[sid].store) {
          DeliverForeign(d, w.table, w.sessions[sid].store, row);
        }
      }
    }
  }

  lemma OpenExact(d: Device, w: World, sid: nat, s: Session)
    requires Inv(d, w)
    ensures Inv(d, w.(sessions := w.sessions[sid := s])) <==> StoreOk(d, w.table, s.store)
  {
    hide StoreOk, UniqueRows;
    var w' := w.(sessions := w.sessions[sid := s]);
    assert w'.sessions[sid] == s;
    assert forall k :: k in w'.sessions && k != sid ==> k in w.sessions && w'.sessions[k] == w.sessions[k];
  }

  lemma CloseKeeps(d: Device, w: World, sid: nat)
    requires Inv(d, w)
    ensures Inv(d, w.(sessions := w.sessions - {sid}))
  {
  }

  lemma EmptyPage(d: Device, x: Threads, table: seq<Row>, limit: nat)
    requires Page(table, d.me, x.cursorMs, limit) == []
    ensures !CutsTie(table, d.me, x.cursorMs, limit) && !Clashes(d, x, [])
  {
  }

  lemma FetchStep(d: Device, w: World, sid: nat, limit: nat)
    requires Inv(d, w)
    ensures Inv(d, Step(d, w, Fetch(sid, limit))) <==> Safe(d, w, Fetch(sid, limit))
  {
    hide StoreOk, UniqueRows, Page, Folded, CutsTie, Clashes;
    if sid in w.sessions && w.sessions[sid].Pulling? {
      var x := w.sessions[sid].store;
      var page := Page(w.table, d.me, x.cursorMs, limit);
      if page == [] {
        CloseKeeps(d, w, sid);
        EmptyPage(d, x, w.table, limit);
      } else {
        FetchExact(d, w.table, x, limit);
        OpenExact(d, w, sid, Ready(Folded(d.keyOf, x, page)));
      }
    }
  }

  /** From a good state, a step leads to a good state exactly when it is safe. */
  lemma StepExact(d: Device, w: World, e: Event)
    requires Inv(d, w)
    ensures Inv(d, Step(d, w, e)) <==> Safe(d, w, e)
  {
    hide Sound, Covers, Inserted, MarkedRead, UniqueRows;
    match e
    case Deliver(row) => DeliverStep(d, w, row);
    case BeginSync(sid) => OpenExact(d, w, sid, Pulling(w.disk));
    case Fetch(sid, limit) => FetchStep(d, w, sid, limit);
    case Send(sid, key, msg) =>
      SendKeepsOk(d, w.table, w.disk, key, msg);
      OpenExact(d, w, sid, Ready(Inserted(w.disk, key, Sent(msg))));
    case MarkRead(sid, key) =>
      MarkKeepsOk(d, w.table, w.disk, key);
      OpenExact(d, w, sid, Ready(MarkedRead(w.disk, key)));
    case Save(sid) => CloseKeeps(d, w, sid);
    case Abandon(sid) => CloseKeeps(d, w, sid);
  }

  // ------------------------------------------------------------------- runs

  ghost predicate AlwaysCovered(d: Device, es: seq<Event>) {
    forall k :: 0 <= k <= |es| ==> Covered(d, Run(d, es[..k]))
  }

  ghost predicate AlwaysSafe(d: Device, es: seq<Event>) {
    forall k :: 0 <= k < |es| ==> Safe(d, Run(d, es[..k]), es[k])
  }

  lemma StartGood(d: Device)
    ensures Inv(d, START)
  {
  }

  lemma RunSnoc(d: Device, es: seq<Event>, k: nat)
    requires k < |es|
    ensures Run(d, es[..k + 1]) == Step(d, Run(d, es[..k]), es[k])
  {
    assert es[..k + 1][..k] == es[..k];
  }

  /** In every run whatsoever, every copy is sorted without repeats and its
      inbound messages are bridge rows at or below its cursor. */
  lemma {:induction false} RunSound(d: Device, es: seq<Event>)
    ensures SoundWorld(d, Run(d, es))
  {
    hide SoundWorld, Step, Inv;
    if es == [] {
      StartGood(d);
      InvParts(d, START);
    } else {
      RunSound(d, es[..|es| - 1]);
      SoundStep(d, Run(d, es[..|es| - 1]), es[|es| - 1]);
    }
  }

  lemma {:induction false} SafePrefixGood(d: Device, es: seq<Event>, k: nat)
    requires k <= |es|
    requires forall j :: 0 <= j < k ==> Safe(d, Run(d, es[..j]), es[j])
    ensures Inv(d, Run(d, es[..k]))
  {
    hide Inv, Safe, Step, Run;
    if k == 0 {
      StartGood(d);
      assert Run(d, es[..0]) == START by { RunNothing(d, es[..0]); }
    } else {
      SafePrefixGood(d, es, k - 1);
      StepExact(d, Run(d, es[..k - 1]), es[k - 1]);
      RunSnoc(d, es, k - 1);
    }
  }

  lemma RunNothing(d: Device, es: seq<Event>)
    requires es == []
    ensures Run(d, es) == START
  {
  }

  /** In every interleaving, the persisted store and every loaded copy hold each
      bridge message up to their cursor at every moment, exactly when no new row
      is delivered at or below a cursor already reached, no page ends inside a
      group of equal stamps, and no page item has the id of a message we sent in
      its thread. Sends, read marks, saves and crashes are always safe. */
  lemma RunExact(d: Device, es: seq<Event>)
    ensures AlwaysCovered(d, es) <==> AlwaysSafe(d, es)
  {
    hide Inv, Safe, Covered, SoundWorld, Run;
    if AlwaysSafe(d, es) {
      forall k | 0 <= k <= |es| ensures Covered(d, Run(d, es[..k])) {
        SafePrefixGood(d, es, k);
        InvParts(d, Run(d, es[..k]));
      }
    }
    if AlwaysCovered(d, es) {
      forall k | 0 <= k < |es| ensures Safe(d, Run(d, es[..k]), es[k]) {
        CoveredGood(d, es, k);
        CoveredGood(d, es, k + 1);
        StepExact(d, Run(d, es[..k]), es[k]);
        RunSnoc(d, es, k);
      }
    }
  }

  lemma CoveredGood(d: Device, es: seq<Event>, k: nat)
    requires AlwaysCovered(d, es) && k <= |es|
    ensures Inv(d, Run(d, es[..k]))
  {
    hide Inv, Covered, SoundWorld, Run;
    RunSound(d, es[..k]);
    InvParts(d, Run(d, es[..k]));
  }

  // ------------------------------------------- strictly increasing stamps

  /** The receive clock is positive and strictly increasing over the deliveries
      to this device, and none of them carries a note id we ever send. */
  ghost predicate Disciplined(d: Device, es: seq<Event>) {
    && (forall i :: 0 <= i < |es| && ToMe(d, es[i]) ==> es[i].row.item.createdMs > 0)
    && (forall i, j :: 0 <= i < j < |es| && ToMe(d, es[i]) && ToMe(d, es[j]) ==>
                       es[i].row.item.createdMs < es[j].row.item.createdMs)
    && (forall i, j :: 0 <= i < |es| && 0 <= j < |es| && ToMe(d, es[i]) && es[j].Send? ==>
                       es[i].row.item.noteId != es[j].msg.noteId)
  }

  predicate ToMe(d: Device, e: Event) { e.Deliver? && e.row.actor == d.me }

  ghost predicate Arrived(d: Device, es: seq<Event>, it: InboxItem) {
    exists i :: 0 <= i < |es| && es[i] == Deliver(Row(d.me, it))
  }

  ghost predicate SentId(es: seq<Event>, noteId: string) {
    exists i :: 0 <= i < |es| && es[i].Send? && es[i].msg.noteId == noteId
  }

  ghost predicate KnownCursor(d: Device, es: seq<Event>, c: I64) {
    c == 0 || exists it :: Arrived(d, es, it) && it.createdMs == c
  }

  /** A store's cursor is a stamp that arrived, its sent ids are ids we sent. */
  ghost predicate KnownStore(d: Device, es: seq<Event>, x: Threads) {
    && KnownCursor(d, es, x.cursorMs)
    && forall key, m :: m in Thread(x, key) && m.outbound ==> SentId(es, m.noteId)
  }

  ghost predicate Known(d: Device, es: seq<Event>, w: World) {
    && (forall it :: Row(d.me, it) in w.table ==> Arrived(d, es, it))
    && KnownStore(d, es, w.disk)
    && forall sid :: sid in w.sessions ==> KnownStore(d, es, w.sessions[sid].store)
  }

  lemma ArrivedGrows(d: Device, es: seq<Event>, e: Event, it: InboxItem)
    requires Arrived(d, es, it)
    ensures Arrived(d, es + [e], it)
  {
    var i :| 0 <= i < |es| && es[i] == Deliver(Row(d.me, it));
    assert (es + [e])[i] == es[i];
  }

  lemma SentGrows(es: seq<Event>, e: Event, noteId: string)
    requires SentId(es, noteId)
    ensures SentId(es + [e], noteId)
  {
    var i :| 0 <= i < |es| && es[i].Send? && es[i].msg.noteId == noteId;
    assert (es + [e])[i] == es[i];
  }

  lemma KnownStoreGrows(d: Device, es: seq<Event>, e: Event, x: Threads)
    requires KnownStore(d, es, x)
    ensures KnownStore(d, es + [e], x)
  {
    if x.cursorMs != 0 {
      var it :| Arrived(d, es, it) && it.createdMs == x.cursorMs;
      ArrivedGrows(d, es, e, it);
    }
    forall key, m | m in Thread(x, key) && m.outbound ensures SentId(es + [e], m.noteId) {
      SentGrows(es, e, m.noteId);
    }
  }

  lemma KnownGrows(d: Device, es: seq<Event>, e: Event, w: World)
    requires Known(d, es, w)
    ensures Known(d, es + [e], w)
  {
    forall it | Row(d.me, it) in w.table ensures Arrived(d, es + [e], it) {
      ArrivedGrows(d, es, e, it);
    }
    KnownStoreGrows(d, es, e, w.disk);
    forall sid | sid in w.sessions ensures KnownStore(d, es + [e], w.sessions[sid].store) {
      KnownStoreGrows(d, es, e, w.sessions[sid].store);
    }
  }

  lemma KnownFold(d: Device, es: seq<Event>, x: Threads, page: seq<InboxItem>)
    requires KnownStore(d, es, x)
    requires forall it :: it in page ==> Arrived(d, es, it)
    ensures KnownStore(d, es, Folded(d.keyOf, x, page))
  {
    FoldCursor(d.keyOf, x, page);
    FoldMembers(d.keyOf, x, page);
    KnownBatch(d, es, x, page, Folded(d.keyOf, x, page));
  }

  lemma KnownBatch(d: Device, es: seq<Event>, x: Threads, page: seq<InboxItem>, x': Threads)
    requires KnownStore(d, es, x) && HoldsBatch(d.keyOf, x, page, x')
    requires forall it :: it in page ==> Arrived(d, es, it)
    requires x'.cursorMs == x.cursorMs || exists i :: 0 <= i < |page| && page[i].createdMs == x'.cursorMs
    ensures KnownStore(d, es, x')
  {
    forall key, m | m in Thread(x', key) && m.outbound ensures SentId(es, m.noteId) {
      assert !Brought(d.keyOf, x, page, key, m);
    }
    if x'.cursorMs != x.cursorMs {
      var i :| 0 <= i < |page| && page[i].createdMs == x'.cursorMs;
      assert page[i] in page;
    }
  }

  lemma PageFromTable(d: Device, table: seq<Row>, since: I64, limit: nat)
    ensures forall it :: it in Page(table, d.me, since, limit) ==> Row(d.me, it) in table
  {
    var all, page := InOrder(table, d.me, since), Page(table, d.me, since, limit);
    InOrderMembers(table, d.me, since);
    forall it | it in page ensures it in all {
      var k :| 0 <= k < |page| && page[k] == it;
      assert all[k] == it;
    }
  }

  lemma KnownSend(d: Device, es: seq<Event>, x: Threads, key: string, msg: Msg)
    requires KnownStore(d, es, x) && SentId(es, msg.noteId)
    ensures KnownStore(d, es, Inserted(x, key, Sent(msg)))
  {
    InsertMembers(x, key, Sent(msg));
  }

  lemma KnownOpen(d: Device, es: seq<Event>, w: World, sid: nat, s: Session)
    requires Known(d, es, w) && KnownStore(d, es, s.store)
    ensures Known(d, es, w.(sessions := w.sessions[sid := s]))
  {
  }

  lemma KnownStep(d: Device, es: seq<Event>, w: World, e: Event)
    requires Known(d, es, w)
    ensures Known(d, es + [e], Step(d, w, e))
  {
    KnownGrows(d, es, e, w);
    var es' := es + [e];
    assert es'[|es|] == e;
    match e
    case Deliver(row) =>
      TableGrows(w.table, row);
      assert row.actor == d.me ==> row == Row(d.me, row.item);
    case BeginSync(sid) => KnownOpen(d, es', w, sid, Pulling(w.disk));
    case Fetch(sid, limit) =>
      if sid in w.sessions && w.sessions[sid].Pulling? {
        var x := w.sessions[sid].store;
        PageFromTable(d, w.table, x.cursorMs, limit);
        KnownFold(d, es', x, Page(w.table, d.me, x.cursorMs, limit));
        KnownOpen(d, es', w, sid, Ready(Folded(d.keyOf, x, Page(w.table, d.me, x.cursorMs, limit))));
      }
    case Send(sid, key, msg) =>
      KnownSend(d, es', w.disk, key, msg);
      KnownOpen(d, es', w, sid, Ready(Inserted(w.disk, key, Sent(msg))));
    case MarkRead(sid, key) =>
      assert forall k :: Thread(MarkedRead(w.disk, key), k) == Thread(w.disk, k);
      KnownOpen(d, es', w, sid, Ready(MarkedRead(w.disk, key)));
    case Save(sid) =>
    case Abandon(sid) =>
  }

  lemma {:induction false} RunKnown(d: Device, es: seq<Event>)
    ensures Known(d, es, Run(d, es))
  {
    if es != [] {
      var n := |es| - 1;
      RunKnown(d, es[..n]);
      KnownStep(d, es[..n], Run(d, es[..n]), es[n]);
      assert es == es[..n] + [es[n]];
    }
  }

  lemma DisciplinedRow(d: Device, es: seq<Event>, k: nat, x: Threads)
    requires Disciplined(d, es) && k < |es| && ToMe(d, es[k]) && KnownStore(d, es[..k], x)
    ensures es[k].row.item.createdMs > x.cursorMs
  {
    if x.cursorMs != 0 {
      var it :| Arrived(d, es[..k], it) && it.createdMs == x.cursorMs;
      var i :| 0 <= i < k && es[..k][i] == Deliver(Row(d.me, it));
      assert ToMe(d, es[i]);
    }
  }

  lemma DisciplinedIds(d: Device, es: seq<Event>, it: InboxItem, noteId: string)
    requires Disciplined(d, es) && Arrived(d, es, it) && SentId(es, noteId)
    ensures it.noteId != noteId
  {
    var i :| 0 <= i < |es| && es[i] == Deliver(Row(d.me, it));
    var j :| 0 <= j < |es| && es[j].Send? && es[j].msg.noteId == noteId;
    assert ToMe(d, es[i]);
  }

  lemma NoClashes(d: Device, es: seq<Event>, w: World, x: Threads, limit: nat)
    requires Disciplined(d, es) && Known(d, es, w) && KnownStore(d, es, x)
    ensures !Clashes(d, x, Page(w.table, d.me, x.cursorMs, limit))
  {
    var page := Page(w.table, d.me, x.cursorMs, limit);
    PageFromTable(d, w.table, x.cursorMs, limit);
    forall i, m | 0 <= i < |page| && m in Thread(x, d.keyOf(page[i].sender)) && m.outbound ensures m.noteId != page[i].noteId {
      assert page[i] in page;
      DisciplinedIds(d, es, page[i], m.noteId);
    }
  }

  lemma SameStampSameItem(d: Device, es: seq<Event>, a: InboxItem, b: InboxItem)
    requires Disciplined(d, es) && Arrived(d, es, a) && Arrived(d, es, b) && a.createdMs == b.createdMs
    ensures a == b
  {
    var i :| 0 <= i < |es| && es[i] == Deliver(Row(d.me, a));
    var j :| 0 <= j < |es| && es[j] == Deliver(Row(d.me, b));
    assert ToMe(d, es[i]) && ToMe(d, es[j]);
  }

  lemma DisciplinedPrefix(d: Device, es: seq<Event>, k: nat)
    requires Disciplined(d, es) && k <= |es|
    ensures Disciplined(d, es[..k])
  {
    assert forall i :: 0 <= i < k ==> es[..k][i] == es[i];
  }

  lemma NoTies(d: Device, es: seq<Event>, table: seq<Row>, x: Threads, limit: nat)
    requires Disciplined(d, es) && UniqueRows(table)
    requires forall it :: Row(d.me, it) in table ==> Arrived(d, es, it)
    ensures !CutsTie(table, d.me, x.cursorMs, limit)
  {
    var all := InOrder(table, d.me, x.cursorMs);
    InOrderLists(d, table, x);
    if 0 < limit < |all| {
      assert all[limit - 1] in all && all[limit] in all;
      if all[limit - 1].createdMs == all[limit].createdMs {
        SameStampSameItem(d, es, all[limit - 1], all[limit]);
      }
    }
  }

  lemma DisciplinedStep(d: Device, es: seq<Event>, k: nat)
    requires Disciplined(d, es) && k < |es| && Inv(d, Run(d, es[..k]))
    ensures Safe(d, Run(d, es[..k]), es[k])
  {
    var w, e := Run(d, es[..k]), es[k];
    RunKnown(d, es[..k]);
    match e
    case Deliver(row) =>
      if row.actor == d.me {
        DisciplinedRow(d, es, k, w.disk);
        forall sid | sid in w.sessions ensures row.item.createdMs > w.sessions[sid].store.cursorMs {
          DisciplinedRow(d, es, k, w.sessions[sid].store);
        }
      }
    case Fetch(sid, limit) =>
      DisciplinedPrefix(d, es, k);
      if sid in w.sessions {
        NoTies(d, es[..k], w.table, w.sessions[sid].store, limit);
        NoClashes(d, es[..k], w, w.sessions[sid].store, limit);
      }
    case _ =>
  }

  lemma {:induction false} DisciplinedGood(d: Device, es: seq<Event>, k: nat)
    requires Disciplined(d, es) && k <= |es|
    ensures Inv(d, Run(d, es[..k]))
  {
    if k == 0 {
      StartGood(d);
    } else {
      DisciplinedGood(d, es, k - 1);
      DisciplinedStep(d, es, k - 1);
      StepExact(d, Run(d, es[..k - 1]), es[k - 1]);
      RunSnoc(d, es, k - 1);
    }
  }

  /** What the item says is in its sender's thread at one index, and no other
      inbound message of the whole store carries its id. */
  ghost predicate ExactlyOnce(d: Device, x: Threads, it: InboxItem) {
    var home := d.keyOf(it.sender);
    && SaidOnce(Thread(x, home), it)
    && forall key, m :: m in Thread(x, key) && !m.outbound && m.noteId == it.noteId ==> key == home
  }

  lemma StoredOnce(d: Device, table: seq<Row>, x: Threads, it: InboxItem)
    requires UniqueRows(table) && StoreOk(d, table, x) && Row(d.me, it) in table && it.createdMs <= x.cursorMs
    ensures ExactlyOnce(d, x, it)
  {
    var home := d.keyOf(it.sender);
    assert Stored(d, x, it);
    assert UniqueNotes(Thread(x, home));
    MemberSaidOnce(Thread(x, home), it);
    forall key, m | m in Thread(x, key) && !m.outbound && m.noteId == it.noteId ensures key == home {
      assert FromBridge(d, table, key, m);
      var r :| Row(d.me, r) in table && d.keyOf(r.sender) == key && MsgOf(r) == m;
      SameNoteSameItem(table, d.me, r, it);
    }
  }

  /** Under a strictly increasing receive clock, in every interleaving of
      deliveries, syncs with any page limits, sends, read marks, overwriting
      saves and crashes, the persisted store and every loaded copy hold each
      bridge message up to their cursor exactly once, in its sender's thread. */
  lemma CursorNeverSkips(d: Device, es: seq<Event>)
    requires Disciplined(d, es)
    ensures var w := Run(d, es);
            && (forall it :: Row(d.me, it) in w.table && it.createdMs <= w.disk.cursorMs ==> ExactlyOnce(d, w.disk, it))
            && (forall sid, it :: sid in w.sessions && Row(d.me, it) in w.table && it.createdMs <= w.sessions[sid].store.cursorMs ==>
                                  ExactlyOnce(d, w.sessions[sid].store, it))
  {
    var w := Run(d, es);
    DisciplinedGood(d, es, |es|);
    assert es[..|es|] == es;
    forall it | Row(d.me, it) in w.table && it.createdMs <= w.disk.cursorMs ensures ExactlyOnce(d, w.disk, it) {
      StoredOnce(d, w.table, w.disk, it);
    }
    forall sid, it | sid in w.sessions && Row(d.me, it) in w.table && it.createdMs <= w.sessions[sid].store.cursorMs
      ensures ExactlyOnce(d, w.sessions[sid].store, it)
    {
      StoredOnce(d, w.table, w.sessions[sid].store, it);
    }
  }
}
