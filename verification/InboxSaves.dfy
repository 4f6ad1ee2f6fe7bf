/** Overlapping operations on the thread store: what a save keeps of what
    others persisted since it loaded. */
module InboxSaves {
  import opened FediThreads
  import opened InboxSync
  import opened InboxRuns
  import opened InboxLoss

  /** Every message of `x` is in `y`, in the same thread. */
  ghost predicate Extends(x: Threads, y: Threads) {
    forall key, m :: m in Thread(x, key) ==> m in Thread(y, key)
  }

  // ------------------------------------------------------- what a session holds

  /** Event `e` makes session `sid` insert `m` into its own copy. */
  ghost predicate Inserts(d: Device, w: World, e: Event, sid: nat, key: string, m: Msg) {
    match e
    case Send(s, k, msg) =>
      s == sid && k == key && m == Sent(msg) && sid !in w.sessions && !HasNote(Thread(w.disk, key), msg.noteId)
    case Fetch(s, limit) =>
      s == sid && sid in w.sessions && w.sessions[sid].Pulling? &&
      Brought(d.keyOf, w.sessions[sid].store, Page(w.table, d.me, w.sessions[sid].store.cursorMs, limit), key, m)
    case _ => false
  }

  /** The store a session starts from, or goes on from. */
  function Base(w: World, sid: nat): Threads { if sid in w.sessions then w.sessions[sid].store else w.disk }

  lemma FetchInserts(d: Device, w: World, sid: nat, limit: nat, key: string, m: Msg)
    requires sid in w.sessions && sid in Step(d, w, Fetch(sid, limit)).sessions
    ensures m in Thread(Step(d, w, Fetch(sid, limit)).sessions[sid].store, key) <==>
            m in Thread(w.sessions[sid].store, key) || Inserts(d, w, Fetch(sid, limit), sid, key, m)
  {
    hide Folded, Brought, Page;
    if w.sessions[sid].Pulling? {
      var x := w.sessions[sid].store;
      FoldMembers(d.keyOf, x, Page(w.table, d.me, x.cursorMs, limit));
    }
  }

  lemma SendInserts(d: Device, w: World, sid: nat, at: string, msg: Msg, key: string, m: Msg)
    ensures m in Thread(Step(d, w, Send(sid, at, msg)).sessions[sid].store, key) <==>
            m in Thread(Base(w, sid), key) || Inserts(d, w, Send(sid, at, msg), sid, key, m)
  {
    hide Inserted;
    InsertMembers(w.disk, at, Sent(msg));
  }

  /** A step changes an open copy only by what that session itself inserts. */
  lemma StepInserts(d: Device, w: World, e: Event, sid: nat, key: string, m: Msg)
    requires sid in Step(d, w, e).sessions
    ensures m in Thread(Step(d, w, e).sessions[sid].store, key) <==>
            m in Thread(Base(w, sid), key) || Inserts(d, w, e, sid, key, m)
  {
    hide Folded, Page, Inserted;
    match e
    case Fetch(s, limit) =>
      if s == sid {
        FetchInserts(d, w, sid, limit, key, m);
      }
    case Send(s, at, msg) =>
      if s == sid {
        SendInserts(d, w, sid, at, msg, key, m);
      }
    case MarkRead(s, at) => assert Thread(MarkedRead(w.disk, at), key) == Thread(w.disk, key);
    case _ =>
  }

  /** The state before event `k`. */
  function At(d: Device, es: seq<Event>, k: nat): World
    requires k <= |es|
  {
    Run(d, es[..k])
  }

  /** Session `sid` loaded the disk at event `i` and is still open before `k`. */
  ghost predicate LoadedAt(d: Device, es: seq<Event>, i: nat, k: nat, sid: nat) {
    && i < k <= |es| && sid !in At(d, es, i).sessions
    && forall j :: i < j <= k ==> sid in At(d, es, j).sessions
  }

  lemma {:induction false} FindLoad(d: Device, es: seq<Event>, k: nat, sid: nat) returns (i: nat)
    requires k <= |es| && sid in At(d, es, k).sessions
    ensures LoadedAt(d, es, i, k, sid)
  {
    if sid in At(d, es, k - 1).sessions {
      i := FindLoad(d, es, k - 1, sid);
    } else {
      i := k - 1;
    }
  }

  /** Between events `i` and `k` the session itself inserted `m`. */
  ghost predicate Own(d: Device, es: seq<Event>, i: nat, k: nat, sid: nat, key: string, m: Msg)
    requires i <= k <= |es|
  {
    exists j :: i <= j < k && Inserts(d, At(d, es, j), es[j], sid, key, m)
  }

  lemma OwnSnoc(d: Device, es: seq<Event>, i: nat, k: nat, sid: nat, key: string, m: Msg)
    requires i < k <= |es|
    ensures Own(d, es, i, k, sid, key, m) <==>
            Own(d, es, i, k - 1, sid, key, m) || Inserts(d, At(d, es, k - 1), es[k - 1], sid, key, m)
  {
    hide At, Inserts;
  }

  /** An open copy holds what was on disk when it was loaded and what its own
      operation inserted since, and nothing else. */
  lemma {:induction false} CopyHolds(d: Device, es: seq<Event>, i: nat, k: nat, sid: nat, key: string, m: Msg)
    requires LoadedAt(d, es, i, k, sid)
    ensures m in Thread(At(d, es, k).sessions[sid].store, key) <==>
            m in Thread(At(d, es, i).disk, key) || Own(d, es, i, k, sid, key, m)
    decreases k
  {
    hide Run, Step, Inserts, Own;
    var w := At(d, es, k - 1);
    RunSnoc(d, es, k - 1);
    assert sid in At(d, es, k).sessions;
    StepInserts(d, w, es[k - 1], sid, key, m);
    OwnSnoc(d, es, i, k, sid, key, m);
    if i < k - 1 {
      CopyHolds(d, es, i, k - 1, sid, key, m);
    } else {
      OwnNone(d, es, i, sid, key, m);
    }
  }

  lemma OwnNone(d: Device, es: seq<Event>, i: nat, sid: nat, key: string, m: Msg)
    requires i <= |es|
    ensures !Own(d, es, i, i, sid, key, m)
  {
  }

  // --------------------------------------------------------- what a save keeps

  /** Event `k` writes back the copy that was loaded at event `i`. */
  ghost predicate SavesAt(d: Device, es: seq<Event>, i: nat, k: nat, sid: nat) {
    && k < |es| && es[k] == Save(sid) && LoadedAt(d, es, i, k, sid) && At(d, es, k).sessions[sid].Ready?
  }

  /** All that was persisted between the load and the save is the session's own. */
  ghost predicate NothingForeign(d: Device, es: seq<Event>, i: nat, k: nat, sid: nat)
    requires i <= k <= |es|
  {
    forall key, m :: m in Thread(At(d, es, k).disk, key) && m !in Thread(At(d, es, i).disk, key) ==> Own(d, es, i, k, sid, key, m)
  }

  /** A save loses no persisted message exactly when every message persisted
      since its load is one its own operation inserted. */
  lemma SaveKeepsIff(d: Device, es: seq<Event>, i: nat, k: nat, sid: nat)
    requires SavesAt(d, es, i, k, sid)
    ensures Extends(At(d, es, k).disk, At(d, es, k + 1).disk) <==> NothingForeign(d, es, i, k, sid)
  {
    hide Run, Own;
    RunSnoc(d, es, k);
    forall key, m
      ensures m in Thread(At(d, es, k + 1).disk, key) <==> m in Thread(At(d, es, i).disk, key) || Own(d, es, i, k, sid, key, m)
    {
      CopyHolds(d, es, i, k, sid, key, m);
    }
  }

  lemma OnlySavesWrite(d: Device, w: World, e: Event)
    ensures Step(d, w, e).disk != w.disk ==> e.Save? && e.sid in w.sessions && w.sessions[e.sid].Ready?
  {
  }

  /** No event of the run takes a message off the disk. */
  ghost predicate NeverLoses(d: Device, es: seq<Event>) {
    forall k :: 0 <= k < |es| ==> Extends(At(d, es, k).disk, At(d, es, k + 1).disk)
  }

  /** Over a whole run nothing persisted is ever lost, exactly when no save comes
      from a copy loaded before another operation persisted something it lacks. */
  lemma NothingLostIff(d: Device, es: seq<Event>)
    ensures NeverLoses(d, es) <==>
            forall i, k, sid :: SavesAt(d, es, i, k, sid) ==> NothingForeign(d, es, i, k, sid)
  {
    hide At, Extends, NothingForeign;
    if NeverLoses(d, es) {
      forall i, k, sid | SavesAt(d, es, i, k, sid) ensures NothingForeign(d, es, i, k, sid) {
        SaveKeepsIff(d, es, i, k, sid);
      }
    }
    if forall i, k, sid :: SavesAt(d, es, i, k, sid) ==> NothingForeign(d, es, i, k, sid) {
      forall k | 0 <= k < |es| ensures Extends(At(d, es, k).disk, At(d, es, k + 1).disk) {
        StepKeeps(d, es, k);
      }
    }
  }

  lemma StepKeeps(d: Device, es: seq<Event>, k: nat)
    requires k < |es|
    requires forall i, sid :: SavesAt(d, es, i, k, sid) ==> NothingForeign(d, es, i, k, sid)
    ensures Extends(At(d, es, k).disk, At(d, es, k + 1).disk)
  {
    hide Run, NothingForeign;
    RunSnoc(d, es, k);
    var w, e := At(d, es, k), es[k];
    OnlySavesWrite(d, w, e);
    if Step(d, w, e).disk != w.disk {
      var i := FindLoad(d, es, k, e.sid);
      assert SavesAt(d, es, i, k, e.sid);
      SaveKeepsIff(d, es, i, k, e.sid);
    }
  }

  lemma ExtendsTransitive(x: Threads, y: Threads, z: Threads)
    requires Extends(x, y) && Extends(y, z)
    ensures Extends(x, z)
  {
  }

  /** Then whatever was on disk once is on disk ever after. */
  lemma {:induction false} NeverLosesForever(d: Device, es: seq<Event>, j: nat, k: nat)
    requires NeverLoses(d, es) && j <= k <= |es|
    ensures Extends(At(d, es, j).disk, At(d, es, k).disk)
  {
    hide At;
    if j < k {
      NeverLosesForever(d, es, j, k - 1);
      assert Extends(At(d, es, k - 1).disk, At(d, es, k - 1 + 1).disk);
      ExtendsTransitive(At(d, es, j).disk, At(d, es, k - 1).disk, At(d, es, k).disk);
    }
  }

  // ----------------------------------------------------- operations one by one

  ghost predicate OneAtATime(d: Device, es: seq<Event>) {
    forall k, a, b :: 0 <= k <= |es| && a in At(d, es, k).sessions && b in At(d, es, k).sessions ==> a == b
  }

  /** While a session is the only one, the disk stays as it loaded it. */
  lemma {:induction false} AloneDiskStays(d: Device, es: seq<Event>, i: nat, k: nat, sid: nat)
    requires OneAtATime(d, es) && LoadedAt(d, es, i, k, sid)
    ensures At(d, es, k).disk == At(d, es, i).disk
    decreases k
  {
    hide Run;
    var w, e := At(d, es, k - 1), es[k - 1];
    RunSnoc(d, es, k - 1);
    OnlySavesWrite(d, w, e);
    assert sid in At(d, es, k).sessions;
    if i < k - 1 {
      AloneDiskStays(d, es, i, k - 1, sid);
      assert sid in At(d, es, k - 1).sessions;
    } else {
      OpeningIsNoSave(d, w, e, sid);
    }
  }

  lemma OpeningIsNoSave(d: Device, w: World, e: Event, sid: nat)
    requires sid !in w.sessions && sid in Step(d, w, e).sessions
    ensures !e.Save?
  {
  }

  /** In particular when operations never overlap. */
  lemma SerialKeepsEverything(d: Device, es: seq<Event>)
    requires OneAtATime(d, es)
    ensures NeverLoses(d, es)
  {
    hide At, NeverLoses;
    forall i, k, sid | SavesAt(d, es, i, k, sid) ensures NothingForeign(d, es, i, k, sid) {
      AloneDiskStays(d, es, i, k, sid);
    }
    NothingLostIff(d, es);
  }

  // ---------------------------------------------------------------- the witness

  /** A sync that has fetched, and a send that saves before it. */
  function OverlapRun(d: Device, it: InboxItem, limit: nat, key: string, msg: Msg): seq<Event> {
    [Deliver(Row(d.me, it)), BeginSync(0), Fetch(0, limit), Send(1, key, msg), Save(1), Save(0)]
  }

  lemma OverlapStates(d: Device, it: InboxItem, limit: nat, key: string, msg: Msg)
    requires it.createdMs > 0 && limit >= 1
    ensures var es := OverlapRun(d, it, limit, key, msg);
            && At(d, es, 5).disk == Inserted(EMPTY, key, Sent(msg))
            && At(d, es, 6).disk == Folded(d.keyOf, EMPTY, [it])
  {
    hide Folded, Inserted, Page, Run;
    var es := OverlapRun(d, it, limit, key, msg);
    var table := [Row(d.me, it)];
    var x, y := Folded(d.keyOf, EMPTY, [it]), Inserted(EMPTY, key, Sent(msg));
    RunNothing(d, es[..0]);
    RunSnoc(d, es, 0);
    assert At(d, es, 1) == World(table, EMPTY, map[]) by { assert [] + table == table; }
    RunSnoc(d, es, 1);
    assert At(d, es, 2) == World(table, EMPTY, map[0 := Pulling(EMPTY)]);
    OneItemPage(d, it, limit);
    RunSnoc(d, es, 2);
    assert At(d, es, 3) == World(table, EMPTY, map[0 := Ready(x)]);
    RunSnoc(d, es, 3);
    assert At(d, es, 4) == World(table, EMPTY, map[0 := Ready(x), 1 := Ready(y)]);
    RunSnoc(d, es, 4);
    assert At(d, es, 5) == World(table, y, map[0 := Ready(x)]);
    RunSnoc(d, es, 5);
  }

  /** A message is sent and saved while a sync is between its fetch and its save:
      the sync's save drops it. At any page limit, so at the route's 200. */
  lemma OverlapDropsSent(d: Device, it: InboxItem, limit: nat, key: string, msg: Msg)
    requires it.createdMs > 0 && limit >= 1
    ensures var es := OverlapRun(d, it, limit, key, msg);
            && Sent(msg) in Thread(At(d, es, 5).disk, key) && Sent(msg) !in Thread(At(d, es, 6).disk, key)
            && !NeverLoses(d, es)
  {
    hide Folded, Inserted, Run;
    var es := OverlapRun(d, it, limit, key, msg);
    OverlapStates(d, it, limit, key, msg);
    InsertMembers(EMPTY, key, Sent(msg));
    FoldMembers(d.keyOf, EMPTY, [it]);
    assert !Brought(d.keyOf, EMPTY, [it], key, Sent(msg));
    assert !Extends(At(d, es, 5).disk, At(d, es, 5 + 1).disk);
  }
}
