/** Inbound follows: the bridge queues requests, the device lists them, delivers
    an Accept and confirms, while remote servers re-send and retract, all steps
    interleaved (store_follow.rs, fedi_follow_sync.rs, and the inbox and confirm
    handlers of the bridge). */
module FollowQueue {
  import opened Basics
  import opened FollowStore

  /** A queue entry as the device fetched it. */
  datatype Entry = Entry(key: Key, inbox: string, followId: string)

  datatype World = World(requests: RequestTable, followers: FollowerTable,
                         listed: set<Entry>, delivered: set<Entry>, recorded: set<Entry>)

  const START := World(map[], map[], {}, {}, {})

  datatype Event =
    | Follow(key: Key, inbox: string, followId: string, now: nat, order: seq<string>)
    | List(actor: string)
    | Deliver(entry: Entry)
    | Record(entry: Entry)
    | Consume(entry: Entry)
    | UndoRequest(key: Key)
    | UndoFollower(key: Key)

  function Snapshot(q: RequestTable, actor: string): set<Entry> {
    set k | k in q && k.0 == actor :: Entry(k, q[k].inbox, q[k].followId)
  }

  /** One step. A delivery answers a listed entry; a confirm follows a successful
      delivery and first records the follower, then consumes the request; an
      `Undo` drops the request, then the follower. Steps out of order do nothing. */
  ghost function Step(w: World, e: Event): World {
    match e
    case Follow(key, inbox, id, now, order) =>
      if Ranked(Upserted(w.requests, key, inbox, id, now), key.0, order)
      then w.(requests := Queued(w.requests, key, inbox, id, now, order)) else w
    case List(actor) => w.(listed := w.listed + Snapshot(w.requests, actor))
    case Deliver(entry) => if entry in w.listed then w.(delivered := w.delivered + {entry}) else w
    case Record(entry) =>
      if entry !in w.delivered then w
      else w.(recorded := w.recorded + {entry},
              followers := Recorded(w.followers, entry.key, entry.inbox))
    case Consume(entry) =>
      if entry !in w.recorded then w else w.(requests := Dequeued(w.requests, entry.key, Some(entry.followId)))
    case UndoRequest(key) => w.(requests := Dequeued(w.requests, key, None))
    case UndoFollower(key) => w.(followers := Forgotten(w.followers, key))
  }

  ghost function Run(es: seq<Event>): World {
    if es == [] then START else Step(Run(es[..|es| - 1]), es[|es| - 1])
  }

  // ------------------------------------------------------------ bounded queue

  ghost predicate Bounded(q: RequestTable) {
    forall actor :: |Queue(q, actor)| <= MAX_QUEUED
  }

  lemma QueueMember(q: RequestTable, actor: string, x: string)
    ensures x in Queue(q, actor) <==> (actor, x) in q
  {
    if (actor, x) in q {
      assert (actor, x).0 == actor && (actor, x).1 == x;
    }
  }

  lemma SmallerQueue(q: RequestTable, q': RequestTable, actor: string)
    requires forall x :: (actor, x) in q' ==> (actor, x) in q
    ensures |Queue(q', actor)| <= |Queue(q, actor)|
  {
    forall x | x in Queue(q', actor) ensures x in Queue(q, actor) {
      QueueMember(q', actor, x);
      QueueMember(q, actor, x);
    }
    SubsetCards(Queue(q', actor), Queue(q, actor));
  }

  lemma TrimmedSmall(q: RequestTable, actor: string, order: seq<string>)
    ensures |Queue(Trimmed(q, actor, order), actor)| <= MAX_QUEUED
  {
    var kept := Queue(Trimmed(q, actor, order), actor);
    forall x | x in kept ensures x in Elements(Top(order)) {
      QueueMember(Trimmed(q, actor, order), actor, x);
    }
    ElementsSmall(Top(order));
    SubsetCards(kept, Elements(Top(order)));
  }

  lemma QueuedBounded(q: RequestTable, key: Key, inbox: string, id: string, now: nat, order: seq<string>)
    requires Bounded(q)
    ensures Bounded(Queued(q, key, inbox, id, now, order))
  {
    var q' := Queued(q, key, inbox, id, now, order);
    forall actor ensures |Queue(q', actor)| <= MAX_QUEUED {
      if actor == key.0 {
        TrimmedSmall(Upserted(q, key, inbox, id, now), actor, order);
      } else {
        SmallerQueue(q, q', actor);
      }
    }
  }

  /** Trimming drops only rows no newer than every row it keeps, drops none
      while the actor has at most MAX_QUEUED, and touches no other actor. */
  lemma TrimDropsOldest(q: RequestTable, actor: string, order: seq<string>)
    requires Ranked(q, actor, order)
    ensures forall k :: k in q && k.0 != actor ==> k in Trimmed(q, actor, order)
    ensures forall k :: k in Trimmed(q, actor, order) ==> k in q && Trimmed(q, actor, order)[k] == q[k]
    ensures |order| <= MAX_QUEUED ==> Trimmed(q, actor, order) == q
    ensures forall x, y :: (actor, x) in q && (actor, x) !in Trimmed(q, actor, order) && (actor, y) in Trimmed(q, actor, order) ==>
                           q[(actor, x)].receivedMs <= q[(actor, y)].receivedMs
  {
    var q' := Trimmed(q, actor, order);
    if |order| <= MAX_QUEUED {
      forall k | k in q ensures k in q' {
        assert k == (k.0, k.1);
      }
    }
    forall x, y | (actor, x) in q && (actor, x) !in q' && (actor, y) in q'
      ensures q[(actor, x)].receivedMs <= q[(actor, y)].receivedMs
    {
      assert x in order;
      var i :| 0 <= i < |order| && order[i] == x;
      var j :| 0 <= j < |Top(order)| && Top(order)[j] == y;
      assert order[j] == y;
      assert j < i;
    }
  }

  /** A request received strictly after every other one of its actor is kept. */
  lemma NewestSurvives(q: RequestTable, key: Key, inbox: string, id: string, now: nat, order: seq<string>)
    requires Ranked(Upserted(q, key, inbox, id, now), key.0, order)
    requires forall x :: (key.0, x) in q && x != key.1 ==> q[(key.0, x)].receivedMs < Clamp(now)
    ensures var q' := Queued(q, key, inbox, id, now, order);
            && key in q' && q'[key].inbox == inbox && q'[key].followId == id
            && q'[key].receivedMs == if now <= I64_MAX then now else I64_MAX
  {
    var up := Upserted(q, key, inbox, id, now);
    assert key == (key.0, key.1);
    assert key.1 in order;
    var i :| 0 <= i < |order| && order[i] == key.1;
    forall x | x in order && x != key.1 ensures up[(key.0, x)].receivedMs < up[key].receivedMs {
      assert up[(key.0, x)] == q[(key.0, x)];
    }
    assert order[0] in order;
    assert order[0] == key.1;
    assert Top(order)[0] == key.1;
  }

  // --------------------------------------------------------------- invariants

  ghost predicate Delivered(es: seq<Event>, entry: Entry) {
    exists j :: 0 <= j < |es| && es[j] == Deliver(entry)
  }

  ghost predicate Good(es: seq<Event>, w: World) {
    && Bounded(w.requests)
    && w.recorded <= w.delivered
    && forall entry :: entry in w.delivered ==> Delivered(es, entry)
  }

  lemma DeliveredGrows(es: seq<Event>, e: Event, entry: Entry)
    requires Delivered(es, entry)
    ensures Delivered(es + [e], entry)
  {
    var j :| 0 <= j < |es| && es[j] == Deliver(entry);
    assert (es + [e])[j] == es[j];
  }

  lemma DequeuedBounded(q: RequestTable, key: Key, id: Option<string>)
    requires Bounded(q)
    ensures Bounded(Dequeued(q, key, id))
  {
    forall actor ensures |Queue(Dequeued(q, key, id), actor)| <= MAX_QUEUED {
      SmallerQueue(q, Dequeued(q, key, id), actor);
    }
  }

  lemma GoodStep(es: seq<Event>, w: World, e: Event)
    requires Good(es, w)
    ensures Good(es + [e], Step(w, e))
  {
    forall entry | entry in w.delivered ensures Delivered(es + [e], entry) {
      DeliveredGrows(es, e, entry);
    }
    assert (es + [e])[|es|] == e;
    match e
    case Follow(key, inbox, id, now, order) => QueuedBounded(w.requests, key, inbox, id, now, order);
    case Consume(entry) => DequeuedBounded(w.requests, entry.key, Some(entry.followId));
    case UndoRequest(key) => DequeuedBounded(w.requests, key, None);
    case _ =>
  }

  lemma {:induction false} RunGood(es: seq<Event>)
    ensures Good(es, Run(es))
  {
    if es == [] {
      forall actor ensures |Queue(START.requests, actor)| <= MAX_QUEUED {
        assert Queue(START.requests, actor) == {};
      }
    } else {
      var n := |es| - 1;
      RunGood(es[..n]);
      GoodStep(es[..n], Run(es[..n]), es[n]);
      assert es == es[..n] + [es[n]];
    }
  }

  /** In every interleaving each actor's queue stays within its cap. */
  lemma QueueStaysBounded(es: seq<Event>, actor: string)
    ensures |Queue(Run(es).requests, actor)| <= MAX_QUEUED
  {
    RunGood(es);
  }

  // ------------------------------------------------------ how a request leaves

  /** The request `followId` waits at `key`. */
  predicate Waiting(w: World, key: Key, followId: string) {
    key in w.requests && w.requests[key].followId == followId
  }

  /** Why step `k` may end the wait: a re-sent Follow of the same follower, an
      Undo, the cap on a full queue, or a confirm whose own id was already
      echoed in a delivered Accept. */
  ghost predicate Cause(es: seq<Event>, k: nat, key: Key, followId: string)
    requires k < |es|
  {
    || (es[k].Follow? && es[k].key == key)
    || (es[k].Follow? && es[k].key.0 == key.0 && |es[k].order| > MAX_QUEUED && key.1 !in Top(es[k].order))
    || es[k] == UndoRequest(key)
    || (es[k].Consume? && es[k].entry.key == key && es[k].entry.followId == followId && Delivered(es[..k], es[k].entry))
  }

  lemma LeavesForACause(es: seq<Event>, k: nat, key: Key, followId: string)
    requires k < |es| && Waiting(Run(es[..k]), key, followId) && !Waiting(Run(es[..k + 1]), key, followId)
    ensures Cause(es, k, key, followId)
  {
    var w, e := Run(es[..k]), es[k];
    assert es[..k + 1][..k] == es[..k];
    assert Run(es[..k + 1]) == Step(w, e);
    RunGood(es[..k]);
    match e
    case Follow(key', inbox, id, now, order) =>
      if key' != key {
        TrimDropsOldest(Upserted(w.requests, key', inbox, id, now), key'.0, order);
      }
    case _ =>
  }

  /** Over every run, a queued request that is gone left through one of those
      causes at some step in between; in particular a confirm for an older
      Follow never consumes a newer one. */
  lemma {:induction false} RequestLeavesOnlyForACause(es: seq<Event>, from: nat, to: nat, key: Key, followId: string) returns (k: nat)
    requires from <= to <= |es|
    requires Waiting(Run(es[..from]), key, followId) && !Waiting(Run(es[..to]), key, followId)
    ensures from <= k < to && Cause(es, k, key, followId)
    ensures Waiting(Run(es[..k]), key, followId)
    decreases |es| - from
  {
    if Waiting(Run(es[..from + 1]), key, followId) {
      k := RequestLeavesOnlyForACause(es, from + 1, to, key, followId);
    } else {
      k := from;
      LeavesForACause(es, k, key, followId);
    }
  }

  /** A confirm for another Follow, older or newer, leaves the request waiting,
      and so does one for another follower. */
  lemma OlderConfirmSpares(w: World, entry: Entry, key: Key, followId: string)
    requires Waiting(w, key, followId) && (entry.key != key || entry.followId != followId)
    ensures Waiting(Step(Step(w, Record(entry)), Consume(entry)), key, followId)
  {
  }

  // -------------------------------------------------------------- the cap, exactly

  function Position(order: seq<string>, x: string): (i: nat)
    requires x in order
    ensures i < |order| && order[i] == x && x !in order[..i]
  {
    if order[0] == x then 0
    else
      assert order == [order[0]] + order[1..];
      Position(order[1..], x) + 1
  }

  /** The followers ranked ahead of `x`. */
  function Ahead(order: seq<string>, x: string): set<string>
    requires x in order
  {
    Elements(order[..Position(order, x)])
  }

  /** Ahead of a request are all strictly newer ones of its actor and none older. */
  lemma AheadIsNewer(q: RequestTable, actor: string, order: seq<string>, x: string)
    requires Ranked(q, actor, order) && x in order
    ensures |Ahead(order, x)| == Position(order, x) && x !in Ahead(order, x)
    ensures forall y :: y in Ahead(order, x) ==> (actor, y) in q && q[(actor, y)].receivedMs >= q[(actor, x)].receivedMs
    ensures forall y :: (actor, y) in q && q[(actor, y)].receivedMs > q[(actor, x)].receivedMs ==> y in Ahead(order, x)
  {
    var i := Position(order, x);
    ElementsSmall(order[..i]);
    forall y | y in Ahead(order, x) ensures (actor, y) in q && q[(actor, y)].receivedMs >= q[(actor, x)].receivedMs {
      var j :| 0 <= j < i && order[j] == y;
      assert order[j] in order && order[i] in order;
    }
    forall y | (actor, y) in q && q[(actor, y)].receivedMs > q[(actor, x)].receivedMs ensures y in Ahead(order, x) {
      assert y in order;
      var j :| 0 <= j < |order| && order[j] == y;
      assert j < i;
      assert order[..i][j] == y;
    }
  }

  /** Over every run, when a Follow reaches its actor's queue, a request of that
      actor, old or new, is dropped exactly when 200 others rank ahead of it, and
      is otherwise left as it is. */
  lemma CapDropsIff(es: seq<Event>, k: nat, key: Key)
    requires k < |es| && es[k].Follow? && es[k].key.0 == key.0
    requires var up := Upserted(Run(es[..k]).requests, es[k].key, es[k].inbox, es[k].followId, es[k].now);
             Ranked(up, key.0, es[k].order) && key in up
    ensures key.1 in es[k].order
    ensures var up := Upserted(Run(es[..k]).requests, es[k].key, es[k].inbox, es[k].followId, es[k].now);
            var after := Run(es[..k + 1]).requests;
            && (key !in after <==> |Ahead(es[k].order, key.1)| >= MAX_QUEUED)
            && (key in after ==> after[key] == up[key])
  {
    var e, w := es[k], Run(es[..k]);
    var up := Upserted(w.requests, e.key, e.inbox, e.followId, e.now);
    assert es[..k + 1][..k] == es[..k];
    assert Run(es[..k + 1]) == Step(w, e);
    assert key == (key.0, key.1);
    assert key.1 in e.order;
    AheadIsNewer(up, key.0, e.order, key.1);
    TopIff(e.order, key.1);
    hide Run, Ranked, Ahead;
    assert key in Trimmed(up, key.0, e.order) <==> key.1 in Top(e.order);
  }

  lemma TopIff(order: seq<string>, x: string)
    requires x in order && forall i, j :: 0 <= i < j < |order| ==> order[i] != order[j]
    ensures x in Top(order) <==> Position(order, x) < MAX_QUEUED
  {
    var i := Position(order, x);
    if i < MAX_QUEUED {
      assert Top(order)[i] == x;
    }
    if x in Top(order) {
      var j :| 0 <= j < |Top(order)| && Top(order)[j] == x;
      assert order[j] == x;
    }
  }

  // ------------------------------------------------------- leaving, both directions

  /** Step `k` ends the wait of `followId` at `key`: a Follow of the same follower
      under another id replaces it, 200 others rank ahead of it, the follower
      undoes its Follow, or a recorded confirm names this very id. */
  ghost predicate Ends(es: seq<Event>, k: nat, key: Key, followId: string)
    requires k < |es|
  {
    var w := Run(es[..k]);
    match es[k]
    case Follow(at, inbox, id, now, order) =>
      && Ranked(Upserted(w.requests, at, inbox, id, now), at.0, order)
      && ((at == key && id != followId) || (at.0 == key.0 && key.1 in order && |Ahead(order, key.1)| >= MAX_QUEUED))
    case UndoRequest(at) => at == key
    case Consume(entry) => entry.key == key && entry.followId == followId && entry in w.recorded
    case _ => false
  }

  lemma FollowEnds(es: seq<Event>, k: nat, key: Key, followId: string)
    requires k < |es| && es[k].Follow? && Waiting(Run(es[..k]), key, followId)
    ensures !Waiting(Run(es[..k + 1]), key, followId) <==> Ends(es, k, key, followId)
  {
    hide Run, Ranked;
    RunNext(es, k);
    var w, e := Run(es[..k]), es[k];
    var up := Upserted(w.requests, e.key, e.inbox, e.followId, e.now);
    if Ranked(up, e.key.0, e.order) && e.key.0 == key.0 {
      CapDropsIff(es, k, key);
    }
  }

  /** Over every run, a waiting request stops waiting at a step if and only if that
      step is one of those. */
  lemma LeavesIff(es: seq<Event>, k: nat, key: Key, followId: string)
    requires k < |es| && Waiting(Run(es[..k]), key, followId)
    ensures !Waiting(Run(es[..k + 1]), key, followId) <==> Ends(es, k, key, followId)
  {
    hide Run, Ranked, Queued;
    RunNext(es, k);
    if es[k].Follow? {
      FollowEnds(es, k, key, followId);
    }
  }

  /** A recorded confirm takes the request it names off the queue, an Undo whatever
      request the follower has, and neither touches another row. */
  lemma ConfirmConsumes(es: seq<Event>, k: nat, key: Key)
    requires k < |es| && key in Run(es[..k]).requests
    requires es[k] == UndoRequest(key) ||
             (es[k].Consume? && es[k].entry.key == key && es[k].entry in Run(es[..k]).recorded
              && Run(es[..k]).requests[key].followId == es[k].entry.followId)
    ensures var q, q' := Run(es[..k]).requests, Run(es[..k + 1]).requests;
            key !in q' && forall other :: other != key ==> (other in q' <==> other in q) && (other in q ==> q'[other] == q[other])
  {
    hide Run;
    RunNext(es, k);
  }

  // ----------------------------------------------------------------- followers

  /** Event `j` records `entry`: the confirm of an Accept delivered before. */
  ghost predicate RecordsAt(es: seq<Event>, j: nat, entry: Entry)
    requires j < |es|
  {
    es[j] == Record(entry) && entry in Run(es[..j]).delivered
  }

  /** Event `j` records a follower at `key`. */
  ghost predicate RecordsKey(es: seq<Event>, j: nat, key: Key)
    requires j < |es|
  {
    es[j].Record? && es[j].entry.key == key && RecordsAt(es, j, es[j].entry)
  }

  ghost predicate NoUndoAfter(es: seq<Event>, j: nat, key: Key) {
    forall u :: j < u < |es| ==> es[u] != UndoFollower(key)
  }

  /** A confirm recorded `key` and no retraction came after it. */
  ghost predicate Stands(es: seq<Event>, key: Key) {
    exists j :: 0 <= j < |es| && RecordsKey(es, j, key) && NoUndoAfter(es, j, key)
  }

  lemma RecordsInFront(es: seq<Event>, j: nat, key: Key)
    requires j < |es| - 1
    ensures RecordsKey(es[..|es| - 1], j, key) <==> RecordsKey(es, j, key)
  {
    assert es[..|es| - 1][..j] == es[..j];
  }

  lemma StandsSnoc(es: seq<Event>, key: Key)
    requires es != []
    ensures var n := |es| - 1;
            Stands(es, key) <==> RecordsKey(es, n, key) || (es[n] != UndoFollower(key) && Stands(es[..n], key))
  {
    hide RecordsKey;
    var n := |es| - 1;
    forall j | 0 <= j < n ensures RecordsKey(es[..n], j, key) <==> RecordsKey(es, j, key) {
      RecordsInFront(es, j, key);
    }
    if RecordsKey(es, n, key) {
      assert NoUndoAfter(es, n, key);
    }
    if es[n] != UndoFollower(key) && Stands(es[..n], key) {
      var j :| 0 <= j < n && RecordsKey(es[..n], j, key) && NoUndoAfter(es[..n], j, key);
      assert forall u :: j < u < n ==> es[..n][u] == es[u];
      assert RecordsKey(es, j, key) && NoUndoAfter(es, j, key);
    }
    if Stands(es, key) {
      var j :| 0 <= j < |es| && RecordsKey(es, j, key) && NoUndoAfter(es, j, key);
      if j < n {
        assert forall u :: j < u < n ==> es[..n][u] == es[u];
        assert RecordsKey(es[..n], j, key) && NoUndoAfter(es[..n], j, key);
      }
    }
  }

  lemma FollowerStep(w: World, e: Event, key: Key)
    ensures key in Step(w, e).followers <==>
            || (e.Record? && e.entry.key == key && e.entry in w.delivered)
            || (e != UndoFollower(key) && key in w.followers)
  {
  }

  ghost predicate Confirmed(es: seq<Event>, entry: Entry) {
    exists j :: 0 <= j < |es| && RecordsAt(es, j, entry)
  }

  lemma ConfirmedSnoc(es: seq<Event>, entry: Entry)
    requires es != []
    ensures Confirmed(es, entry) <==> Confirmed(es[..|es| - 1], entry) || RecordsAt(es, |es| - 1, entry)
  {
    var n := |es| - 1;
    forall j | 0 <= j < n ensures RecordsAt(es[..n], j, entry) <==> RecordsAt(es, j, entry) {
      assert es[..n][..j] == es[..j];
    }
    hide RecordsAt;
    if Confirmed(es[..n], entry) {
      var j :| 0 <= j < n && RecordsAt(es[..n], j, entry);
      assert RecordsAt(es, j, entry);
    }
    if Confirmed(es, entry) && !RecordsAt(es, n, entry) {
      var j :| 0 <= j < |es| && RecordsAt(es, j, entry);
      assert RecordsAt(es[..n], j, entry);
    }
  }

  /** A confirm counts as recorded exactly when it came after its Accept was
      delivered. */
  lemma {:induction false} RecordedIff(es: seq<Event>, entry: Entry)
    ensures entry in Run(es).recorded <==> Confirmed(es, entry)
  {
    hide Queued, Ranked, Dequeued, Snapshot, Confirmed;
    if es == [] {
      NothingConfirmed(entry);
    } else {
      RecordedIff(es[..|es| - 1], entry);
      ConfirmedSnoc(es, entry);
    }
  }

  lemma NothingConfirmed(entry: Entry)
    ensures !Confirmed([], entry)
  {
  }

  /** Over every run, a follower is recorded if and only if a confirm recorded it
      and no retraction came after that confirm. */
  lemma {:induction false} FollowerIffStands(es: seq<Event>, key: Key)
    ensures key in Run(es).followers <==> Stands(es, key)
  {
    hide Step, Stands;
    if es == [] {
      NothingStands(key);
    } else {
      var n := |es| - 1;
      FollowerIffStands(es[..n], key);
      FollowerStep(Run(es[..n]), es[n], key);
      StandsSnoc(es, key);
    }
  }

  /** Confirm `j` put `key` on the list with `inbox`, and no retraction came after it. */
  ghost predicate AddedAt(es: seq<Event>, j: nat, key: Key, inbox: string)
    requires j < |es|
  {
    && RecordsKey(es, j, key) && es[j].entry.inbox == inbox
    && key !in Run(es[..j]).followers && NoUndoAfter(es, j, key)
  }

  lemma InboxStep(w: World, e: Event, key: Key)
    requires key in Step(w, e).followers
    ensures key in w.followers ==> e != UndoFollower(key) && Step(w, e).followers[key] == w.followers[key]
    ensures key !in w.followers ==>
              e.Record? && e.entry.key == key && e.entry in w.delivered && Step(w, e).followers[key] == e.entry.inbox
  {
  }

  lemma AddedLater(es: seq<Event>, j: nat, key: Key, inbox: string)
    requires j < |es| - 1 && AddedAt(es[..|es| - 1], j, key, inbox) && es[|es| - 1] != UndoFollower(key)
    ensures AddedAt(es, j, key, inbox)
  {
    hide Run;
    var n := |es| - 1;
    RecordsInFront(es, j, key);
    assert es[..n][..j] == es[..j];
    assert forall u :: j < u < n ==> es[..n][u] == es[u];
  }

  /** Over every run, a follower's inbox is the one of the confirm that put it on the
      list; later confirms do not change it. */
  lemma {:induction false} FollowerInboxIsFirst(es: seq<Event>, key: Key)
    requires key in Run(es).followers
    ensures exists j :: 0 <= j < |es| && AddedAt(es, j, key, Run(es).followers[key])
  {
    hide Step, AddedAt, RecordsKey;
    var n := |es| - 1;
    InboxStep(Run(es[..n]), es[n], key);
    if key in Run(es[..n]).followers {
      FollowerInboxIsFirst(es[..n], key);
      var j :| 0 <= j < n && AddedAt(es[..n], j, key, Run(es[..n]).followers[key]);
      AddedLater(es, j, key, Run(es[..n]).followers[key]);
    } else {
      AddedLast(es, key);
    }
  }

  lemma AddedLast(es: seq<Event>, key: Key)
    requires es != [] && key !in Run(es[..|es| - 1]).followers
    requires var e := es[|es| - 1]; e.Record? && e.entry.key == key && e.entry in Run(es[..|es| - 1]).delivered
    ensures AddedAt(es, |es| - 1, key, es[|es| - 1].entry.inbox)
  {
    hide Run;
  }

  lemma NothingStands(key: Key)
    ensures !Stands([], key)
  {
  }

  /** Hence a retraction, the last one for its follower, stands exactly when no
      confirm of a delivered Accept comes after it. */
  lemma UndoStandsIff(es: seq<Event>, u: nat, key: Key)
    requires u < |es| && es[u] == UndoFollower(key) && NoUndoAfter(es, u, key)
    ensures key !in Run(es).followers <==> forall j :: u < j < |es| ==> !RecordsKey(es, j, key)
  {
    hide Run, RecordsKey;
    FollowerIffStands(es, key);
    if j :| u < j < |es| && RecordsKey(es, j, key) {
      assert NoUndoAfter(es, j, key);
    }
    if Stands(es, key) {
      var j :| 0 <= j < |es| && RecordsKey(es, j, key) && NoUndoAfter(es, j, key);
      RecordIsNoUndo(es, j, key);
    }
  }

  lemma RecordIsNoUndo(es: seq<Event>, j: nat, key: Key)
    requires j < |es| && RecordsKey(es, j, key)
    ensures es[j] != UndoFollower(key)
  {
  }

  /** An Accept counts as delivered exactly when the device listed the waiting
      request and then delivered for it. */
  ghost predicate ListedThenDelivered(es: seq<Event>, entry: Entry) {
    exists l, m :: 0 <= l < m < |es| && ListsAt(es, l, entry) && es[m] == Deliver(entry)
  }

  ghost predicate ListsAt(es: seq<Event>, l: nat, entry: Entry)
    requires l < |es|
  {
    es[l] == List(entry.key.0) && entry in Snapshot(Run(es[..l]).requests, entry.key.0)
  }

  ghost predicate Listed(es: seq<Event>, entry: Entry) {
    exists l :: 0 <= l < |es| && ListsAt(es, l, entry)
  }

  lemma ListsInFront(es: seq<Event>, l: nat, entry: Entry)
    requires l < |es| - 1
    ensures ListsAt(es[..|es| - 1], l, entry) <==> ListsAt(es, l, entry)
  {
    assert es[..|es| - 1][..l] == es[..l];
  }

  lemma ListedSnoc(es: seq<Event>, entry: Entry)
    requires es != []
    ensures Listed(es, entry) <==> Listed(es[..|es| - 1], entry) || ListsAt(es, |es| - 1, entry)
  {
    hide ListsAt;
    var n := |es| - 1;
    forall l | 0 <= l < n ensures ListsAt(es[..n], l, entry) <==> ListsAt(es, l, entry) {
      ListsInFront(es, l, entry);
    }
  }

  lemma SnapshotOwn(q: RequestTable, actor: string, entry: Entry)
    requires entry in Snapshot(q, actor)
    ensures entry.key.0 == actor
  {
  }

  lemma NothingListed(entry: Entry)
    ensures !Listed([], entry)
  {
  }

  lemma {:induction false} ListedIff(es: seq<Event>, entry: Entry)
    ensures entry in Run(es).listed <==> Listed(es, entry)
  {
    hide Listed, Snapshot, Queued, Ranked, Dequeued, Recorded, Forgotten;
    if es == [] {
      NothingListed(entry);
    } else {
      var n := |es| - 1;
      ListedIff(es[..n], entry);
      ListedSnoc(es, entry);
      if es[n].List? && entry in Snapshot(Run(es[..n]).requests, es[n].actor) {
        SnapshotOwn(Run(es[..n]).requests, es[n].actor, entry);
      }
    }
  }

  lemma ListedThenDeliveredSnoc(es: seq<Event>, entry: Entry)
    requires es != []
    ensures var n := |es| - 1;
            ListedThenDelivered(es, entry) <==>
            ListedThenDelivered(es[..n], entry) || (es[n] == Deliver(entry) && Listed(es[..n], entry))
  {
    hide ListsAt;
    var n := |es| - 1;
    forall l | 0 <= l < n ensures ListsAt(es[..n], l, entry) <==> ListsAt(es, l, entry) {
      ListsInFront(es, l, entry);
    }
    if ListedThenDelivered(es[..n], entry) {
      var l, m :| 0 <= l < m < n && ListsAt(es[..n], l, entry) && es[..n][m] == Deliver(entry);
      assert ListsAt(es, l, entry) && es[m] == Deliver(entry);
    }
    if ListedThenDelivered(es, entry) {
      var l, m :| 0 <= l < m < |es| && ListsAt(es, l, entry) && es[m] == Deliver(entry);
      assert ListsAt(es[..n], l, entry);
      if m < n {
        assert es[..n][m] == Deliver(entry);
      }
    }
  }

  lemma {:induction false} DeliveredIff(es: seq<Event>, entry: Entry)
    ensures entry in Run(es).delivered <==> ListedThenDelivered(es, entry)
  {
    hide Listed, ListedThenDelivered;
    if es == [] {
      NothingDelivered(entry);
    } else {
      var n := |es| - 1;
      DeliveredIff(es[..n], entry);
      ListedIff(es[..n], entry);
      ListedThenDeliveredSnoc(es, entry);
    }
  }

  lemma NothingDelivered(entry: Entry)
    ensures !ListedThenDelivered([], entry)
  {
  }

  /** So every recorded follower was listed, answered and then confirmed. */
  lemma FollowersWereAnswered(es: seq<Event>, key: Key)
    requires key in Run(es).followers
    ensures exists j :: 0 <= j < |es| && es[j].Record? && es[j].entry.key == key && ListedThenDelivered(es[..j], es[j].entry)
  {
    hide Run, ListedThenDelivered;
    FollowerIffStands(es, key);
    var j :| 0 <= j < |es| && RecordsKey(es, j, key) && NoUndoAfter(es, j, key);
    DeliveredIff(es[..j], es[j].entry);
  }

  /** The run in which a retraction falls between the delivery of the Accept and
      its confirm. */
  function LateUndo(key: Key, inbox: string, followId: string, now: nat): seq<Event> {
    var entry := Entry(key, inbox, followId);
    [Follow(key, inbox, followId, now, [key.1]), List(key.0), Deliver(entry), UndoRequest(key), UndoFollower(key),
     Record(entry), Consume(entry)]
  }

  lemma RunNext(es: seq<Event>, k: nat)
    requires k < |es|
    ensures Run(es[..k + 1]) == Step(Run(es[..k]), es[k])
  {
    assert es[..k + 1][..k] == es[..k];
  }

  lemma FirstFollow(key: Key, inbox: string, followId: string, now: nat)
    ensures var w := Step(START, Follow(key, inbox, followId, now, [key.1]));
            && w.requests == map[key := Request(inbox, followId, Clamp(now))] && w == START.(requests := w.requests)
            && Snapshot(w.requests, key.0) == {Entry(key, inbox, followId)}
  {
    var up := Upserted(map[], key, inbox, followId, now);
    assert key == (key.0, key.1);
    assert Ranked(up, key.0, [key.1]);
    TrimDropsOldest(up, key.0, [key.1]);
  }

  lemma LateUndoAnswered(key: Key, inbox: string, followId: string, now: nat)
    ensures var es, entry := LateUndo(key, inbox, followId, now), Entry(key, inbox, followId);
            Run(es[..3]) == World(map[key := Request(inbox, followId, Clamp(now))], map[], {entry}, {entry}, {})
  {
    hide Run, Snapshot, Queued, Ranked, Dequeued;
    var es := LateUndo(key, inbox, followId, now);
    RunStart(es[..0]);
    FirstFollow(key, inbox, followId, now);
    RunNext(es, 0);
    RunNext(es, 1);
    RunNext(es, 2);
  }

  lemma LateUndoStates(key: Key, inbox: string, followId: string, now: nat)
    ensures var es := LateUndo(key, inbox, followId, now);
            && key !in Run(es[..5]).followers && key !in Run(es[..5]).requests
            && Run(es).followers == map[key := inbox] && Run(es).requests == map[]
  {
    hide Run, Snapshot, Queued, Ranked;
    var es, entry := LateUndo(key, inbox, followId, now), Entry(key, inbox, followId);
    LateUndoAnswered(key, inbox, followId, now);
    RunNext(es, 3);
    assert Run(es[..4]) == World(map[], map[], {entry}, {entry}, {});
    RunNext(es, 4);
    assert Run(es[..5]) == World(map[], map[], {entry}, {entry}, {});
    RunNext(es, 5);
    assert Run(es[..6]) == World(map[], map[key := inbox], {entry}, {entry}, {entry});
    RunNext(es, 6);
    assert es[..7] == es;
  }

  lemma RunStart(es: seq<Event>)
    requires es == []
    ensures Run(es) == START
  {
  }

  /** Its retraction is lost: after the Undo neither table has the pair, and the
      confirm records the follower all the same. */
  lemma UndoBeforeConfirmIsOverridden(key: Key, inbox: string, followId: string, now: nat)
    ensures var es := LateUndo(key, inbox, followId, now);
            && es[3] == UndoRequest(key) && es[4] == UndoFollower(key) && NoUndoAfter(es, 4, key)
            && key !in Run(es[..5]).followers && key !in Run(es[..5]).requests && key in Run(es).followers
  {
    LateUndoStates(key, inbox, followId, now);
  }
}
