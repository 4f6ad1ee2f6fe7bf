/** Damping of follow deliveries: the process-wide attempt marks and the two
    passes over queued and pending follows
    (crates/fetchit-chat/src/fedi_follow_sync.rs). */
module FollowDamping {
  import opened Basics
  import opened Decimal

  const REASSERT_MIN_AGE_MS: nat := 600_000
  const REASSERT_COOLDOWN_MS: nat := 1_800_000
  const ACCEPT_RETRY_COOLDOWN_MS: nat := 600_000
  const MAX_TRACKED_MARKS: nat := 10_000

  type Marks = map<string, nat>

  /** `u64::saturating_sub`. */
  function Since(now: nat, earlier: nat): nat { if now >= earlier then now - earlier else 0 }

  function LastAttempt(m: Marks, key: string): Option<nat> { if key in m then Some(m[key]) else None }

  /** `mark_attempt`: an oversized map is cleared first. */
  function Attempted(m: Marks, key: string, now: nat): Marks {
    if |m| > MAX_TRACKED_MARKS then map[key := now] else m[key := now]
  }

  function InboundKey(id: string): string { "in:" + id }

  function OutboundKey(id: string): string { "out:" + id }

  predicate ShouldReassert(now: nat, createdMs: nat, last: Option<nat>) {
    Since(now, createdMs) >= REASSERT_MIN_AGE_MS && (last.Some? ==> Since(now, last.value) >= REASSERT_COOLDOWN_MS)
  }

  predicate ShouldAttemptAccept(now: nat, last: Option<nat>) {
    last.Some? ==> Since(now, last.value) >= ACCEPT_RETRY_COOLDOWN_MS
  }

  /** One row seen by a pass: a queued inbound follow, answerable unless it is
      denylisted or its inbox does not parse, or a row of our follow list. */
  datatype Visit =
    | Inbound(id: string, now: nat, answerable: bool)
    | Outbound(id: string, now: nat, createdMs: nat, pending: bool, inboxOk: bool)

  function KeyOf(v: Visit): string { if v.Inbound? then InboundKey(v.id) else OutboundKey(v.id) }

  function Cooldown(v: Visit): nat { if v.Inbound? then ACCEPT_RETRY_COOLDOWN_MS else REASSERT_COOLDOWN_MS }

  /** The pass goes ahead with this row and marks it. */
  predicate GoesAhead(m: Marks, v: Visit) {
    match v
    case Inbound(id, now, _) => ShouldAttemptAccept(now, LastAttempt(m, InboundKey(id)))
    case Outbound(id, now, created, pending, inboxOk) =>
      pending && ShouldReassert(now, created, LastAttempt(m, OutboundKey(id))) && inboxOk
  }

  /** It also sends something to the remote inbox. */
  predicate Sends(m: Marks, v: Visit) { GoesAhead(m, v) && (v.Inbound? ==> v.answerable) }

  function Visited(m: Marks, v: Visit): Marks { if GoesAhead(m, v) then Attempted(m, KeyOf(v), v.now) else m }

  function Run(m: Marks, vs: seq<Visit>): Marks {
    if vs == [] then m else Visited(Run(m, vs[..|vs| - 1]), vs[|vs| - 1])
  }

  /** A queued follow is answered exactly when it may be and its last attempt, if
      any, is ten minutes past; a follow of ours is re-sent exactly when it is
      pending, has an inbox, is ten minutes old and was not attempted for thirty. */
  lemma SendsIff(m: Marks, v: Visit)
    ensures v.Inbound? ==>
              (Sends(m, v) <==> v.answerable && ("in:" + v.id in m ==> v.now >= m["in:" + v.id] + 600_000))
    ensures v.Outbound? ==>
              (Sends(m, v) <==> && v.pending && v.inboxOk && v.now >= v.createdMs + 600_000
                                && ("out:" + v.id in m ==> v.now >= m["out:" + v.id] + 1_800_000))
  {
  }

  // --------------------------------------------------------------- whole runs

  /** Visit `k` of the run goes ahead. */
  ghost predicate AttemptAt(m: Marks, vs: seq<Visit>, k: nat)
    requires k < |vs|
  {
    GoesAhead(Run(m, vs[..k]), vs[k])
  }

  /** Visit `k` of the run clears the marks. */
  ghost predicate ClearsAt(m: Marks, vs: seq<Visit>, k: nat)
    requires k < |vs|
  {
    AttemptAt(m, vs, k) && |Run(m, vs[..k])| > MAX_TRACKED_MARKS
  }

  lemma RunSnoc(m: Marks, vs: seq<Visit>, k: nat)
    requires k < |vs|
    ensures Run(m, vs[..k + 1]) == Visited(Run(m, vs[..k]), vs[k])
  {
    assert vs[..k + 1][..k] == vs[..k];
  }

  lemma KeysApart(a: string, b: string)
    ensures InboundKey(a) != OutboundKey(b)
    ensures InboundKey(a) == InboundKey(b) <==> a == b
    ensures OutboundKey(a) == OutboundKey(b) <==> a == b
  {
    assert InboundKey(a)[0] == 'i' && OutboundKey(b)[0] == 'o';
    assert InboundKey(a)[3..] == a && InboundKey(b)[3..] == b;
    assert OutboundKey(a)[4..] == a && OutboundKey(b)[4..] == b;
  }

  /** Without a clear, the mark of an attempt stays and only moves later. */
  lemma {:induction false} MarkStays(m: Marks, vs: seq<Visit>, i: nat, k: nat)
    requires i < k <= |vs| && AttemptAt(m, vs, i)
    requires forall c :: i < c < k ==> !ClearsAt(m, vs, c)
    ensures KeyOf(vs[i]) in Run(m, vs[..k]) && Run(m, vs[..k])[KeyOf(vs[i])] >= vs[i].now
    decreases k
  {
    hide Run, KeyOf, GoesAhead;
    RunSnoc(m, vs, k - 1);
    if i < k - 1 {
      MarkStays(m, vs, i, k - 1);
      assert !ClearsAt(m, vs, k - 1);
      VisitKeepsMark(Run(m, vs[..k - 1]), vs[k - 1], KeyOf(vs[i]));
    }
  }

  lemma VisitKeepsMark(m: Marks, v: Visit, key: string)
    requires key in m && (GoesAhead(m, v) ==> |m| <= MAX_TRACKED_MARKS)
    ensures key in Visited(m, v) && Visited(m, v)[key] >= m[key]
  {
    GoesAheadSpaced(m, v);
  }

  /** Going ahead means the last mark of the row is a cooldown old. */
  lemma GoesAheadSpaced(m: Marks, v: Visit)
    ensures GoesAhead(m, v) && KeyOf(v) in m ==> v.now >= m[KeyOf(v)] + Cooldown(v)
  {
  }

  /** Two attempts for one id in one direction are a cooldown apart, within a
      pass and across passes, whatever the clock does in between, unless the
      marks were cleared between them. */
  lemma AttemptsSpaced(m: Marks, vs: seq<Visit>, i: nat, j: nat)
    requires i < j < |vs| && AttemptAt(m, vs, i) && AttemptAt(m, vs, j)
    requires vs[i].Inbound? == vs[j].Inbound? && vs[i].id == vs[j].id
    requires forall c :: i < c < j ==> !ClearsAt(m, vs, c)
    ensures vs[j].now >= vs[i].now + Cooldown(vs[j])
  {
    hide Run;
    MarkStays(m, vs, i, j);
    GoesAheadSpaced(Run(m, vs[..j]), vs[j]);
  }

  /** The marks map never holds more than one entry beyond its guard. */
  lemma {:induction false} MarksBounded(m: Marks, vs: seq<Visit>)
    requires |m| <= MAX_TRACKED_MARKS + 1
    ensures |Run(m, vs)| <= MAX_TRACKED_MARKS + 1
  {
    if vs != [] {
      var front := Run(m, vs[..|vs| - 1]);
      MarksBounded(m, vs[..|vs| - 1]);
      AttemptedSmall(front, KeyOf(vs[|vs| - 1]), vs[|vs| - 1].now);
    }
  }

  lemma AttemptedSmall(m: Marks, key: string, now: nat)
    requires |m| <= MAX_TRACKED_MARKS + 1
    ensures |Attempted(m, key, now)| <= MAX_TRACKED_MARKS + 1
  {
    assert m[key := now].Keys == m.Keys + {key};
    assert map[key := now].Keys == {key};
  }

  // --------------------------------------- inbound ids do not touch outbound

  function OutboundOnly(vs: seq<Visit>): seq<Visit> {
    if vs == [] then []
    else OutboundOnly(vs[..|vs| - 1]) + if vs[|vs| - 1].Outbound? then [vs[|vs| - 1]] else []
  }

  ghost predicate SameOutbound(a: Marks, b: Marks) {
    forall id :: LastAttempt(a, OutboundKey(id)) == LastAttempt(b, OutboundKey(id))
  }

  lemma InboundLeavesOutbound(a: Marks, b: Marks, v: Visit)
    requires SameOutbound(a, b) && v.Inbound? && (GoesAhead(a, v) ==> |a| <= MAX_TRACKED_MARKS)
    ensures SameOutbound(Visited(a, v), b)
  {
    forall id ensures LastAttempt(Visited(a, v), OutboundKey(id)) == LastAttempt(b, OutboundKey(id)) {
      KeysApart(v.id, id);
    }
  }

  lemma OutboundAlike(a: Marks, b: Marks, v: Visit)
    requires SameOutbound(a, b) && v.Outbound?
    requires GoesAhead(a, v) ==> |a| <= MAX_TRACKED_MARKS && |b| <= MAX_TRACKED_MARKS
    ensures GoesAhead(a, v) <==> GoesAhead(b, v)
    ensures SameOutbound(Visited(a, v), Visited(b, v))
  {
    assert LastAttempt(a, OutboundKey(v.id)) == LastAttempt(b, OutboundKey(v.id));
    forall id ensures LastAttempt(Visited(a, v), OutboundKey(id)) == LastAttempt(Visited(b, v), OutboundKey(id)) {
      KeysApart(v.id, id);
      assert LastAttempt(a, OutboundKey(id)) == LastAttempt(b, OutboundKey(id));
    }
  }

  ghost predicate NeverClears(m: Marks, vs: seq<Visit>) {
    forall k :: 0 <= k < |vs| ==> !ClearsAt(m, vs, k)
  }

  lemma NeverClearsFront(m: Marks, vs: seq<Visit>)
    requires vs != [] && NeverClears(m, vs)
    ensures NeverClears(m, vs[..|vs| - 1])
    ensures GoesAhead(Run(m, vs[..|vs| - 1]), vs[|vs| - 1]) ==> |Run(m, vs[..|vs| - 1])| <= MAX_TRACKED_MARKS
  {
    hide Run, GoesAhead;
    var front := vs[..|vs| - 1];
    forall k | 0 <= k < |front| ensures !ClearsAt(m, front, k) {
      assert front[..k] == vs[..k];
      assert !ClearsAt(m, vs, k);
    }
    assert !ClearsAt(m, vs, |vs| - 1);
  }

  /** As long as nothing clears the marks, the outbound marks of a run are what
      they would be had no inbound follow ever arrived. */
  lemma {:induction false} InboundIdsDoNotInterfere(m: Marks, vs: seq<Visit>)
    requires NeverClears(m, vs)
    ensures SameOutbound(Run(m, vs), Run(m, OutboundOnly(vs)))
    ensures Run(m, OutboundOnly(vs)).Keys <= Run(m, vs).Keys
  {
    hide Visited, GoesAhead;
    if vs != [] {
      var front, v := vs[..|vs| - 1], vs[|vs| - 1];
      var a, b := Run(m, front), Run(m, OutboundOnly(front));
      NeverClearsFront(m, vs);
      InboundIdsDoNotInterfere(m, front);
      if v.Outbound? {
        var outs := OutboundOnly(vs);
        assert outs[..|outs| - 1] == OutboundOnly(front) && outs[|outs| - 1] == v;
        SubsetCards(b.Keys, a.Keys);
        BothGoOrStay(a, b, v);
        OutboundAlike(a, b, v);
      } else {
        assert OutboundOnly(vs) == OutboundOnly(front);
        InboundLeavesOutbound(a, b, v);
      }
      MarksGrowAlike(a, b, v);
    }
  }

  lemma MarksGrowAlike(a: Marks, b: Marks, v: Visit)
    requires b.Keys <= a.Keys && SameOutbound(a, b) && (GoesAhead(a, v) ==> |a| <= MAX_TRACKED_MARKS)
    ensures if v.Outbound? then Visited(b, v).Keys <= Visited(a, v).Keys else b.Keys <= Visited(a, v).Keys
  {
    SubsetCards(b.Keys, a.Keys);
    if v.Outbound? {
      BothGoOrStay(a, b, v);
    }
  }

  lemma BothGoOrStay(a: Marks, b: Marks, v: Visit)
    requires SameOutbound(a, b) && v.Outbound?
    ensures GoesAhead(a, v) <==> GoesAhead(b, v)
  {
    assert LastAttempt(a, OutboundKey(v.id)) == LastAttempt(b, OutboundKey(v.id));
  }

  /** So every re-assert decision is what it would be without them: remotely
      chosen ids cannot touch it. */
  lemma InboundIdsChangeNoReassert(m: Marks, vs: seq<Visit>, v: Visit)
    requires NeverClears(m, vs) && v.Outbound?
    ensures GoesAhead(Run(m, vs), v) <==> GoesAhead(Run(m, OutboundOnly(vs)), v)
  {
    InboundIdsDoNotInterfere(m, vs);
    BothGoOrStay(Run(m, vs), Run(m, OutboundOnly(vs)), v);
  }

  ghost predicate HoldsOutbound(m: Marks) { exists id :: OutboundKey(id) in m }

  /** An inbound row leaves the outbound marks as they are exactly when it does
      not clear the marks, or there are none to lose. */
  lemma InboundSparesIff(m: Marks, v: Visit)
    requires v.Inbound?
    ensures SameOutbound(Visited(m, v), m) <==> !(GoesAhead(m, v) && |m| > MAX_TRACKED_MARKS && HoldsOutbound(m))
  {
    forall id ensures InboundKey(v.id) != OutboundKey(id) {
      KeysApart(v.id, id);
    }
    if GoesAhead(m, v) && |m| > MAX_TRACKED_MARKS && HoldsOutbound(m) {
      var id :| OutboundKey(id) in m;
      assert LastAttempt(Visited(m, v), OutboundKey(id)) != LastAttempt(m, OutboundKey(id));
    }
  }

  /** A follow re-asserted at `start`, then follows of different ids, the `i`-th
      at `at[i]`. */
  function Flood(outId: string, start: nat, createdMs: nat, at: seq<nat>): seq<Visit> {
    if at == [] then [Outbound(outId, start, createdMs, true, true)]
    else Flood(outId, start, createdMs, at[..|at| - 1]) + [Inbound(Digits(|at| - 1), at[|at| - 1], true)]
  }

  /** The marks after the flood: one for each row and no other. */
  ghost predicate Flooded(m: Marks, outId: string, start: nat, n: nat) {
    && |m| == n + 1 && OutboundKey(outId) in m && m[OutboundKey(outId)] == start
    && forall i: nat :: InboundKey(Digits(i)) in m ==> i < n
  }

  lemma RunOneMore(m: Marks, vs: seq<Visit>, v: Visit)
    ensures Run(m, vs + [v]) == Visited(Run(m, vs), v)
  {
    assert (vs + [v])[..|vs|] == vs;
  }

  lemma FloodStep(m: Marks, outId: string, start: nat, n: nat, now: nat)
    requires n < MAX_TRACKED_MARKS && Flooded(m, outId, start, n)
    ensures Flooded(Visited(m, Inbound(Digits(n), now, true)), outId, start, n + 1)
  {
    hide Digits;
    var key := InboundKey(Digits(n));
    assert key !in m;
    var next := m[key := now];
    assert next.Keys == m.Keys + {key};
    KeysApart(Digits(n), outId);
    forall i: nat | InboundKey(Digits(i)) in next ensures i < n + 1 {
      if InboundKey(Digits(i)) !in m {
        KeysApart(Digits(i), Digits(n));
        DigitsInjective(i, n);
      }
    }
  }

  lemma FloodStarts(outId: string, start: nat, createdMs: nat)
    requires Since(start, createdMs) >= REASSERT_MIN_AGE_MS
    ensures Flooded(Run(map[], Flood(outId, start, createdMs, [])), outId, start, 0)
  {
    var v := Outbound(outId, start, createdMs, true, true);
    assert [v][..0] == [];
    assert Run(map[], [v]) == map[OutboundKey(outId) := start];
    assert map[OutboundKey(outId) := start].Keys == {OutboundKey(outId)};
    forall i: nat | InboundKey(Digits(i)) in map[OutboundKey(outId) := start] ensures false {
      KeysApart(Digits(i), outId);
    }
  }

  lemma {:induction false} FloodFills(outId: string, start: nat, createdMs: nat, at: seq<nat>)
    requires |at| <= MAX_TRACKED_MARKS && Since(start, createdMs) >= REASSERT_MIN_AGE_MS
    ensures Flooded(Run(map[], Flood(outId, start, createdMs, at)), outId, start, |at|)
  {
    hide Flooded, Visited, Run;
    if at == [] {
      FloodStarts(outId, start, createdMs);
    } else {
      var n := |at| - 1;
      FloodFills(outId, start, createdMs, at[..n]);
      FloodStep(Run(map[], Flood(outId, start, createdMs, at[..n])), outId, start, n, at[n]);
      RunOneMore(map[], Flood(outId, start, createdMs, at[..n]), Inbound(Digits(n), at[n], true));
    }
  }

  /** A run in which it happens: a follow is re-asserted, ten thousand and one
      follows of different ids arrive, at whatever times, and the follow is
      re-asserted again although its cooldown has not passed; one arrival fewer
      and it was not. */
  lemma FloodLetsReassertAgain(outId: string, start: nat, again: nat, createdMs: nat, at: seq<nat>)
    requires |at| == MAX_TRACKED_MARKS + 1
    requires Since(start, createdMs) >= REASSERT_MIN_AGE_MS && start <= again < start + REASSERT_COOLDOWN_MS
    ensures var v := Outbound(outId, again, createdMs, true, true);
            && !GoesAhead(Run(map[], Flood(outId, start, createdMs, at[..MAX_TRACKED_MARKS])), v)
            && GoesAhead(Run(map[], Flood(outId, start, createdMs, at)), v)
  {
    hide Flood, Run;
    var n := MAX_TRACKED_MARKS;
    var most := at[..n];
    var m := Run(map[], Flood(outId, start, createdMs, most));
    FloodFills(outId, start, createdMs, most);
    FloodMore(outId, start, createdMs, at);
    RunOneMore(map[], Flood(outId, start, createdMs, most), Inbound(Digits(n), at[n], true));
    assert InboundKey(Digits(n)) !in m;
    KeysApart(Digits(n), outId);
  }

  lemma FloodMore(outId: string, start: nat, createdMs: nat, at: seq<nat>)
    requires at != []
    ensures var n := |at| - 1;
            Flood(outId, start, createdMs, at) == Flood(outId, start, createdMs, at[..n]) + [Inbound(Digits(n), at[n], true)]
  {
  }

  // -------------------------------------------------------------- the two passes

  const U32_MAX: nat := 0xffff_ffff

  /** The ids to which a run of visits sends, in order. */
  function SentTo(m: Marks, vs: seq<Visit>): seq<string> {
    if vs == [] then []
    else
      var front, v := vs[..|vs| - 1], vs[|vs| - 1];
      SentTo(m, front) + if Sends(Run(m, front), v) then [v.id] else []
  }

  /** How many of the sends of a run the remote inbox takes, where `taken[i]` is
      its answer to visit `i`. */
  function DeliveredCount(m: Marks, vs: seq<Visit>, taken: seq<bool>): nat
    requires |taken| == |vs|
  {
    if vs == [] then 0
    else
      var n := |vs| - 1;
      DeliveredCount(m, vs[..n], taken[..n]) + if Sends(Run(m, vs[..n]), vs[n]) && taken[n] then 1 else 0
  }

  function Capped(n: nat): nat { if n <= U32_MAX then n else U32_MAX }

  /** A queued request as fetched, with the verdicts of the denylist and of the
      URL parser on it. */
  datatype Request = Request(id: string, denied: bool, inboxOk: bool)

  datatype FollowRow = FollowRow(id: string, createdMs: nat, pending: bool, inboxOk: bool)

  function AcceptVisits(reqs: seq<Request>, now: nat): (r: seq<Visit>)
    ensures |r| == |reqs|
    ensures forall i :: 0 <= i < |reqs| ==> r[i] == Inbound(reqs[i].id, now, !reqs[i].denied && reqs[i].inboxOk)
  {
    seq(|reqs|, i requires 0 <= i < |reqs| => Inbound(reqs[i].id, now, !reqs[i].denied && reqs[i].inboxOk))
  }

  function ReassertVisits(rows: seq<FollowRow>, now: nat): (r: seq<Visit>)
    ensures |r| == |rows|
    ensures forall i :: 0 <= i < |rows| ==> r[i] == Outbound(rows[i].id, now, rows[i].createdMs, rows[i].pending, rows[i].inboxOk)
  {
    seq(|rows|, i requires 0 <= i < |rows| => Outbound(rows[i].id, now, rows[i].createdMs, rows[i].pending, rows[i].inboxOk))
  }

  lemma RunNext(m: Marks, vs: seq<Visit>, i: nat, taken: seq<bool>)
    requires i < |vs| == |taken|
    ensures Run(m, vs[..i + 1]) == Visited(Run(m, vs[..i]), vs[i])
    ensures SentTo(m, vs[..i + 1]) == SentTo(m, vs[..i]) + if Sends(Run(m, vs[..i]), vs[i]) then [vs[i].id] else []
    ensures DeliveredCount(m, vs[..i + 1], taken[..i + 1]) ==
            DeliveredCount(m, vs[..i], taken[..i]) + if Sends(Run(m, vs[..i]), vs[i]) && taken[i] then 1 else 0
  {
    hide Visited, Sends;
    assert vs[..i + 1][..i] == vs[..i] && taken[..i + 1][..i] == taken[..i];
  }

  lemma {:induction false} SentFrom(m: Marks, vs: seq<Visit>, id: string)
    requires id in SentTo(m, vs)
    ensures exists k :: 0 <= k < |vs| && vs[k].id == id && Sends(Run(m, vs[..k]), vs[k])
  {
    hide Sends, Run;
    var n := |vs| - 1;
    if id in SentTo(m, vs[..n]) {
      SentFrom(m, vs[..n], id);
      var k :| 0 <= k < n && vs[..n][k].id == id && Sends(Run(m, vs[..n][..k]), vs[..n][k]);
      assert vs[..n][..k] == vs[..k];
    }
  }

  /** No pass answers a denylisted request or one whose inbox does not parse. */
  lemma NeverAnswersDenied(m: Marks, reqs: seq<Request>, now: nat, id: string)
    requires id in SentTo(m, AcceptVisits(reqs, now))
    ensures exists i :: 0 <= i < |reqs| && reqs[i].id == id && !reqs[i].denied && reqs[i].inboxOk
  {
    hide SentTo, Run;
    SentFrom(m, AcceptVisits(reqs, now), id);
    var k :| 0 <= k < |reqs| && AcceptVisits(reqs, now)[k].id == id && Sends(Run(m, AcceptVisits(reqs, now)[..k]), AcceptVisits(reqs, now)[k]);
    assert reqs[k].id == id;
  }

  /** No pass re-sends a follow that is not pending, has no inbox, or is younger than
      ten minutes. */
  lemma NeverResendsYoung(m: Marks, rows: seq<FollowRow>, now: nat, id: string)
    requires id in SentTo(m, ReassertVisits(rows, now))
    ensures exists i :: 0 <= i < |rows| && rows[i].id == id && rows[i].pending && rows[i].inboxOk && now >= rows[i].createdMs + 600_000
  {
    hide SentTo, Run;
    var vs := ReassertVisits(rows, now);
    SentFrom(m, vs, id);
    var k :| 0 <= k < |vs| && vs[k].id == id && Sends(Run(m, vs[..k]), vs[k]);
    SendsIff(Run(m, vs[..k]), vs[k]);
    assert rows[k].id == id;
  }

  class Damper {
    var marks: Marks

    constructor ()
      ensures marks == map[]
    {
      marks := map[];
    }

    method MarkAttempt(key: string, now: nat)
      modifies this
      ensures marks == Attempted(old(marks), key, now)
    {
      if |marks| > MAX_TRACKED_MARKS {
        marks := map[];
      }
      marks := marks[key := now];
    }

    /** Pass 1: answer queued inbound follows; `taken` is the transport's answer
        to each delivery. */
    method AcceptQueued(reqs: seq<Request>, now: nat, taken: seq<bool>) returns (accepted: nat, ghost sent: seq<string>)
      requires |taken| == |reqs|
      modifies this
      ensures marks == Run(old(marks), AcceptVisits(reqs, now))
      ensures sent == SentTo(old(marks), AcceptVisits(reqs, now))
      ensures accepted == Capped(DeliveredCount(old(marks), AcceptVisits(reqs, now), taken))
    {
      hide Run, SentTo, DeliveredCount;
      accepted, sent := 0, [];
      ghost var m, vs := marks, AcceptVisits(reqs, now);
      NothingVisited(m);
      for i := 0 to |reqs|
        invariant marks == Run(m, vs[..i])
        invariant sent == SentTo(m, vs[..i])
        invariant accepted == Capped(DeliveredCount(m, vs[..i], taken[..i]))
      {
        RunNext(m, vs, i, taken);
        var key := InboundKey(reqs[i].id);
        if !ShouldAttemptAccept(now, LastAttempt(marks, key)) {
          continue;
        }
        if reqs[i].denied {
          MarkAttempt(key, now);
          continue;
        }
        if !reqs[i].inboxOk {
          MarkAttempt(key, now);
          continue;
        }
        MarkAttempt(key, now);
        sent := sent + [reqs[i].id];
        if taken[i] {
          accepted := if accepted < U32_MAX then accepted + 1 else U32_MAX;
        }
      }
      assert vs[..|reqs|] == vs && taken[..|reqs|] == taken;
    }

    /** Pass 2: re-deliver stuck pending follows. */
    method ReassertPending(rows: seq<FollowRow>, now: nat, taken: seq<bool>) returns (reasserted: nat, ghost sent: seq<string>)
      requires |taken| == |rows|
      modifies this
      ensures marks == Run(old(marks), ReassertVisits(rows, now))
      ensures sent == SentTo(old(marks), ReassertVisits(rows, now))
      ensures reasserted == Capped(DeliveredCount(old(marks), ReassertVisits(rows, now), taken))
    {
      hide Run, SentTo, DeliveredCount;
      reasserted, sent := 0, [];
      ghost var m, vs := marks, ReassertVisits(rows, now);
      NothingVisited(m);
      for i := 0 to |rows|
        invariant marks == Run(m, vs[..i])
        invariant sent == SentTo(m, vs[..i])
        invariant reasserted == Capped(DeliveredCount(m, vs[..i], taken[..i]))
      {
        RunNext(m, vs, i, taken);
        if !rows[i].pending {
          continue;
        }
        var key := OutboundKey(rows[i].id);
        if !ShouldReassert(now, rows[i].createdMs, LastAttempt(marks, key)) {
          continue;
        }
        if !rows[i].inboxOk {
          continue;
        }
        MarkAttempt(key, now);
        sent := sent + [rows[i].id];
        if taken[i] {
          reasserted := if reasserted < U32_MAX then reasserted + 1 else U32_MAX;
        }
      }
      assert vs[..|rows|] == vs && taken[..|rows|] == taken;
    }
  }

  lemma NothingVisited(m: Marks)
    ensures Run(m, []) == m && SentTo(m, []) == [] && DeliveredCount(m, [], []) == 0
  {
  }
}
