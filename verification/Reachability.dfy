/** Direct-gossip reachability, the bridge-loopback shadow and the routing rule
    (crates/fetchit-chat/src/groups_reachability.rs) over whole event histories. */
module Reachability {
  import opened Basics

  const STALE_AFTER_MS: nat := 60_000
  const SHADOW_WINDOW_MS: nat := 30_000

  type Payload = seq<bv8>
  type Member = (string, string)
  type Cache = map<Member, nat>
  type Shadow = map<nat, nat>

  /** `u64::saturating_sub`. */
  function Age(now: nat, then_: nat): nat { if now >= then_ then now - then_ else 0 }

  predicate Reachable(cache: Cache, group: string, member: string, now: nat) {
    (group, member) in cache && Age(now, cache[(group, member)]) < STALE_AFTER_MS
  }

  predicate IsRecent(shadow: Shadow, hash: nat, now: nat) {
    hash in shadow && Age(now, shadow[hash]) < SHADOW_WINDOW_MS
  }

  function Evicted(shadow: Shadow, now: nat, cutoff: nat): Shadow {
    map h | h in shadow && Age(now, shadow[h]) < cutoff :: shadow[h]
  }

  // --------------------------------------------------------- classification

  const PREFIX := "x0x.named_group/"
  const SUFFIX := "/metadata"

  predicate GroupIdChar(c: char) {
    'a' <= c <= 'z' || 'A' <= c <= 'Z' || '0' <= c <= '9' || c == '_' || c == '-'
  }

  predicate IsGroupId(s: string) { s != [] && forall i :: 0 <= i < |s| ==> GroupIdChar(s[i]) }

  /** `group_id_from_metadata_topic`. */
  function GroupOfTopic(topic: string): Option<string> {
    if |topic| < |PREFIX| || topic[..|PREFIX|] != PREFIX then None
    else
      var inside := topic[|PREFIX|..];
      if |inside| < |SUFFIX| || inside[|inside| - |SUFFIX|..] != SUFFIX then None
      else
        var gid := inside[..|inside| - |SUFFIX|];
        if IsGroupId(gid) then Some(gid) else None
  }

  /** The metadata topic of a group names exactly that group. */
  lemma TopicRoundTrip(gid: string, topic: string)
    ensures GroupOfTopic(topic) == Some(gid) <==> IsGroupId(gid) && topic == PREFIX + gid + SUFFIX
  {
    if topic == PREFIX + gid + SUFFIX {
      var inside := topic[|PREFIX|..];
      assert topic[..|PREFIX|] == PREFIX && inside == gid + SUFFIX;
      assert inside[|inside| - |SUFFIX|..] == SUFFIX && inside[..|inside| - |SUFFIX|] == gid;
    }
    if GroupOfTopic(topic) == Some(gid) {
      var inside := topic[|PREFIX|..];
      assert topic == PREFIX + inside && inside == gid + SUFFIX;
    }
  }

  predicate EqIgnoreCase(a: string, b: string) {
    |a| == |b| && forall i :: 0 <= i < |a| ==> LowerChar(a[i]) == LowerChar(b[i])
  }

  /** This agent's hex id and the payload hash. */
  datatype Peer = Peer(local: string, hash: Payload -> nat)

  /** `classify_sse_event`. */
  function Classify(p: Peer, topic: string, payload: Payload, from: Option<string>, shadow: Shadow, now: nat): Option<Member> {
    if from.None? || EqIgnoreCase(from.value, p.local) || IsRecent(shadow, p.hash(payload), now) then None
    else match GroupOfTopic(topic)
         case None => None
         case Some(group) => Some((group, from.value))
  }

  // ---------------------------------------------------------------- routing

  datatype Consent = NotAsked | OptIn | OptOut

  datatype Decision = LetGossipCarry | WrapAndSend | DropDeclined | PromptConsent

  function ConsentOf(consent: map<string, Consent>, group: string): Consent {
    if group in consent then consent[group] else NotAsked
  }

  /** `decide_route`. */
  function Route(cache: Cache, consent: map<string, Consent>, group: string, member: string, now: nat): Decision {
    if Reachable(cache, group, member, now) then LetGossipCarry
    else match ConsentOf(consent, group)
         case OptIn => WrapAndSend
         case OptOut => DropDeclined
         case NotAsked => PromptConsent
  }

  // -------------------------------------------------------------- histories

  datatype Event =
    | Marked(payload: Payload, at: nat)
    | Gossip(topic: string, body: Payload, from: Option<string>, at: nat)
    | Forgotten(who: Member)
    | Swept(at: nat, cutoff: nat)

  datatype State = State(cache: Cache, shadow: Shadow)

  const START := State(map[], map[])

  function Step(p: Peer, s: State, e: Event): State {
    match e
    case Marked(payload, at) => s.(shadow := s.shadow[p.hash(payload) := at])
    case Gossip(topic, body, from, at) =>
      (match Classify(p, topic, body, from, s.shadow, at)
       case Some(who) => s.(cache := s.cache[who := at])
       case None => s)
    case Forgotten(who) => s.(cache := s.cache - {who})
    case Swept(at, cutoff) => s.(shadow := Evicted(s.shadow, at, cutoff))
  }

  function Run(p: Peer, es: seq<Event>): State {
    if es == [] then START else Step(p, Run(p, es[..|es| - 1]), es[|es| - 1])
  }

  predicate NotAfter(e: Event, now: nat) { e.Forgotten? || e.at <= now }

  /** The clock never steps back and `now` is not before any event. */
  ghost predicate InTime(es: seq<Event>, now: nat) {
    && (forall i :: 0 <= i < |es| ==> NotAfter(es[i], now))
    && (forall i, j :: 0 <= i < j < |es| && !es[j].Forgotten? ==> NotAfter(es[i], es[j].at))
  }

  /** Every sweep uses a cutoff of at least the window. */
  ghost predicate SweepsOk(es: seq<Event>) {
    forall i :: 0 <= i < |es| && es[i].Swept? ==> es[i].cutoff >= SHADOW_WINDOW_MS
  }

  lemma InTimeFront(es: seq<Event>, now: nat)
    requires es != [] && InTime(es, now)
    ensures InTime(es[..|es| - 1], now)
    ensures !es[|es| - 1].Forgotten? ==> InTime(es[..|es| - 1], es[|es| - 1].at)
  {
  }

  /** A bridge mark for this hash within the window before `now`. */
  ghost predicate BridgedRecently(p: Peer, es: seq<Event>, hash: nat, now: nat) {
    exists j :: 0 <= j < |es| && MarkWithin(p, es[j], hash, now)
  }

  predicate MarkWithin(p: Peer, e: Event, hash: nat, now: nat) {
    e.Marked? && p.hash(e.payload) == hash && now < e.at + SHADOW_WINDOW_MS
  }

  lemma BridgedSnoc(p: Peer, es: seq<Event>, hash: nat, now: nat)
    requires es != []
    ensures BridgedRecently(p, es, hash, now) <==>
            BridgedRecently(p, es[..|es| - 1], hash, now) || MarkWithin(p, es[|es| - 1], hash, now)
  {
    var front := es[..|es| - 1];
    if BridgedRecently(p, front, hash, now) {
      var j :| 0 <= j < |front| && MarkWithin(p, front[j], hash, now);
      assert es[j] == front[j];
    }
    if BridgedRecently(p, es, hash, now) && !MarkWithin(p, es[|es| - 1], hash, now) {
      var j :| 0 <= j < |es| && MarkWithin(p, es[j], hash, now);
      assert front[j] == es[j];
    }
  }

  /** The shadow answers exactly whether the history has a mark in the window. */
  lemma {:induction false} ShadowIff(p: Peer, es: seq<Event>, hash: nat, now: nat)
    requires InTime(es, now) && SweepsOk(es)
    ensures IsRecent(Run(p, es).shadow, hash, now) <==> BridgedRecently(p, es, hash, now)
  {
    if es != [] {
      var front, e := es[..|es| - 1], es[|es| - 1];
      InTimeFront(es, now);
      ShadowIff(p, front, hash, now);
      BridgedSnoc(p, es, hash, now);
      assert NotAfter(e, now);
      if e.Marked? && p.hash(e.payload) == hash && BridgedRecently(p, front, hash, now) {
        var j :| 0 <= j < |front| && MarkWithin(p, front[j], hash, now);
        assert NotAfter(es[j], e.at);
      }
    }
  }

  // ------------------------------------------------------- reachability, exactly

  /** A metadata frame of this group from this non-local member whose payload the
      bridge had not delivered in the preceding window. */
  ghost predicate FreshGossip(p: Peer, es: seq<Event>, i: nat, group: string, member: string)
    requires i < |es|
  {
    && es[i].Gossip? && es[i].from == Some(member) && !EqIgnoreCase(member, p.local)
    && GroupOfTopic(es[i].topic) == Some(group)
    && !BridgedRecently(p, es[..i], p.hash(es[i].body), es[i].at)
  }

  /** Event `i` is such a frame, recent at `now`, and nobody forgot it since. */
  ghost predicate Evidence(p: Peer, es: seq<Event>, i: nat, group: string, member: string, now: nat)
    requires i < |es|
  {
    && FreshGossip(p, es, i, group, member)
    && now < es[i].at + STALE_AFTER_MS
    && forall k :: i < k < |es| ==> es[k] != Forgotten((group, member))
  }

  ghost predicate HasEvidence(p: Peer, es: seq<Event>, group: string, member: string, now: nat) {
    exists i :: 0 <= i < |es| && Evidence(p, es, i, group, member, now)
  }

  lemma EvidenceInFront(p: Peer, es: seq<Event>, i: nat, group: string, member: string, now: nat)
    requires i < |es| - 1
    ensures Evidence(p, es, i, group, member, now) <==>
            Evidence(p, es[..|es| - 1], i, group, member, now) && es[|es| - 1] != Forgotten((group, member))
  {
    hide BridgedRecently, GroupOfTopic, EqIgnoreCase;
    var front := es[..|es| - 1];
    assert front[..i] == es[..i] && front[i] == es[i];
    assert forall k :: i < k < |front| ==> front[k] == es[k];
  }

  lemma EvidenceSnoc(p: Peer, es: seq<Event>, group: string, member: string, now: nat)
    requires es != []
    ensures HasEvidence(p, es, group, member, now) <==>
            || (HasEvidence(p, es[..|es| - 1], group, member, now) && es[|es| - 1] != Forgotten((group, member)))
            || Evidence(p, es, |es| - 1, group, member, now)
  {
    hide Evidence;
    var front := es[..|es| - 1];
    forall i | 0 <= i < |front|
      ensures Evidence(p, es, i, group, member, now) <==> Evidence(p, front, i, group, member, now) && es[|es| - 1] != Forgotten((group, member))
    {
      EvidenceInFront(p, es, i, group, member, now);
    }
  }

  lemma StepCache(p: Peer, s: State, e: Event, group: string, member: string)
    ensures var s' := Step(p, s, e); var who := (group, member);
            if e.Gossip? && Classify(p, e.topic, e.body, e.from, s.shadow, e.at) == Some(who)
            then who in s'.cache && s'.cache[who] == e.at
            else if e == Forgotten(who) then who !in s'.cache
            else (who in s'.cache <==> who in s.cache) && (who in s.cache ==> s'.cache[who] == s.cache[who])
  {
    hide Classify;
  }

  /** A later frame is younger evidence than an earlier one. */
  lemma LaterIsYounger(p: Peer, es: seq<Event>, group: string, member: string, now: nat)
    requires es != [] && es[|es| - 1].Gossip? && InTime(es, now)
    requires HasEvidence(p, es[..|es| - 1], group, member, now)
    ensures now < es[|es| - 1].at + STALE_AFTER_MS
  {
    var front := es[..|es| - 1];
    var i :| 0 <= i < |front| && Evidence(p, front, i, group, member, now);
    assert NotAfter(es[i], es[|es| - 1].at) && NotAfter(es[|es| - 1], now);
  }

  /** The cache finds a member reachable exactly when the history has evidence:
      within the last sixty seconds a metadata frame for that group from that
      non-local member, not delivered by the bridge in the thirty seconds before
      it, and not forgotten since. */
  lemma {:induction false} ReachableIff(p: Peer, es: seq<Event>, group: string, member: string, now: nat)
    requires InTime(es, now) && SweepsOk(es)
    ensures Reachable(Run(p, es).cache, group, member, now) <==> HasEvidence(p, es, group, member, now)
  {
    hide HasEvidence, Evidence, Step, Classify;
    if es == [] {
      NoEvidence(p, group, member, now);
    } else {
      var front, e := es[..|es| - 1], es[|es| - 1];
      InTimeFront(es, now);
      ReachableIff(p, front, group, member, now);
      EvidenceSnoc(p, es, group, member, now);
      StepCache(p, Run(p, front), e, group, member);
      LastIsEvidenceIff(p, es, group, member, now);
      if e.Gossip? && HasEvidence(p, front, group, member, now) {
        LaterIsYounger(p, es, group, member, now);
      }
    }
  }

  lemma NoEvidence(p: Peer, group: string, member: string, now: nat)
    ensures !HasEvidence(p, [], group, member, now)
  {
  }

  lemma LastIsEvidenceIff(p: Peer, es: seq<Event>, group: string, member: string, now: nat)
    requires es != [] && InTime(es, now) && SweepsOk(es)
    ensures var e := es[|es| - 1];
            Evidence(p, es, |es| - 1, group, member, now) <==>
            && e.Gossip? && now < e.at + STALE_AFTER_MS
            && Classify(p, e.topic, e.body, e.from, Run(p, es[..|es| - 1]).shadow, e.at) == Some((group, member))
  {
    hide BridgedRecently, GroupOfTopic, EqIgnoreCase, Run, IsRecent;
    var e := es[|es| - 1];
    if e.Gossip? {
      InTimeFront(es, now);
      ShadowIff(p, es[..|es| - 1], p.hash(e.body), e.at);
    }
  }

  /** Routing trusts gossip exactly on such evidence, whatever the consent. */
  lemma GossipCarriesIff(p: Peer, es: seq<Event>, consent: map<string, Consent>, group: string, member: string, now: nat)
    requires InTime(es, now) && SweepsOk(es)
    ensures Route(Run(p, es).cache, consent, group, member, now) == LetGossipCarry <==> HasEvidence(p, es, group, member, now)
  {
    ReachableIff(p, es, group, member, now);
  }

  /** Without it the group's consent decides: sent over the bridge exactly when the
      group opted in, dropped exactly when it opted out, and otherwise asked for. */
  lemma ConsentDecides(p: Peer, es: seq<Event>, consent: map<string, Consent>, group: string, member: string, now: nat)
    requires InTime(es, now) && SweepsOk(es) && !HasEvidence(p, es, group, member, now)
    ensures var r := Route(Run(p, es).cache, consent, group, member, now);
            && (r == WrapAndSend <==> group in consent && consent[group] == OptIn)
            && (r == DropDeclined <==> group in consent && consent[group] == OptOut)
            && (r == PromptConsent <==> group !in consent || consent[group] == NotAsked)
  {
    ReachableIff(p, es, group, member, now);
  }

  /** A group id is safe as a path segment: letters, digits, `_` and `-` only. */
  lemma GroupIdIsSegment(topic: string)
    ensures GroupOfTopic(topic).Some? ==>
              var gid := GroupOfTopic(topic).value;
              gid != "" && forall c <- gid :: 'a' <= c <= 'z' || 'A' <= c <= 'Z' || '0' <= c <= '9' || c == '_' || c == '-'
    ensures GroupOfTopic("x0x.named_group/aZ0_-/metadata") == Some("aZ0_-")
  {
    TopicRoundTrip("aZ0_-", "x0x.named_group/aZ0_-/metadata");
  }

  /** Agent ids are compared without regard to the case of ASCII letters. */
  lemma EqIgnoreCaseIff(a: string, b: string)
    ensures EqIgnoreCase(a, b) <==>
            && |a| == |b|
            && forall i :: 0 <= i < |a| ==>
                 || a[i] == b[i]
                 || ('A' <= a[i] <= 'Z' && b[i] as int == a[i] as int + 32)
                 || ('A' <= b[i] <= 'Z' && a[i] as int == b[i] as int + 32)
  {
  }

  // -------------------------------------------------------- sweeping is invisible

  function Unswept(es: seq<Event>): seq<Event> {
    if es == [] then []
    else Unswept(es[..|es| - 1]) + if es[|es| - 1].Swept? then [] else [es[|es| - 1]]
  }

  ghost predicate SameAnswers(a: State, b: State, clock: nat) {
    && a.cache == b.cache
    && forall h, now :: now >= clock ==> IsRecent(a.shadow, h, now) == IsRecent(b.shadow, h, now)
  }

  lemma SameStep(p: Peer, a: State, b: State, clock: nat, e: Event)
    requires SameAnswers(a, b, clock) && !e.Swept? && (e.Forgotten? || e.at >= clock)
    ensures SameAnswers(Step(p, a, e), Step(p, b, e), if e.Forgotten? then clock else e.at)
  {
    match e
    case Marked(payload, at) => SameMark(a, b, clock, p.hash(payload), at);
    case Gossip(topic, body, from, at) =>
      assert IsRecent(a.shadow, p.hash(body), at) == IsRecent(b.shadow, p.hash(body), at);
    case _ =>
  }

  lemma SameMark(a: State, b: State, clock: nat, hash: nat, at: nat)
    requires SameAnswers(a, b, clock) && at >= clock
    ensures SameAnswers(a.(shadow := a.shadow[hash := at]), b.(shadow := b.shadow[hash := at]), at)
  {
    var x, y := a.shadow[hash := at], b.shadow[hash := at];
    forall h, now | now >= at ensures IsRecent(x, h, now) == IsRecent(y, h, now) {
      assert IsRecent(a.shadow, h, now) == IsRecent(b.shadow, h, now);
    }
  }

  lemma SweepSame(a: State, b: State, clock: nat, at: nat, cutoff: nat)
    requires SameAnswers(a, b, clock) && at >= clock && cutoff >= SHADOW_WINDOW_MS
    ensures SameAnswers(a.(shadow := Evicted(a.shadow, at, cutoff)), b, at)
  {
    forall h, now | now >= at ensures IsRecent(Evicted(a.shadow, at, cutoff), h, now) == IsRecent(b.shadow, h, now) {
      assert IsRecent(a.shadow, h, now) == IsRecent(b.shadow, h, now);
    }
  }

  lemma LaterClock(a: State, b: State, clock: nat, later: nat)
    requires SameAnswers(a, b, clock) && clock <= later
    ensures SameAnswers(a, b, later)
  {
  }

  lemma RunSnoc(p: Peer, es: seq<Event>, e: Event)
    ensures Run(p, es + [e]) == Step(p, Run(p, es), e)
  {
    assert (es + [e])[..|es + [e]| - 1] == es;
  }

  /** Sweeping the shadow, as often as one likes and with any cutoff of at least
      the window, changes neither the cache nor any answer then or later. */
  lemma {:induction false} SweepsAreInvisible(p: Peer, es: seq<Event>, now: nat)
    requires InTime(es, now) && SweepsOk(es)
    ensures SameAnswers(Run(p, es), Run(p, Unswept(es)), now)
  {
    hide Step, IsRecent;
    if es != [] {
      var front, e := es[..|es| - 1], es[|es| - 1];
      InTimeFront(es, now);
      assert NotAfter(e, now);
      var a, b := Run(p, front), Run(p, Unswept(front));
      if e.Swept? {
        SweepsAreInvisible(p, front, e.at);
        SweepSame(a, b, e.at, e.at, e.cutoff);
        SweptStep(p, a, e);
        assert Unswept(es) == Unswept(front);
        LaterClock(Run(p, es), b, e.at, now);
      } else {
        var clock := if e.Forgotten? then now else e.at;
        SweepsAreInvisible(p, front, clock);
        SameStep(p, a, b, clock, e);
        RunSnoc(p, Unswept(front), e);
        LaterClock(Step(p, a, e), Step(p, b, e), clock, now);
      }
    }
  }

  lemma SweptStep(p: Peer, s: State, e: Event)
    requires e.Swept?
    ensures Step(p, s, e) == s.(shadow := Evicted(s.shadow, e.at, e.cutoff))
  {
  }

  /** Any smaller cutoff can unmask a loopback: the swept mark no longer hides the
      frame the bridge itself caused, and the member is taken for reachable. */
  lemma SmallCutoffUnmasks(p: Peer, payload: Payload, topic: string, group: string, member: string, cutoff: nat)
    requires cutoff < SHADOW_WINDOW_MS && GroupOfTopic(topic) == Some(group) && !EqIgnoreCase(member, p.local)
    ensures var es := [Marked(payload, 0), Swept(cutoff, cutoff), Gossip(topic, payload, Some(member), cutoff)];
            InTime(es, cutoff) && Reachable(Run(p, es).cache, group, member, cutoff) && !HasEvidence(p, es, group, member, cutoff)
  {
    hide GroupOfTopic, EqIgnoreCase;
    var m, s, g := Marked(payload, 0), Swept(cutoff, cutoff), Gossip(topic, payload, Some(member), cutoff);
    var es := [m, s, g];
    assert es == ([m] + [s]) + [g] && [m] == [] + [m] && [m] + [s] == [m, s];
    RunSnoc(p, [], m);
    RunSnoc(p, [m], s);
    RunSnoc(p, [m] + [s], g);
    assert Run(p, []) == START;
    assert Run(p, [m, s]).shadow == map[];
    assert es[..2][0] == m && MarkWithin(p, es[..2][0], p.hash(payload), cutoff);
    assert BridgedRecently(p, es[..2], p.hash(payload), cutoff);
  }

  // --------------------------------------------------------------- the objects

  /** The reachability cache and the shadow as the client holds them. */
  class Tracker {
    const peer: Peer
    var cache: Cache
    var shadow: Shadow

    constructor (peer: Peer)
      ensures this.peer == peer && Value() == START
    {
      this.peer := peer;
      cache, shadow := map[], map[];
    }

    ghost function Value(): State
      reads this
    {
      State(cache, shadow)
    }

    method Mark(payload: Payload, now: nat)
      modifies this`shadow
      ensures Value() == Step(peer, old(Value()), Marked(payload, now))
    {
      shadow := shadow[peer.hash(payload) := now];
    }

    method EvictOlderThan(now: nat, cutoff: nat)
      modifies this`shadow
      ensures Value() == Step(peer, old(Value()), Swept(now, cutoff))
    {
      shadow := map h | h in shadow && Age(now, shadow[h]) < cutoff :: shadow[h];
    }

    /** The recorder's reaction to one gossip event. */
    method OnGossip(topic: string, payload: Payload, from: Option<string>, now: nat)
      modifies this`cache
      ensures Value() == Step(peer, old(Value()), Gossip(topic, payload, from, now))
    {
      var who := Classify(peer, topic, payload, from, shadow, now);
      if who.Some? {
        cache := cache[who.value := now];
      }
    }

    method Forget(group: string, member: string)
      modifies this`cache
      ensures Value() == Step(peer, old(Value()), Forgotten((group, member)))
    {
      cache := cache - {(group, member)};
    }
  }
}
