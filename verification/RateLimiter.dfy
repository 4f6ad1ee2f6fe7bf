/** The per-IP token-bucket limiter with a bounded map and sampled eviction
    (crates/fetchit-bridge-server/src/ratelimit.rs). Tokens and times are reals,
    an address is a number, and the map's iteration order is an argument. */
module RateLimiter {
  import opened Basics

  type Ip = nat

  const EVICT_SAMPLE: nat := 8

  datatype Bucket = Bucket(tokens: real, last: real)

  type Buckets = map<Ip, Bucket>

  /** Burst size, refill per second and the cap on tracked addresses. */
  datatype Config = Config(capacity: real, refill: real, maxTracked: nat)

  ghost predicate ValidConfig(c: Config) {
    c.capacity >= 1.0 && c.refill >= 0.0 && c.maxTracked >= 1
  }

  function Min(a: real, b: real): real { if a <= b then a else b }

  /** `Instant::saturating_duration_since`. */
  function Elapsed(now: real, last: real): real { if now >= last then now - last else 0.0 }

  /** A request and the order in which the map would iterate at that moment. */
  datatype Request = Request(ip: Ip, now: real, order: seq<Ip>)

  // ------------------------------------------------------------- one request

  function LastOf(bs: Buckets, ip: Ip): real { if ip in bs then bs[ip].last else 0.0 }

  /** `min_by_key` on the time of last refill: the first minimum. */
  function Oldest(bs: Buckets, sample: seq<Ip>): Ip
    requires sample != []
  {
    if |sample| == 1 then sample[0]
    else
      var best, x := Oldest(bs, sample[..|sample| - 1]), sample[|sample| - 1];
      if LastOf(bs, x) < LastOf(bs, best) then x else best
  }

  function Sample(order: seq<Ip>): seq<Ip> {
    if |order| <= EVICT_SAMPLE then order else order[..EVICT_SAMPLE]
  }

  /** The map after making room for `ip`. */
  function Evicted(c: Config, bs: Buckets, ip: Ip, order: seq<Ip>): Buckets {
    if ip !in bs && |bs| >= c.maxTracked && order != [] then bs - {Oldest(bs, Sample(order))} else bs
  }

  function Fresh(c: Config, now: real): Bucket { Bucket(c.capacity, now) }

  /** Tokens earned in a stretch of time. */
  function Gain(c: Config, elapsed: real): real { elapsed * c.refill }

  function Refilled(c: Config, b: Bucket, now: real): Bucket {
    Bucket(Min(b.tokens + Gain(c, Elapsed(now, b.last)), c.capacity), now)
  }

  predicate Enough(b: Bucket) { b.tokens >= 1.0 }

  function Spent(b: Bucket): Bucket { if Enough(b) then b.(tokens := b.tokens - 1.0) else b }

  /** The caller's bucket just before it is charged. */
  function Ready(c: Config, bs: Buckets, ip: Ip, now: real): Bucket {
    Refilled(c, if ip in bs then bs[ip] else Fresh(c, now), now)
  }

  function Charged(c: Config, bs: Buckets, ip: Ip, now: real): Buckets {
    bs[ip := Spent(Ready(c, bs, ip, now))]
  }

  /** The map after `check`. */
  function Checked(c: Config, bs: Buckets, r: Request): Buckets {
    Charged(c, Evicted(c, bs, r.ip, r.order), r.ip, r.now)
  }

  predicate Allowed(c: Config, bs: Buckets, r: Request) {
    Enough(Ready(c, Evicted(c, bs, r.ip, r.order), r.ip, r.now))
  }

  /** `order` lists every tracked address once. */
  ghost predicate Enumerates(order: seq<Ip>, bs: Buckets) {
    && (forall ip :: ip in order <==> ip in bs)
    && (forall i, j :: 0 <= i < j < |order| ==> order[i] != order[j])
  }

  ghost predicate TokensBounded(c: Config, bs: Buckets) {
    forall ip :: ip in bs ==> 0.0 <= bs[ip].tokens <= c.capacity
  }

  lemma {:induction false} OldestInSample(bs: Buckets, sample: seq<Ip>)
    requires sample != []
    ensures Oldest(bs, sample) in sample
    ensures forall ip :: ip in sample ==> LastOf(bs, Oldest(bs, sample)) <= LastOf(bs, ip)
  {
    if |sample| > 1 {
      OldestInSample(bs, sample[..|sample| - 1]);
      assert sample == sample[..|sample| - 1] + [sample[|sample| - 1]];
    }
  }

  lemma {:induction false} DistinctCount(order: seq<Ip>, s: set<Ip>)
    requires forall ip :: ip in order <==> ip in s
    requires forall i, j :: 0 <= i < j < |order| ==> order[i] != order[j]
    ensures |order| == |s|
  {
    if order == [] {
      assert s == {};
    } else {
      var last := order[|order| - 1];
      assert order == order[..|order| - 1] + [last];
      DistinctCount(order[..|order| - 1], s - {last});
    }
  }

  /** `ip` was refilled no later than the others of a sample of at most eight. */
  ghost predicate OldestOfASample(bs: Buckets, ip: Ip) {
    ip in bs && exists sample: set<Ip> ::
      && sample <= bs.Keys && |sample| <= EVICT_SAMPLE && ip in sample
      && forall x :: x in sample ==> bs[ip].last <= bs[x].last
  }

  lemma VictimIsOldest(bs: Buckets, order: seq<Ip>)
    requires Enumerates(order, bs) && order != []
    ensures OldestOfASample(bs, Oldest(bs, Sample(order)))
  {
    var s := Sample(order);
    OldestInSample(bs, s);
    ElementsSmall(s);
    forall x | x in s ensures x in bs {
      assert x in order;
    }
    var sample := Elements(s);
    assert sample <= bs.Keys && Oldest(bs, s) in sample;
  }

  /** A check drops at most one other address, and only from a full map: a least
      recently refilled one of the sample. It touches no other bucket. */
  lemma CheckFrame(c: Config, bs: Buckets, r: Request)
    requires Enumerates(r.order, bs)
    ensures forall ip :: ip in Checked(c, bs, r) && ip != r.ip ==> ip in bs && Checked(c, bs, r)[ip] == bs[ip]
    ensures forall ip :: ip in bs && ip !in Checked(c, bs, r) ==>
              ip == Oldest(bs, Sample(r.order)) && r.ip !in bs && |bs| >= c.maxTracked && OldestOfASample(bs, ip)
  {
    if r.order != [] {
      VictimIsOldest(bs, r.order);
    }
  }

  lemma CheckKeepsTokens(c: Config, bs: Buckets, r: Request)
    requires ValidConfig(c) && TokensBounded(c, bs)
    ensures TokensBounded(c, Checked(c, bs, r))
  {
    var room := Evicted(c, bs, r.ip, r.order);
    assert TokensBounded(c, room);
    ReadyBounded(c, room, r.ip, r.now);
  }

  lemma ReadyBounded(c: Config, bs: Buckets, ip: Ip, now: real)
    requires ValidConfig(c) && (ip in bs ==> 0.0 <= bs[ip].tokens)
    ensures 0.0 <= Ready(c, bs, ip, now).tokens <= c.capacity
  {
    var b := if ip in bs then bs[ip] else Fresh(c, now);
    assert Gain(c, Elapsed(now, b.last)) >= 0.0;
  }

  lemma CheckKeepsSize(c: Config, bs: Buckets, r: Request)
    requires c.maxTracked >= 1 && |bs| <= c.maxTracked && Enumerates(r.order, bs)
    ensures |Checked(c, bs, r)| <= c.maxTracked
  {
    RoomForOne(c, bs, r);
    var room := Evicted(c, bs, r.ip, r.order);
    assert Checked(c, bs, r).Keys == room.Keys + {r.ip};
  }

  lemma RoomForOne(c: Config, bs: Buckets, r: Request)
    requires c.maxTracked >= 1 && |bs| <= c.maxTracked && Enumerates(r.order, bs)
    ensures r.ip in bs || |Evicted(c, bs, r.ip, r.order)| < c.maxTracked
  {
    if r.ip !in bs && |bs| >= c.maxTracked {
      DistinctCount(r.order, bs.Keys);
      OldestInSample(bs, Sample(r.order));
      var victim := Oldest(bs, Sample(r.order));
      assert victim in r.order;
      assert (bs - {victim}).Keys == bs.Keys - {victim};
    }
  }

  // ------------------------------------------------------------------ traces

  function Run(c: Config, start: Buckets, rs: seq<Request>): Buckets {
    if rs == [] then start else Checked(c, Run(c, start, rs[..|rs| - 1]), rs[|rs| - 1])
  }

  /** Requests of `ip` admitted along the trace. */
  function Admitted(c: Config, start: Buckets, rs: seq<Request>, ip: Ip): nat {
    if rs == [] then 0
    else
      var front, r := rs[..|rs| - 1], rs[|rs| - 1];
      Admitted(c, start, front, ip) + if r.ip == ip && Allowed(c, Run(c, start, front), r) then 1 else 0
  }

  /** The same trace against a map that never evicts. */
  function FreeRun(c: Config, rs: seq<Request>): Buckets {
    if rs == [] then map[]
    else Charged(c, FreeRun(c, rs[..|rs| - 1]), rs[|rs| - 1].ip, rs[|rs| - 1].now)
  }

  function FreeAdmitted(c: Config, rs: seq<Request>, ip: Ip): nat {
    if rs == [] then 0
    else
      var front, r := rs[..|rs| - 1], rs[|rs| - 1];
      FreeAdmitted(c, front, ip) + if r.ip == ip && Enough(Ready(c, FreeRun(c, front), ip, r.now)) then 1 else 0
  }

  /** Along every trace the map stays within its bound and every bucket within
      its capacity. */
  lemma {:induction false} RunKeepsBounds(c: Config, rs: seq<Request>)
    requires ValidConfig(c)
    requires forall k :: 0 <= k < |rs| ==> Enumerates(rs[k].order, Run(c, map[], rs[..k]))
    ensures TokensBounded(c, Run(c, map[], rs)) && |Run(c, map[], rs)| <= c.maxTracked
  {
    if rs != [] {
      var n := |rs| - 1;
      assert forall k :: 0 <= k < n ==> rs[..n][..k] == rs[..k];
      RunKeepsBounds(c, rs[..n]);
      CheckKeepsTokens(c, Run(c, map[], rs[..n]), rs[n]);
      CheckKeepsSize(c, Run(c, map[], rs[..n]), rs[n]);
    }
  }

  // ------------------------------------------- eviction never costs a client

  /** The bounded limiter (`bs`, having admitted `a`) is at least as generous to
      `ip` as the unbounded one (`free`, having admitted `f`). */
  ghost predicate AtLeastAsGenerous(c: Config, ip: Ip, bs: Buckets, a: nat, free: Buckets, f: nat) {
    && a >= f
    && (ip in free ==> free[ip].tokens <= c.capacity)
    && (ip in bs ==>
          && ip in free && bs[ip].last == free[ip].last
          && a as real + bs[ip].tokens >= f as real + free[ip].tokens)
  }

  lemma SameAddressStep(c: Config, ip: Ip, bs: Buckets, a: nat, free: Buckets, f: nat, now: real)
    requires AtLeastAsGenerous(c, ip, bs, a, free, f) && ValidConfig(c)
    ensures AtLeastAsGenerous(c, ip, Charged(c, bs, ip, now), a + (if Enough(Ready(c, bs, ip, now)) then 1 else 0),
                              Charged(c, free, ip, now), f + (if Enough(Ready(c, free, ip, now)) then 1 else 0))
  {
    var b, u := Ready(c, bs, ip, now), Ready(c, free, ip, now);
    assert !(ip in bs) ==> Gain(c, 0.0) == 0.0;
    hide Gain;
    assert u.tokens <= c.capacity;
    if ip in bs {
      var gained := Gain(c, Elapsed(now, bs[ip].last));
      assert b.tokens == Min(bs[ip].tokens + gained, c.capacity);
      assert u.tokens == Min(free[ip].tokens + gained, c.capacity);
    } else {
      assert b.tokens == c.capacity;
    }
    assert a as real + b.tokens >= f as real + u.tokens;
  }

  /** Whatever is evicted and whatever the clock does, at each moment every
      address has been admitted at least as often as by the unbounded limiter. */
  lemma {:induction false} EvictionNeverCosts(c: Config, rs: seq<Request>, ip: Ip)
    requires ValidConfig(c)
    ensures AtLeastAsGenerous(c, ip, Run(c, map[], rs), Admitted(c, map[], rs, ip), FreeRun(c, rs), FreeAdmitted(c, rs, ip))
  {
    if rs != [] {
      var front, r := rs[..|rs| - 1], rs[|rs| - 1];
      EvictionNeverCosts(c, front, ip);
      var bs, free := Run(c, map[], front), FreeRun(c, front);
      var room := Evicted(c, bs, r.ip, r.order);
      assert ip in room ==> ip in bs && room[ip] == bs[ip];
      assert AtLeastAsGenerous(c, ip, room, Admitted(c, map[], front, ip), free, FreeAdmitted(c, front, ip));
      if r.ip == ip {
        SameAddressStep(c, ip, room, Admitted(c, map[], front, ip), free, FreeAdmitted(c, front, ip), r.now);
      }
    }
  }

  // -------------------------------------------------------------- rate bound

  /** The times of the requests of `ip`. */
  function Times(rs: seq<Request>, ip: Ip): seq<real> {
    if rs == [] then []
    else Times(rs[..|rs| - 1], ip) + if rs[|rs| - 1].ip == ip then [rs[|rs| - 1].now] else []
  }

  /** How far the clock moved forward over these times, backward steps ignored. */
  function Rise(ts: seq<real>): real {
    if |ts| < 2 then 0.0 else Rise(ts[..|ts| - 1]) + Elapsed(ts[|ts| - 1], ts[|ts| - 2])
  }

  lemma {:induction false} RiseMonotone(ts: seq<real>)
    requires forall i, j :: 0 <= i < j < |ts| ==> ts[i] <= ts[j]
    ensures |ts| > 0 ==> Rise(ts) == ts[|ts| - 1] - ts[0]
  {
    if |ts| >= 2 {
      RiseMonotone(ts[..|ts| - 1]);
    }
  }

  /** The tokens that movement of the clock earns. */
  function Earned(c: Config, ts: seq<real>): real {
    if |ts| < 2 then 0.0 else Earned(c, ts[..|ts| - 1]) + Gain(c, Elapsed(ts[|ts| - 1], ts[|ts| - 2]))
  }

  lemma {:induction false} EarnedIsRefillOfRise(c: Config, ts: seq<real>)
    ensures Earned(c, ts) == c.refill * Rise(ts)
  {
    if |ts| >= 2 {
      EarnedIsRefillOfRise(c, ts[..|ts| - 1]);
      Distribute(c.refill, Rise(ts[..|ts| - 1]), Elapsed(ts[|ts| - 1], ts[|ts| - 2]));
    }
  }

  lemma Distribute(a: real, x: real, y: real)
    ensures a * (x + y) == a * x + y * a
  {
  }

  lemma EarnedSnoc(c: Config, ts: seq<real>, t: real)
    requires ts != []
    ensures Earned(c, ts + [t]) == Earned(c, ts) + Gain(c, Elapsed(t, ts[|ts| - 1]))
  {
    hide Gain, Elapsed;
    var more := ts + [t];
    assert more[..|more| - 1] == ts && more[|more| - 1] == t && more[|more| - 2] == ts[|ts| - 1];
  }

  /** `ip` keeps its bucket throughout: no check of another address evicts it. */
  ghost predicate Kept(c: Config, start: Buckets, rs: seq<Request>, ip: Ip) {
    forall k :: 0 <= k < |rs| ==> KeptAt(c, start, rs, ip, k)
  }

  ghost predicate KeptAt(c: Config, start: Buckets, rs: seq<Request>, ip: Ip, k: nat)
    requires k < |rs|
  {
    var bs := Run(c, start, rs[..k]);
    ip in bs ==> ip in Evicted(c, bs, rs[k].ip, rs[k].order)
  }

  lemma KeptPrefix(c: Config, start: Buckets, rs: seq<Request>, ip: Ip)
    requires rs != [] && Kept(c, start, rs, ip)
    ensures Kept(c, start, rs[..|rs| - 1], ip)
  {
    var front := rs[..|rs| - 1];
    forall k | 0 <= k < |front| ensures KeptAt(c, start, front, ip, k) {
      assert KeptAt(c, start, rs, ip, k);
      assert front[..k] == rs[..k];
    }
  }

  /** What the window has cost so far plus what is left is covered by the burst
      and the refill. */
  ghost predicate Covered(c: Config, bs: Buckets, a: nat, ts: seq<real>, ip: Ip) {
    if ts == [] then a == 0
    else ip in bs && bs[ip].last == ts[|ts| - 1] && bs[ip].tokens >= 0.0 && a as real + bs[ip].tokens <= c.capacity + Earned(c, ts)
  }

  lemma CoveredStep(c: Config, bs: Buckets, a: nat, ts: seq<real>, ip: Ip, now: real)
    requires ValidConfig(c) && Covered(c, bs, a, ts, ip)
    requires ip in bs ==> bs[ip].tokens >= 0.0
    ensures Covered(c, Charged(c, bs, ip, now), a + (if Enough(Ready(c, bs, ip, now)) then 1 else 0), ts + [now], ip)
  {
    hide Gain;
    ReadyBounded(c, bs, ip, now);
    if ts != [] {
      EarnedSnoc(c, ts, now);
      assert Ready(c, bs, ip, now).tokens <= bs[ip].tokens + Gain(c, Elapsed(now, bs[ip].last));
    } else {
      assert ts + [now] == [now];
    }
  }

  lemma {:induction false} WindowCovered(c: Config, start: Buckets, rs: seq<Request>, ip: Ip)
    requires ValidConfig(c) && Kept(c, start, rs, ip)
    requires ip in start ==> start[ip].tokens >= 0.0
    ensures Covered(c, Run(c, start, rs), Admitted(c, start, rs, ip), Times(rs, ip), ip)
    ensures ip in Run(c, start, rs) ==> Run(c, start, rs)[ip].tokens >= 0.0
  {
    if rs != [] {
      var n := |rs| - 1;
      KeptPrefix(c, start, rs, ip);
      WindowCovered(c, start, rs[..n], ip);
      assert KeptAt(c, start, rs, ip, n);
      WindowStep(c, Run(c, start, rs[..n]), Admitted(c, start, rs[..n], ip), Times(rs[..n], ip), ip, rs[n]);
    }
  }

  lemma WindowStep(c: Config, bs: Buckets, a: nat, ts: seq<real>, ip: Ip, r: Request)
    requires ValidConfig(c) && Covered(c, bs, a, ts, ip)
    requires ip in bs ==> bs[ip].tokens >= 0.0 && ip in Evicted(c, bs, r.ip, r.order)
    ensures Covered(c, Checked(c, bs, r), a + (if r.ip == ip && Allowed(c, bs, r) then 1 else 0),
                    ts + (if r.ip == ip then [r.now] else []), ip)
    ensures ip in Checked(c, bs, r) ==> Checked(c, bs, r)[ip].tokens >= 0.0
  {
    var room := Evicted(c, bs, r.ip, r.order);
    assert Covered(c, room, a, ts, ip);
    if r.ip == ip {
      CoveredStep(c, room, a, ts, ip, r.now);
    } else {
      assert ts + [] == ts;
    }
  }

  lemma BoundFromCover(c: Config, bs: Buckets, a: nat, ts: seq<real>, ip: Ip)
    requires Covered(c, bs, a, ts, ip) && ValidConfig(c)
    ensures a as real <= c.capacity + c.refill * Rise(ts)
  {
    EarnedIsRefillOfRise(c, ts);
  }

  /** In any window of any run during which `ip` keeps its bucket, whatever the
      other addresses do, its admissions are at most the burst plus the refill
      over the forward movement of the clock between its requests. */
  lemma RateBound(c: Config, start: Buckets, rs: seq<Request>, ip: Ip)
    requires ValidConfig(c) && TokensBounded(c, start) && Kept(c, start, rs, ip)
    ensures Admitted(c, start, rs, ip) as real <= c.capacity + c.refill * Rise(Times(rs, ip))
  {
    hide Run, Admitted, Times, Rise, Kept, Covered;
    WindowCovered(c, start, rs, ip);
    BoundFromCover(c, Run(c, start, rs), Admitted(c, start, rs, ip), Times(rs, ip), ip);
  }

  /** With a clock that never steps back that is the length of the window. */
  lemma RateBoundMonotone(c: Config, start: Buckets, rs: seq<Request>, ip: Ip, from: real, to: real)
    requires ValidConfig(c) && TokensBounded(c, start) && Kept(c, start, rs, ip)
    requires forall i, j :: 0 <= i < j < |rs| ==> rs[i].now <= rs[j].now
    requires from <= to && forall i :: 0 <= i < |rs| ==> from <= rs[i].now <= to
    ensures Admitted(c, start, rs, ip) as real <= c.capacity + c.refill * (to - from)
  {
    hide Run, Admitted, Times, Rise, Kept;
    RateBound(c, start, rs, ip);
    TimesOrdered(rs, ip);
    TimesWithin(rs, ip, from, to);
    SpanBound(c, Times(rs, ip), from, to);
  }

  lemma SpanBound(c: Config, ts: seq<real>, from: real, to: real)
    requires c.refill >= 0.0 && from <= to
    requires forall i, j :: 0 <= i < j < |ts| ==> ts[i] <= ts[j]
    requires forall t :: t in ts ==> from <= t <= to
    ensures c.refill * Rise(ts) <= c.refill * (to - from)
  {
    RiseMonotone(ts);
    assert |ts| > 0 ==> ts[0] in ts && ts[|ts| - 1] in ts;
    Scale(c.refill, Rise(ts), to - from);
  }

  lemma Scale(a: real, x: real, y: real)
    requires a >= 0.0 && x <= y
    ensures a * x <= a * y
  {
    assert a * (y - x) >= 0.0;
  }

  lemma {:induction false} TimesWithin(rs: seq<Request>, ip: Ip, from: real, to: real)
    requires forall i :: 0 <= i < |rs| ==> from <= rs[i].now <= to
    ensures forall t :: t in Times(rs, ip) ==> from <= t <= to
  {
    if rs != [] {
      TimesWithin(rs[..|rs| - 1], ip, from, to);
    }
  }

  lemma {:induction false} TimesOrdered(rs: seq<Request>, ip: Ip)
    requires forall i, j :: 0 <= i < j < |rs| ==> rs[i].now <= rs[j].now
    ensures forall i, j :: 0 <= i < j < |Times(rs, ip)| ==> Times(rs, ip)[i] <= Times(rs, ip)[j]
  {
    if rs != [] {
      var n := |rs| - 1;
      var front, last := Times(rs[..n], ip), rs[n].now;
      TimesOrdered(rs[..n], ip);
      if n > 0 {
        TimesWithinLast(rs[..n], ip);
        assert forall t :: t in front ==> t <= last;
      }
      assert forall i :: 0 <= i < |front| ==> front[i] in front;
    }
  }

  lemma TimesWithinLast(rs: seq<Request>, ip: Ip)
    requires rs != [] && forall i, j :: 0 <= i < j < |rs| ==> rs[i].now <= rs[j].now
    ensures forall t :: t in Times(rs, ip) ==> t <= rs[|rs| - 1].now
  {
    TimesWithin(rs, ip, rs[0].now, rs[|rs| - 1].now);
  }

  // --------------------------------------------------------------- witnesses

  lemma RunOne(c: Config, start: Buckets, rs: seq<Request>, r: Request, bs: Buckets, ip: Ip)
    requires Run(c, start, rs) == bs
    ensures Run(c, start, rs + [r]) == Checked(c, bs, r)
    ensures Admitted(c, start, rs + [r], ip) == Admitted(c, start, rs, ip) + if r.ip == ip && Allowed(c, bs, r) then 1 else 0
  {
    hide Checked, Allowed;
    assert (rs + [r])[..|rs + [r]| - 1] == rs;
  }

  lemma FreeRunOne(c: Config, rs: seq<Request>, r: Request, bs: Buckets)
    requires FreeRun(c, rs) == bs
    ensures FreeRun(c, rs + [r]) == Charged(c, bs, r.ip, r.now)
  {
    hide Charged;
    assert (rs + [r])[..|rs + [r]| - 1] == rs;
  }

  lemma GainValues(c: Config)
    ensures Gain(c, 0.0) == 0.0
    ensures c.refill == 1.0 ==> Gain(c, 0.5) == 0.5
  {
  }

  /** A new address starts from a full bucket. */
  lemma NewPays(c: Config, bs: Buckets, ip: Ip, now: real)
    requires ip !in bs && c.capacity == 1.0
    ensures Charged(c, bs, ip, now) == bs[ip := Bucket(0.0, now)] && Enough(Ready(c, bs, ip, now))
  {
    GainValues(c);
    hide Gain;
  }

  lemma BoundedSide(c: Config, r1: Request, r2: Request, r3: Request)
    requires c == Config(1.0, 1.0, 1)
    requires r1 == Request(1, 0.0, []) && r2 == Request(2, 0.0, [1]) && r3 == Request(1, 0.5, [2])
    ensures Run(c, map[], [r1, r2, r3]) == map[1 := Bucket(0.0, 0.5)]
  {
    hide Run, Admitted, Checked, Allowed;
    RunNone(c, map[], 1);
    var b1, b2 := map[1 := Bucket(0.0, 0.0)], map[2 := Bucket(0.0, 0.0)];
    assert [] + [r1] == [r1] && [r1] + [r2] == [r1, r2] && [r1, r2] + [r3] == [r1, r2, r3];
    RunOne(c, map[], [], r1, map[], 1);
    Replaces(c, map[], r1);
    RunOne(c, map[], [r1], r2, b1, 1);
    Replaces(c, b1, r2);
    RunOne(c, map[], [r1, r2], r3, b2, 1);
    Replaces(c, b2, r3);
  }

  /** With room for one address, a new one replaces whatever was tracked. */
  lemma Replaces(c: Config, bs: Buckets, r: Request)
    requires c.capacity == 1.0 && c.maxTracked == 1 && r.ip !in bs
    requires bs == map[] || (|r.order| == 1 && bs.Keys == {r.order[0]})
    ensures Checked(c, bs, r) == map[r.ip := Bucket(0.0, r.now)]
  {
    hide Charged;
    if bs != map[] {
      assert Oldest(bs, Sample(r.order)) == r.order[0];
      assert (bs - {r.order[0]}).Keys == {};
    }
    NewPays(c, map[], r.ip, r.now);
  }

  lemma RunNone(c: Config, start: Buckets, ip: Ip)
    ensures Run(c, start, []) == start && Admitted(c, start, [], ip) == 0 && FreeRun(c, []) == map[]
  {
  }

  lemma FreeSide(c: Config, r1: Request, r2: Request, r3: Request)
    requires c == Config(1.0, 1.0, 1)
    requires r1 == Request(1, 0.0, []) && r2 == Request(2, 0.0, [1]) && r3 == Request(1, 0.5, [2])
    ensures FreeRun(c, [r1, r2, r3]) == map[1 := Bucket(0.5, 0.5), 2 := Bucket(0.0, 0.0)]
  {
    hide FreeRun, Gain;
    GainValues(c);
    RunNone(c, map[], 1);
    var u1, u2 := map[1 := Bucket(0.0, 0.0)], map[1 := Bucket(0.0, 0.0), 2 := Bucket(0.0, 0.0)];
    assert [] + [r1] == [r1] && [r1] + [r2] == [r1, r2] && [r1, r2] + [r3] == [r1, r2, r3];
    FreeRunOne(c, [], r1, map[]);
    assert Charged(c, map[], 1, 0.0) == u1;
    FreeRunOne(c, [r1], r2, u1);
    assert Charged(c, u1, 2, 0.0) == u2;
    FreeRunOne(c, [r1, r2], r3, u2);
  }

  /** Single decisions may differ: after an eviction the bounded limiter has
      been more generous, and then refuses what the unbounded one admits. */
  lemma DecisionsMayDiffer()
    ensures var c := Config(1.0, 1.0, 1);
            var rs := [Request(1, 0.0, []), Request(2, 0.0, [1]), Request(1, 0.5, [2])];
            var r := Request(1, 1.0, [1]);
            && Enumerates(r.order, Run(c, map[], rs))
            && !Allowed(c, Run(c, map[], rs), r) && Enough(Ready(c, FreeRun(c, rs), r.ip, r.now))
  {
    hide Run, FreeRun;
    var c := Config(1.0, 1.0, 1);
    BoundedSide(c, Request(1, 0.0, []), Request(2, 0.0, [1]), Request(1, 0.5, [2]));
    FreeSide(c, Request(1, 0.0, []), Request(2, 0.0, [1]), Request(1, 0.5, [2]));
  }

  // -------------------------------------------------------------- the object

  class Limiter {
    const c: Config
    var buckets: Buckets

    constructor (capacity: nat, refillPerSec: real, maxTracked: nat)
      ensures c == Config(capacity as real, refillPerSec, if maxTracked < 1 then 1 else maxTracked)
      ensures buckets == map[]
    {
      c := Config(capacity as real, refillPerSec, if maxTracked < 1 then 1 else maxTracked);
      buckets := map[];
    }

    predicate Enabled() { c.capacity >= 1.0 }

    /** The first least recently refilled address of the sample. */
    method FindVictim(order: seq<Ip>) returns (victim: Ip)
      requires Enumerates(order, buckets) && order != []
      ensures victim == Oldest(buckets, Sample(order))
    {
      var sample := Sample(order);
      victim := sample[0];
      assert sample[..1] == [sample[0]];
      for i := 1 to |sample|
        invariant victim in buckets
        invariant victim == Oldest(buckets, sample[..i])
      {
        assert sample[..i + 1][..i] == sample[..i];
        assert sample[i] in order;
        if buckets[sample[i]].last < buckets[victim].last {
          victim := sample[i];
        }
      }
      assert sample[..|sample|] == sample;
    }

    method Check(ip: Ip, now: real, order: seq<Ip>) returns (ok: bool)
      requires Enumerates(order, buckets)
      modifies this`buckets
      ensures !Enabled() ==> ok && buckets == old(buckets)
      ensures Enabled() ==>
                && buckets == Checked(c, old(buckets), Request(ip, now, order))
                && ok == Allowed(c, old(buckets), Request(ip, now, order))
    {
      hide Gain;
      if !Enabled() {
        return true;
      }
      if ip !in buckets && |buckets| >= c.maxTracked && order != [] {
        var victim := FindVictim(order);
        buckets := buckets - {victim};
      }
      ok := Charge(ip, now);
    }

    /** Refill the caller's bucket, created full if absent, and take a token. */
    method Charge(ip: Ip, now: real) returns (ok: bool)
      modifies this`buckets
      ensures buckets == Charged(c, old(buckets), ip, now)
      ensures ok == Enough(Ready(c, old(buckets), ip, now))
    {
      var bucket := if ip in buckets then buckets[ip] else Bucket(c.capacity, now);
      var elapsed := Elapsed(now, bucket.last);
      bucket := Bucket(Min(bucket.tokens + elapsed * c.refill, c.capacity), now);
      ok := bucket.tokens >= 1.0;
      if ok {
        bucket := bucket.(tokens := bucket.tokens - 1.0);
      }
      buckets := buckets[ip := bucket];
    }
  }
}
