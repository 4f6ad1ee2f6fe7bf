/** How tight the rate bound of module RateLimiter is: for given clock readings
    the forward movement of the clock is the least measure of time that bounds
    the admissions. */
module RateTightness {
  import opened RateLimiter

  // ------------------------------------------------------------------- bursts

  /** `k` requests of `ip` at each reading but the last, and `j` at the last. The
      map is empty before the first request and holds `ip` after it. */
  function Burst(ip: Ip, ts: seq<real>, k: nat, j: nat): seq<Request>
    requires ts != []
    decreases |ts|, j
  {
    var n := |ts| - 1;
    if j > 0 then Burst(ip, ts, k, j - 1) + [Request(ip, ts[n], if n == 0 && j == 1 then [] else [ip])]
    else if n == 0 then []
    else Burst(ip, ts[..n], k, k)
  }

  function LastRequest(ip: Ip, ts: seq<real>, j: nat): Request
    requires ts != []
  {
    Request(ip, ts[|ts| - 1], if |ts| == 1 && j == 1 then [] else [ip])
  }

  lemma BurstSteps(ip: Ip, ts: seq<real>, k: nat, j: nat)
    requires ts != []
    ensures j > 0 ==> Burst(ip, ts, k, j) == Burst(ip, ts, k, j - 1) + [LastRequest(ip, ts, j)]
    ensures j == 0 ==> Burst(ip, ts, k, j) == if |ts| == 1 then [] else Burst(ip, ts[..|ts| - 1], k, k)
  {
  }

  /** A request of the only address in the map. */
  lemma OnlyAddress(c: Config, bs: Buckets, r: Request)
    requires c.maxTracked >= 1 && (bs == map[] || bs.Keys == {r.ip})
    ensures Checked(c, bs, r) == map[r.ip := Spent(Ready(c, bs, r.ip, r.now))]
    ensures Allowed(c, bs, r) <==> Enough(Ready(c, bs, r.ip, r.now))
  {
    hide Ready, Spent;
  }

  /** After `j` requests at the last reading: nothing earned was lost to the cap,
      and the bucket is either nearly empty or has paid for all of them. */
  ghost predicate Drained(c: Config, ip: Ip, bs: Buckets, a: nat, ts: seq<real>, j: nat)
    requires ts != []
  {
    && bs.Keys == {ip} && bs[ip].last == ts[|ts| - 1] && bs[ip].tokens >= 0.0
    && a as real + bs[ip].tokens == c.capacity + Earned(c, ts)
    && (bs[ip].tokens < 1.0 || bs[ip].tokens <= c.capacity - j as real)
  }

  lemma FirstRequest(c: Config, ip: Ip, t: real)
    requires ValidConfig(c)
    ensures Enough(Ready(c, map[], ip, t)) && Spent(Ready(c, map[], ip, t)) == Bucket(c.capacity - 1.0, t)
  {
    assert Gain(c, 0.0) == 0.0;
  }

  lemma SameReading(c: Config, ip: Ip, bs: Buckets, a: nat, ts: seq<real>, j: nat, r: Request)
    requires ValidConfig(c) && ts != [] && j >= 1 && Drained(c, ip, bs, a, ts, j) && r.ip == ip && r.now == ts[|ts| - 1]
    ensures Drained(c, ip, Checked(c, bs, r), a + (if Allowed(c, bs, r) then 1 else 0), ts, j + 1)
  {
    OnlyAddress(c, bs, r);
    assert Gain(c, 0.0) == 0.0;
    hide Gain, Earned, Checked, Allowed;
    assert Ready(c, bs, ip, r.now) == bs[ip];
  }

  lemma NextReading(c: Config, ip: Ip, bs: Buckets, a: nat, ts: seq<real>, r: Request)
    requires ValidConfig(c) && |ts| >= 2 && r.ip == ip && r.now == ts[|ts| - 1]
    requires c.capacity >= 1.0 + Earned(c, ts)
    requires var front := ts[..|ts| - 1]; Drained(c, ip, bs, a, front, 0) && bs[ip].tokens < 1.0 && Earned(c, front) >= 0.0
    ensures Drained(c, ip, Checked(c, bs, r), a + (if Allowed(c, bs, r) then 1 else 0), ts, 1)
  {
    OnlyAddress(c, bs, r);
    var front := ts[..|ts| - 1];
    var gain := Gain(c, Elapsed(r.now, bs[ip].last));
    assert gain >= 0.0;
    hide Gain, Checked, Allowed;
    assert front[|front| - 1] == ts[|ts| - 2];
    assert Earned(c, ts) == Earned(c, front) + gain;
    assert Ready(c, bs, ip, r.now).tokens == bs[ip].tokens + gain;
  }

  lemma {:induction false} EarnedRises(c: Config, ts: seq<real>)
    requires c.refill >= 0.0
    ensures Earned(c, ts) >= 0.0
    ensures |ts| >= 2 ==> Earned(c, ts[..|ts| - 1]) <= Earned(c, ts)
  {
    if |ts| >= 2 {
      EarnedRises(c, ts[..|ts| - 1]);
      assert Gain(c, Elapsed(ts[|ts| - 1], ts[|ts| - 2])) >= 0.0;
    }
  }

  lemma {:induction false} BurstDrains(c: Config, ip: Ip, ts: seq<real>, k: nat, j: nat)
    requires ValidConfig(c) && ts != [] && 1 <= j && k as real >= c.capacity >= 1.0 + Earned(c, ts)
    ensures var rs := Burst(ip, ts, k, j);
            Drained(c, ip, Run(c, map[], rs), Admitted(c, map[], rs, ip), ts, j)
    decreases |ts|, j
  {
    hide Run, Admitted, Checked, Allowed, Earned;
    var n := |ts| - 1;
    var before := Burst(ip, ts, k, j - 1);
    var r := Request(ip, ts[n], if n == 0 && j == 1 then [] else [ip]);
    RunOne(c, map[], before, r, Run(c, map[], before), ip);
    if j > 1 {
      BurstDrains(c, ip, ts, k, j - 1);
      SameReading(c, ip, Run(c, map[], before), Admitted(c, map[], before, ip), ts, j - 1, r);
    } else if n == 0 {
      RunNone(c, map[], ip);
      OnlyAddress(c, map[], r);
      FirstRequest(c, ip, ts[0]);
      assert Earned(c, ts) == 0.0 by { OneReading(c, ts); }
    } else {
      EarnedRises(c, ts);
      EarnedRises(c, ts[..n]);
      BurstDrains(c, ip, ts[..n], k, k);
      NextReading(c, ip, Run(c, map[], before), Admitted(c, map[], before, ip), ts, r);
    }
  }

  lemma OneReading(c: Config, ts: seq<real>)
    requires |ts| == 1
    ensures Earned(c, ts) == 0.0
  {
  }

  // ------------------------------------------------------- the bound is tight

  lemma Reciprocal(x: real)
    requires x > 0.0
    ensures 1.0 / x > 0.0 && (1.0 / x) * x == 1.0
  {
  }

  lemma Spread(a: real, x: real, y: real)
    ensures a * x - a * y == a * (x - y)
  {
  }

  /** For readings whose forward movement exceeds `w`, some limiter admits more
      than a burst plus the refill over `w`. */
  lemma TightBurst(ip: Ip, ts: seq<real>, w: real) returns (capacity: nat, refill: real)
    requires ts != [] && w < Rise(ts)
    ensures capacity >= 1 && refill > 0.0
    ensures var c := Config(capacity as real, refill, 1);
            Admitted(c, map[], Burst(ip, ts, capacity, capacity), ip) as real > c.capacity + c.refill * w
  {
    hide Run, Admitted, Earned, Rise;
    refill := 1.0 / (Rise(ts) - w);
    Reciprocal(Rise(ts) - w);
    var e := Earned(Config(1.0, refill, 1), ts);
    EarnedRises(Config(1.0, refill, 1), ts);
    capacity := (e + 2.0).Floor;
    var c := Config(capacity as real, refill, 1);
    EarnedIsRefillOfRise(Config(1.0, refill, 1), ts);
    EarnedIsRefillOfRise(c, ts);
    assert capacity as real >= 1.0 + e;
    BurstDrains(c, ip, ts, capacity, capacity);
    Spread(refill, Rise(ts), w);
  }

  // ----------------------------------------------------------- and it is exact

  lemma OnlyOwnKeeps(c: Config, rs: seq<Request>, ip: Ip)
    requires forall i :: 0 <= i < |rs| ==> rs[i].ip == ip
    ensures Kept(c, map[], rs, ip)
  {
    hide Run;
    forall k | 0 <= k < |rs| ensures KeptAt(c, map[], rs, ip, k) {
      assert rs[k].ip == ip;
    }
  }

  lemma RiseSnoc(ts: seq<real>, t: real)
    requires ts != []
    ensures Rise(ts + [t]) == Rise(ts) + Elapsed(t, ts[|ts| - 1])
  {
    var more := ts + [t];
    assert more[..|more| - 1] == ts;
  }

  lemma TimesSnoc(rs: seq<Request>, r: Request, ip: Ip)
    requires r.ip == ip
    ensures Times(rs + [r], ip) == Times(rs, ip) + [r.now]
  {
    assert (rs + [r])[..|rs + [r]| - 1] == rs;
  }

  lemma NoTimes(ip: Ip)
    ensures Times([], ip) == []
  {
  }

  /** Repeating readings does not move the clock. */
  lemma {:induction false} BurstTimes(ip: Ip, ts: seq<real>, k: nat, j: nat)
    requires ts != [] && k >= 1 && j >= 1
    ensures var rs := Burst(ip, ts, k, j); var times := Times(rs, ip);
            && (forall i :: 0 <= i < |rs| ==> rs[i].ip == ip)
            && times != [] && times[|times| - 1] == ts[|ts| - 1] && Rise(times) == Rise(ts)
    decreases |ts|, j
  {
    hide Rise, Burst, Times;
    var n := |ts| - 1;
    var before, r := Burst(ip, ts, k, j - 1), LastRequest(ip, ts, j);
    BurstSteps(ip, ts, k, j);
    TimesSnoc(before, r, ip);
    if j > 1 {
      BurstTimes(ip, ts, k, j - 1);
      RiseSnoc(Times(before, ip), ts[n]);
    } else {
      BurstSteps(ip, ts, k, 0);
      if n == 0 {
        NoTimes(ip);
        assert Times(before, ip) + [ts[0]] == ts;
      } else {
        BurstTimes(ip, ts[..n], k, k);
        RiseSnoc(Times(before, ip), ts[n]);
        RiseSnoc(ts[..n], ts[n]);
        assert ts == ts[..n] + [ts[n]];
      }
    }
  }

  /** Whatever the limiter and however many requests come at each reading, at most
      a burst plus the refill over `w` are admitted. */
  ghost predicate BoundedBy(ts: seq<real>, w: real)
    requires ts != []
  {
    forall c: Config, ip, k: nat :: ValidConfig(c) && k >= 1 ==>
      Admitted(c, map[], Burst(ip, ts, k, k), ip) as real <= c.capacity + c.refill * w
  }

  lemma RiseBounds(ts: seq<real>, w: real, c: Config, ip: Ip, k: nat)
    requires ts != [] && Rise(ts) <= w && ValidConfig(c) && k >= 1
    ensures Admitted(c, map[], Burst(ip, ts, k, k), ip) as real <= c.capacity + c.refill * w
  {
    hide Run, Admitted, Times, Rise, Kept, Burst;
    var rs := Burst(ip, ts, k, k);
    BurstTimes(ip, ts, k, k);
    OnlyOwnKeeps(c, rs, ip);
    RateBound(c, map[], rs, ip);
    Scale(c.refill, Rise(ts), w);
  }

  /** For given readings, `capacity + refill * w` bounds the admissions of every
      limiter and every burst exactly when the clock moved forward by at most
      `w`; steps back count for nothing. */
  lemma BoundedIff(ts: seq<real>, w: real)
    requires ts != []
    ensures BoundedBy(ts, w) <==> Rise(ts) <= w
  {
    hide Admitted, Burst, Rise;
    if Rise(ts) <= w {
      forall c: Config, ip, k: nat | ValidConfig(c) && k >= 1
        ensures Admitted(c, map[], Burst(ip, ts, k, k), ip) as real <= c.capacity + c.refill * w
      {
        RiseBounds(ts, w, c, ip, k);
      }
    } else {
      var capacity, refill := TightBurst(0, ts, w);
      var c := Config(capacity as real, refill, 1);
      assert ValidConfig(c) && !(Admitted(c, map[], Burst(0, ts, capacity, capacity), 0) as real <= c.capacity + c.refill * w);
    }
  }

  /** Two requests that read the clock before one that read it later, but get the
      lock after it: with any step back, however small, the length of the window
      does not bound the admissions. */
  lemma LateReadingBreaksBound(t: real, back: real)
    requires back > 0.0
    ensures var ts := [t, t + back, t, t + back];
            && (forall i :: 0 <= i < |ts| ==> t <= ts[i] <= t + back)
            && Rise(ts) == 2.0 * back && !BoundedBy(ts, back)
  {
    hide BoundedBy;
    RiseOfFour(t, t + back, t, t + back);
    BoundedIff([t, t + back, t, t + back], back);
  }

  lemma RiseOfFour(a: real, b: real, c: real, d: real)
    ensures Rise([a, b, c, d]) == Elapsed(b, a) + Elapsed(c, b) + Elapsed(d, c)
  {
    hide Elapsed;
    RiseOfTwo(a, b);
    hide Rise;
    RiseSnoc([a, b], c);
    assert [a, b] + [c] == [a, b, c];
    RiseSnoc([a, b, c], d);
    assert [a, b, c] + [d] == [a, b, c, d];
  }

  lemma RiseOfTwo(a: real, b: real)
    ensures Rise([a, b]) == Elapsed(b, a)
  {
    hide Elapsed;
    assert [a, b][..1] == [a];
  }

  /** Readings in order are bounded by the length of their window. */
  lemma OrderedReadingsBounded(ts: seq<real>, w: real)
    requires ts != [] && forall i, j :: 0 <= i < j < |ts| ==> ts[i] <= ts[j]
    ensures BoundedBy(ts, w) <==> ts[|ts| - 1] - ts[0] <= w
  {
    hide BoundedBy;
    RiseMonotone(ts);
    BoundedIff(ts, w);
  }

  /** A burst is a run of the limiter: each request sees the map as it is. */
  lemma {:induction false} BurstEnumerates(c: Config, ip: Ip, ts: seq<real>, k: nat, j: nat, i: nat)
    requires c.maxTracked >= 1 && ts != [] && k >= 1 && i < |Burst(ip, ts, k, j)|
    ensures var rs := Burst(ip, ts, k, j); Enumerates(rs[i].order, Run(c, map[], rs[..i]))
    decreases |ts|, j
  {
    hide Burst, Run;
    var rs, n := Burst(ip, ts, k, j), |ts| - 1;
    BurstSteps(ip, ts, k, j);
    if j == 0 {
      BurstEnumerates(c, ip, ts[..n], k, k, i);
    } else {
      var before := Burst(ip, ts, k, j - 1);
      assert rs[..|before|] == before;
      if i < |before| {
        BurstEnumerates(c, ip, ts, k, j - 1, i);
        assert rs[..i] == before[..i] && rs[i] == before[i];
      } else if n > 0 || j > 1 {
        BurstMap(c, ip, ts, k, j - 1);
      } else {
        BurstSteps(ip, ts, k, 0);
        RunNone(c, map[], ip);
      }
    }
  }

  lemma {:induction false} BurstMap(c: Config, ip: Ip, ts: seq<real>, k: nat, j: nat)
    requires c.maxTracked >= 1 && ts != [] && k >= 1 && (j >= 1 || |ts| >= 2)
    ensures Run(c, map[], Burst(ip, ts, k, j)).Keys == {ip}
    decreases |ts|, j
  {
    hide Checked, Run, Burst, Admitted;
    BurstSteps(ip, ts, k, j);
    if j == 0 {
      BurstMap(c, ip, ts[..|ts| - 1], k, k);
    } else {
      var before, r := Burst(ip, ts, k, j - 1), LastRequest(ip, ts, j);
      RunOne(c, map[], before, r, Run(c, map[], before), ip);
      if |ts| == 1 && j == 1 {
        BurstSteps(ip, ts, k, 0);
        RunNone(c, map[], ip);
      } else {
        BurstMap(c, ip, ts, k, j - 1);
      }
      OnlyAddress(c, Run(c, map[], before), r);
    }
  }
}
