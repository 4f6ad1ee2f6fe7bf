/** The liked-set of a device: a bounded map from post URL to like stamp that
    forgets its oldest likes (crates/fetchit-chat/src/fedi_like.rs). */
module LikedPosts {
  import opened Basics
  import opened TextOrder

  const MAX_LIKED_POSTS: nat := 2000

  type Liked = map<string, int>

  /** The eviction order: older stamp first, the URL breaking ties. */
  predicate Older(s: int, u: string, t: int, v: string) { s < t || (s == t && Less(u, v)) }

  lemma OlderTransitive(s: int, u: string, t: int, v: string, r: int, w: string)
    requires Older(s, u, t, v) && Older(t, v, r, w)
    ensures Older(s, u, r, w)
  {
    if s == t == r {
      LessTransitive(u, v, w);
    }
  }

  lemma OlderTotal(s: int, u: string, t: int, v: string)
    ensures u == v || Older(s, u, t, v) || Older(t, v, s, u)
    ensures !(Older(s, u, t, v) && Older(t, v, s, u))
  {
    LessTotal(u, v);
    if Less(u, v) && Less(v, u) {
      LessAsymmetric(u, v);
    }
  }

  /** `kept` holds exactly the newest `cap` entries of `all`. */
  ghost predicate IsNewest(kept: Liked, all: Liked, cap: nat) {
    && |kept| == (if |all| <= cap then |all| else cap)
    && (forall u <- kept :: u in all && all[u] == kept[u])
    && (forall d <- all, u <- kept :: d !in kept ==> Older(all[d], d, kept[u], u))
  }

  /** There is only one such map. */
  lemma NewestUnique(a: Liked, b: Liked, all: Liked, cap: nat)
    requires IsNewest(a, all, cap) && IsNewest(b, all, cap)
    ensures a == b
  {
    assert a.Keys <= b.Keys || b.Keys <= a.Keys by {
      if u, v :| u in a && u !in b && v in b && v !in a {
        OlderTotal(all[u], u, all[v], v);
      }
    }
    if a.Keys <= b.Keys {
      SubsetCards(a.Keys, b.Keys);
    }
    if b.Keys <= a.Keys {
      SubsetCards(b.Keys, a.Keys);
    }
  }

  // ------------------------------------------------------------------- runs

  datatype Event = Like(url: string, nowMs: int) | Unlike(url: string)

  ghost predicate Step(m: Liked, e: Event, next: Liked) {
    match e
    case Like(u, now) =>
      if u in m then next == m[u := now] else IsNewest(next, m[u := now], MAX_LIKED_POSTS)
    case Unlike(u) => next == m - {u}
  }

  /** `ms` are the states of a run of `es` from an empty store. */
  ghost predicate Trace(es: seq<Event>, ms: seq<Liked>) {
    |ms| == |es| + 1 && ms[0] == map[] && forall i :: 0 <= i < |es| ==> StepAt(es, ms, i)
  }

  ghost predicate StepAt(es: seq<Event>, ms: seq<Liked>, i: nat)
    requires i < |es| && |ms| == |es| + 1
  {
    Step(ms[i], es[i], ms[i + 1])
  }

  lemma TraceFront(es: seq<Event>, ms: seq<Liked>)
    requires es != [] && Trace(es, ms)
    ensures Trace(es[..|es| - 1], ms[..|es|])
    ensures Step(ms[|es| - 1], es[|es| - 1], ms[|es|])
  {
    hide Step;
    var front, fms := es[..|es| - 1], ms[..|es|];
    forall i | 0 <= i < |front| ensures StepAt(front, fms, i) {
      assert StepAt(es, ms, i);
    }
    assert StepAt(es, ms, |es| - 1);
  }

  lemma StepBounded(m: Liked, e: Event, next: Liked)
    requires Step(m, e, next) && |m| <= MAX_LIKED_POSTS
    ensures |next| <= MAX_LIKED_POSTS
  {
    if e.Unlike? {
      SubsetCards(next.Keys, m.Keys);
    } else if e.url in m {
      assert next.Keys == m.Keys;
    }
  }

  /** The store never holds more than its cap. */
  lemma {:induction false} AlwaysBounded(es: seq<Event>, ms: seq<Liked>)
    requires Trace(es, ms)
    ensures |ms[|es|]| <= MAX_LIKED_POSTS
    decreases |es|
  {
    if es != [] {
      TraceFront(es, ms);
      AlwaysBounded(es[..|es| - 1], ms[..|es|]);
      StepBounded(ms[|es| - 1], es[|es| - 1], ms[|es|]);
    }
  }

  /** Entries other than the event's own are kept as they were or dropped. */
  lemma StepFrame(m: Liked, e: Event, next: Liked, u: string)
    requires Step(m, e, next) && u in next
    ensures e == Like(u, next[u]) || (u in m && m[u] == next[u])
  {
  }

  /** Every entry is the stamp of some like of that post. */
  lemma {:induction false} EveryEntryWasLiked(es: seq<Event>, ms: seq<Liked>, u: string)
    requires Trace(es, ms) && u in ms[|es|]
    ensures Like(u, ms[|es|][u]) in es
    decreases |es|
  {
    if es != [] {
      TraceFront(es, ms);
      StepFrame(ms[|es| - 1], es[|es| - 1], ms[|es|], u);
      if es[|es| - 1] != Like(u, ms[|es|][u]) {
        EveryEntryWasLiked(es[..|es| - 1], ms[..|es|], u);
      }
    }
  }

  // --------------------------------------------- what it takes to be forgotten

  /** The other posts with a like newer than the like of `u` at `s`. */
  ghost function NewerThan(es: seq<Event>, s: int, u: string): set<string> {
    set e | e in es && e.Like? && e.url != u && Older(s, u, e.nowMs, e.url) :: e.url
  }

  /** Event `i` is the last one about its post. */
  ghost predicate LastWord(es: seq<Event>, i: nat)
    requires i < |es|
  {
    forall j :: i < j < |es| ==> es[j].url != es[i].url
  }

  lemma {:induction false} StampStands(es: seq<Event>, ms: seq<Liked>, i: nat)
    requires Trace(es, ms) && i < |es| && es[i].Like? && LastWord(es, i)
    requires es[i].url in ms[|es|]
    ensures ms[|es|][es[i].url] == es[i].nowMs
    decreases |es|
  {
    TraceFront(es, ms);
    var n, u := |es| - 1, es[i].url;
    StepFrame(ms[n], es[n], ms[n + 1], u);
    if i == n {
      StepOwn(ms[n], es[n], ms[n + 1]);
    } else {
      StampStands(es[..n], ms[..n + 1], i);
    }
  }

  lemma StepOwn(m: Liked, e: Event, next: Liked)
    requires Step(m, e, next) && e.Like? && e.url in next
    ensures next[e.url] == e.nowMs
  {
  }

  /** What an eviction keeps is a full store of newer entries. */
  lemma EvictedByNewer(m: Liked, e: Event, next: Liked, u: string, s: int)
    requires Step(m, e, next) && e.Like? && u !in next
    requires if u == e.url then s == e.nowMs else u in m && m[u] == s
    ensures |next| == MAX_LIKED_POSTS
    ensures forall v <- next :: Older(s, u, next[v], v)
  {
    var all := m[e.url := e.nowMs];
    assert u in all && all[u] == s;
    if |all| <= MAX_LIKED_POSTS {
      SubsetCards(next.Keys, all.Keys);
    }
  }

  lemma NewerThanGrows(es: seq<Event>, s: int, u: string)
    requires es != []
    ensures |NewerThan(es[..|es| - 1], s, u)| <= |NewerThan(es, s, u)|
  {
    SubsetCards(NewerThan(es[..|es| - 1], s, u), NewerThan(es, s, u));
  }

  lemma FullStoreCounts(es: seq<Event>, ms: seq<Liked>, s: int, u: string)
    requires Trace(es, ms) && u !in ms[|es|]
    requires forall v <- ms[|es|] :: Older(s, u, ms[|es|][v], v)
    ensures |ms[|es|]| <= |NewerThan(es, s, u)|
  {
    var m := ms[|es|];
    forall v | v in m.Keys ensures v in NewerThan(es, s, u) {
      EveryEntryWasLiked(es, ms, v);
      assert Like(v, m[v]) in es;
    }
    SubsetCards(m.Keys, NewerThan(es, s, u));
  }

  /** A like is forgotten without an unlike only when at least 2000 other posts
      have a newer like: over every run of likes and unlikes, and whatever the
      clock does. */
  lemma {:induction false} ForgottenOnlyForNewer(es: seq<Event>, ms: seq<Liked>, i: nat)
    requires Trace(es, ms) && i < |es| && es[i].Like? && LastWord(es, i)
    requires es[i].url !in ms[|es|]
    ensures |NewerThan(es, es[i].nowMs, es[i].url)| >= MAX_LIKED_POSTS
    decreases |es|
  {
    hide Step;
    TraceFront(es, ms);
    var n, u, s := |es| - 1, es[i].url, es[i].nowMs;
    if i < n && u !in ms[n] {
      ForgottenOnlyForNewer(es[..n], ms[..n + 1], i);
      NewerThanGrows(es, s, u);
    } else {
      if i < n {
        StampStands(es[..n], ms[..n + 1], i);
        OthersUnliked(ms[n], es[n], ms[n + 1], u);
      }
      EvictedByNewer(ms[n], es[n], ms[n + 1], u, s);
      FullStoreCounts(es, ms, s, u);
    }
  }

  lemma OthersUnliked(m: Liked, e: Event, next: Liked, u: string)
    requires Step(m, e, next) && u in m && u !in next && e.url != u
    ensures e.Like?
  {
  }

  // ------------------------------------ likes only: the newest 2000 of all likes

  function Latest(es: seq<Event>): Liked {
    if es == [] then map[]
    else
      var m, e := Latest(es[..|es| - 1]), es[|es| - 1];
      match e
      case Like(u, now) => m[u := now]
      case Unlike(u) => m - {u}
  }

  /** A like of a remembered post must not make it older than a forgotten one. */
  ghost predicate StaysAhead(m: Liked, all: Liked, u: string, now: int) {
    u in m ==> forall d <- all :: d !in m ==> Older(all[d], d, now, u)
  }

  lemma SizeAfterLike(m: Liked, all: Liked, u: string, now: int, next: Liked)
    requires IsNewest(m, all, MAX_LIKED_POSTS) && Step(m, Like(u, now), next)
    ensures |next| == if |all[u := now]| <= MAX_LIKED_POSTS then |all[u := now]| else MAX_LIKED_POSTS
  {
    assert all[u := now].Keys == all.Keys + {u};
    assert m[u := now].Keys == m.Keys + {u};
    SubsetCards(m.Keys, all.Keys);
  }

  /** Once something is forgotten the store is full, so a post that enters it
      pushes out another one. */
  lemma NewcomerBeats(m: Liked, all: Liked, u: string, now: int, next: Liked, d: string)
    requires IsNewest(m, all, MAX_LIKED_POSTS) && u !in m && IsNewest(next, m[u := now], MAX_LIKED_POSTS)
    requires u in next && d in all && d !in m
    ensures Older(all[d], d, now, u)
  {
    SubsetCards(m.Keys, all.Keys);
    assert m[u := now].Keys == m.Keys + {u};
    assert |m[u := now]| == MAX_LIKED_POSTS + 1;
    SubsetCards(next.Keys, m[u := now].Keys);
    assert next.Keys != m[u := now].Keys;
    var x :| x in m[u := now] && x !in next;
    assert Older(m[x], x, next[u], u);
    OlderTransitive(all[d], d, m[x], x, now, u);
  }

  /** The exact condition under which a like keeps the store the newest 2000. */
  lemma LikeKeepsNewestIff(m: Liked, all: Liked, u: string, now: int, next: Liked)
    requires IsNewest(m, all, MAX_LIKED_POSTS) && Step(m, Like(u, now), next)
    ensures IsNewest(next, all[u := now], MAX_LIKED_POSTS) <==> StaysAhead(m, all, u, now)
  {
    SizeAfterLike(m, all, u, now, next);
    if u in m {
      RelikeIff(m, all, u, now);
    } else {
      var all' := all[u := now];
      forall d, k | d in all' && d !in next && k in next ensures Older(all'[d], d, next[k], k) {
        if d !in m && d != u && k == u {
          NewcomerBeats(m, all, u, now, next, d);
        }
      }
    }
  }

  lemma RelikeIff(m: Liked, all: Liked, u: string, now: int)
    requires IsNewest(m, all, MAX_LIKED_POSTS) && u in m
    ensures IsNewest(m[u := now], all[u := now], MAX_LIKED_POSTS) <==> StaysAhead(m, all, u, now)
  {
    var next, all' := m[u := now], all[u := now];
    assert next.Keys == m.Keys && all'.Keys == all.Keys;
    if IsNewest(next, all', MAX_LIKED_POSTS) {
      forall d | d in all && d !in m ensures Older(all[d], d, now, u) {
        assert Older(all'[d], d, next[u], u);
      }
    }
  }

  ghost predicate LikesOnly(es: seq<Event>) { forall e <- es :: e.Like? }

  /** Later likes of the same post carry no older stamp. */
  ghost predicate StampsGrow(es: seq<Event>) {
    forall i, j :: 0 <= i < j < |es| && es[i].Like? && es[j].Like? && es[i].url == es[j].url ==> es[i].nowMs <= es[j].nowMs
  }

  lemma {:induction false} LatestWasLiked(es: seq<Event>, u: string)
    requires u in Latest(es)
    ensures exists i :: 0 <= i < |es| && es[i] == Like(u, Latest(es)[u])
  {
    var n := |es| - 1;
    if es[n] != Like(u, Latest(es)[u]) {
      LatestWasLiked(es[..n], u);
      var i :| 0 <= i < n && es[..n][i] == Like(u, Latest(es[..n])[u]);
      assert es[i] == Like(u, Latest(es)[u]);
    }
  }

  /** With growing stamps the store always is the newest 2000 of all likes. */
  lemma {:induction false} StoreIsNewest(es: seq<Event>, ms: seq<Liked>)
    requires Trace(es, ms) && LikesOnly(es) && StampsGrow(es)
    ensures IsNewest(ms[|es|], Latest(es), MAX_LIKED_POSTS)
    decreases |es|
  {
    hide Step, IsNewest;
    if es == [] {
      EmptyIsNewest();
    } else {
      var n := |es| - 1;
      var front, e := es[..n], es[n];
      assert e.Like?;
      TraceFront(es, ms);
      StoreIsNewest(front, ms[..n + 1]);
      GrowingStaysAhead(front, e, ms[n], es);
      LikeKeepsNewestIff(ms[n], Latest(front), e.url, e.nowMs, ms[n + 1]);
    }
  }

  lemma EmptyIsNewest()
    ensures IsNewest(map[], map[], MAX_LIKED_POSTS)
  {
  }

  lemma GrowingStaysAhead(front: seq<Event>, e: Event, m: Liked, es: seq<Event>)
    requires es == front + [e] && e.Like? && StampsGrow(es)
    requires IsNewest(m, Latest(front), MAX_LIKED_POSTS)
    ensures StaysAhead(m, Latest(front), e.url, e.nowMs)
  {
    hide Latest;
    if e.url in m {
      var all := Latest(front);
      LatestWasLiked(front, e.url);
      var i :| 0 <= i < |front| && front[i] == Like(e.url, all[e.url]);
      assert es[i] == front[i] && es[|front|] == e;
      assert all[e.url] <= e.nowMs;
    }
  }

  // -------------------------------------------------------------------- the store

  class Store {
    var liked: Liked

    constructor ()
      ensures liked == map[]
    {
      liked := map[];
    }

    /** The oldest entry, by a scan over all of them. */
    method FindOldest() returns (oldest: string)
      requires liked != map[]
      ensures oldest in liked
      ensures forall u <- liked :: u != oldest ==> Older(liked[oldest], oldest, liked[u], u)
    {
      var rest := liked.Keys;
      oldest :| oldest in rest;
      rest := rest - {oldest};
      while rest != {}
        invariant oldest in liked && rest <= liked.Keys
        invariant forall u <- liked :: u !in rest && u != oldest ==> Older(liked[oldest], oldest, liked[u], u)
      {
        var u :| u in rest;
        rest := rest - {u};
        OlderTotal(liked[u], u, liked[oldest], oldest);
        if Older(liked[u], u, liked[oldest], oldest) {
          OlderThanAll(liked, u, oldest, rest);
          oldest := u;
        }
      }
    }

    method Evict()
      modifies this
      ensures IsNewest(liked, old(liked), MAX_LIKED_POSTS)
    {
      ghost var all := liked;
      while |liked| > MAX_LIKED_POSTS
        invariant liked == all || |liked| >= MAX_LIKED_POSTS
        invariant |liked| <= |all| && IsNewest(liked, all, |liked|)
        decreases |liked|
      {
        var oldest := FindOldest();
        DropOldest(liked, all, oldest);
        liked := liked - {oldest};
      }
    }

    /** False when the post was liked already; its stamp is refreshed then. */
    method Like(url: string, nowMs: int) returns (added: bool)
      modifies this
      ensures Step(old(liked), Event.Like(url, nowMs), liked)
      ensures added <==> url !in old(liked)
    {
      added := url !in liked;
      liked := liked[url := nowMs];
      if added {
        Evict();
      }
    }

    method Unlike(url: string) returns (removed: bool)
      modifies this
      ensures Step(old(liked), Event.Unlike(url), liked)
      ensures removed <==> url in old(liked)
    {
      removed := url in liked;
      liked := liked - {url};
    }
  }

  lemma OlderThanAll(m: Liked, u: string, oldest: string, rest: set<string>)
    requires u in m && oldest in m && Older(m[u], u, m[oldest], oldest)
    requires forall v <- m :: v !in rest + {u} && v != oldest ==> Older(m[oldest], oldest, m[v], v)
    ensures forall v <- m :: v !in rest && v != u ==> Older(m[u], u, m[v], v)
  {
    forall v | v in m && v !in rest && v != u ensures Older(m[u], u, m[v], v) {
      if v != oldest {
        OlderTransitive(m[u], u, m[oldest], oldest, m[v], v);
      }
    }
  }

  lemma DropOldest(m: Liked, all: Liked, oldest: string)
    requires |m| <= |all| && IsNewest(m, all, |m|) && oldest in m
    requires forall u <- m :: u != oldest ==> Older(m[oldest], oldest, m[u], u)
    ensures |m - {oldest}| == |m| - 1
    ensures IsNewest(m - {oldest}, all, |m| - 1)
  {
    var next := m - {oldest};
    assert next.Keys == m.Keys - {oldest};
    forall d, u | d in all && d !in next && u in next ensures Older(all[d], d, next[u], u) {
      if d != oldest {
        assert Older(all[d], d, m[u], u);
      }
    }
  }
}
