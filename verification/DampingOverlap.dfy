/** Passes that overlap: a pass looks at the marks and writes its own mark in two
    steps, each under the lock but with an await in between, so another pass may
    come in between (crates/fetchit-chat/src/fedi_follow_sync.rs). */
module DampingOverlap {
  import opened FollowDamping

  datatype Act =
    | Look(pass: nat, visit: Visit)
    | Mark(pass: nat)

  /** `open` holds, for each pass between its two steps, the row it goes ahead
      with. */
  datatype World = World(marks: Marks, open: map<nat, Visit>)

  const START := World(map[], map[])

  /** One step; a pass that does not go ahead opens nothing. */
  function Step(w: World, a: Act): World {
    match a
    case Look(p, v) => if p !in w.open && GoesAhead(w.marks, v) then w.(open := w.open[p := v]) else w
    case Mark(p) =>
      if p !in w.open then w
      else World(Attempted(w.marks, KeyOf(w.open[p]), w.open[p].now), w.open - {p})
  }

  function Run(acts: seq<Act>): World {
    if acts == [] then START else Step(Run(acts[..|acts| - 1]), acts[|acts| - 1])
  }

  /** The state before act `k`. */
  function At(acts: seq<Act>, k: nat): World
    requires k <= |acts|
  {
    Run(acts[..k])
  }

  lemma AtNext(acts: seq<Act>, k: nat)
    requires k < |acts|
    ensures At(acts, k + 1) == Step(At(acts, k), acts[k])
  {
    assert acts[..k + 1][..k] == acts[..k];
  }

  /** Act `k` is the attempt of `v`. */
  ghost predicate Attempts(acts: seq<Act>, k: nat, v: Visit)
    requires k < |acts|
  {
    acts[k].Mark? && acts[k].pass in At(acts, k).open && At(acts, k).open[acts[k].pass] == v
  }

  ghost predicate NeverClears(acts: seq<Act>) {
    forall k :: 0 <= k < |acts| && acts[k].Mark? && acts[k].pass in At(acts, k).open ==> |At(acts, k).marks| <= MAX_TRACKED_MARKS
  }

  /** Later attempts of a key come at least a cooldown later. */
  ghost predicate Spaced(acts: seq<Act>, key: string) {
    forall i, j, v, u :: 0 <= i < j < |acts| && Attempts(acts, i, v) && Attempts(acts, j, u) && KeyOf(v) == key == KeyOf(u) ==>
                         u.now >= v.now + Cooldown(u)
  }

  /** At an attempt of `v`, no other pass is open on the same key with a row less
      than a cooldown later. */
  ghost predicate ApartAt(acts: seq<Act>, k: nat, v: Visit)
    requires k < |acts|
  {
    var open := At(acts, k + 1).open;
    forall q :: q in open && KeyOf(open[q]) == KeyOf(v) ==> open[q].now >= v.now + Cooldown(open[q])
  }

  ghost predicate AlwaysApart(acts: seq<Act>, key: string) {
    forall k, v :: 0 <= k < |acts| && Attempts(acts, k, v) && KeyOf(v) == key ==> ApartAt(acts, k, v)
  }

  // ------------------------------------------------------- apart means spaced

  /** The mark is at least `floor`, and every pass open on the key is a cooldown
      past the mark. */
  ghost predicate Guarded(w: World, key: string, floor: nat) {
    && key in w.marks && w.marks[key] >= floor
    && forall q :: q in w.open && KeyOf(w.open[q]) == key ==> w.open[q].now >= w.marks[key] + Cooldown(w.open[q])
  }

  lemma GuardedLook(w: World, p: nat, v: Visit, key: string, floor: nat)
    requires Guarded(w, key, floor)
    ensures Guarded(Step(w, Look(p, v)), key, floor)
  {
    hide GoesAhead, KeyOf, Cooldown;
    GoesAheadSpaced(w.marks, v);
  }

  lemma GuardedMark(w: World, p: nat, key: string, floor: nat)
    requires Guarded(w, key, floor) && p in w.open && |w.marks| <= MAX_TRACKED_MARKS
    requires KeyOf(w.open[p]) == key ==>
               forall q :: q in w.open && q != p && KeyOf(w.open[q]) == key ==> w.open[q].now >= w.open[p].now + Cooldown(w.open[q])
    ensures Guarded(Step(w, Mark(p)), key, floor)
  {
    hide KeyOf, Cooldown;
  }

  lemma GuardedStep(acts: seq<Act>, k: nat, key: string, floor: nat)
    requires k < |acts| && NeverClears(acts) && AlwaysApart(acts, key) && Guarded(At(acts, k), key, floor)
    ensures Guarded(At(acts, k + 1), key, floor)
  {
    hide Run, KeyOf, Cooldown, GoesAhead, Guarded;
    AtNext(acts, k);
    var w := At(acts, k);
    match acts[k]
    case Look(p, v) => GuardedLook(w, p, v, key, floor);
    case Mark(p) =>
      if p in w.open {
        var v := w.open[p];
        assert Attempts(acts, k, v);
        assert KeyOf(v) == key ==> ApartAt(acts, k, v);
        assert forall q :: q in w.open && q != p ==> q in At(acts, k + 1).open && At(acts, k + 1).open[q] == w.open[q];
        GuardedMark(w, p, key, floor);
      }
  }

  lemma {:induction false} GuardedAfter(acts: seq<Act>, i: nat, k: nat, v: Visit)
    requires i < k <= |acts| && Attempts(acts, i, v) && NeverClears(acts) && AlwaysApart(acts, KeyOf(v))
    ensures Guarded(At(acts, k), KeyOf(v), v.now)
    decreases k
  {
    hide At, Guarded, NeverClears, AlwaysApart, Attempts;
    if i < k - 1 {
      GuardedAfter(acts, i, k - 1, v);
      GuardedStep(acts, k - 1, KeyOf(v), v.now);
    } else {
      GuardedFrom(acts, i, v);
    }
  }

  lemma GuardedFrom(acts: seq<Act>, i: nat, v: Visit)
    requires i < |acts| && Attempts(acts, i, v) && NeverClears(acts) && AlwaysApart(acts, KeyOf(v))
    ensures Guarded(At(acts, i + 1), KeyOf(v), v.now)
  {
    hide Run, KeyOf, Cooldown, GoesAhead;
    AtNext(acts, i);
    assert ApartAt(acts, i, v);
    var w, w' := At(acts, i), At(acts, i + 1);
    assert w'.marks == w.marks[KeyOf(v) := v.now];
  }

  lemma ApartSpaces(acts: seq<Act>, key: string)
    requires NeverClears(acts) && AlwaysApart(acts, key)
    ensures Spaced(acts, key)
  {
    hide At, NeverClears, AlwaysApart;
    forall i, j, v, u | 0 <= i < j < |acts| && Attempts(acts, i, v) && Attempts(acts, j, u) && KeyOf(v) == key == KeyOf(u)
      ensures u.now >= v.now + Cooldown(u)
    {
      GuardedAfter(acts, i, j, v);
    }
  }

  // ------------------------------------------------------- spaced means apart

  /** An open pass that is closed in the end makes its attempt in between. */
  lemma {:induction false} Closes(acts: seq<Act>, k: nat, q: nat) returns (j: nat)
    requires k <= |acts| && q in At(acts, k).open && Run(acts).open == map[]
    ensures k <= j < |acts| && Attempts(acts, j, At(acts, k).open[q])
    decreases |acts| - k
  {
    hide Run, GoesAhead;
    assert acts[..|acts|] == acts;
    AtNext(acts, k);
    if acts[k] == Mark(q) {
      j := k;
    } else {
      j := Closes(acts, k + 1, q);
    }
  }

  lemma SpacedMeansApart(acts: seq<Act>, key: string)
    requires Spaced(acts, key) && Run(acts).open == map[]
    ensures AlwaysApart(acts, key)
  {
    hide Run, KeyOf, Cooldown;
    forall k, v | 0 <= k < |acts| && Attempts(acts, k, v) && KeyOf(v) == key ensures ApartAt(acts, k, v) {
      var open := At(acts, k + 1).open;
      forall q | q in open && KeyOf(open[q]) == key ensures open[q].now >= v.now + Cooldown(open[q]) {
        var j := Closes(acts, k + 1, q);
      }
    }
  }

  /** Over every run of overlapping passes that all finish, while the marks are not
      cleared: any two attempts for one id in one direction are a cooldown apart,
      if and only if at each attempt no other pass is between its look and its
      mark for that id with a time less than a cooldown later. */
  lemma SpacedIff(acts: seq<Act>, key: string)
    requires NeverClears(acts) && Run(acts).open == map[]
    ensures Spaced(acts, key) <==> AlwaysApart(acts, key)
  {
    hide NeverClears, Spaced, AlwaysApart, Run;
    if AlwaysApart(acts, key) {
      ApartSpaces(acts, key);
    }
    if Spaced(acts, key) {
      SpacedMeansApart(acts, key);
    }
  }

  /** Passes that do not overlap are the runs of visits of module FollowDamping. */
  function Serially(vs: seq<Visit>): seq<Act> {
    if vs == [] then [] else Serially(vs[..|vs| - 1]) + [Look(0, vs[|vs| - 1]), Mark(0)]
  }

  lemma RunTwo(acts: seq<Act>, a: Act, b: Act)
    ensures Run(acts + [a, b]) == Step(Step(Run(acts), a), b)
  {
    hide Step;
    var more := acts + [a, b];
    assert more[..|more| - 1] == acts + [a] && (acts + [a])[..|acts + [a]| - 1] == acts;
  }

  lemma LookThenMark(w: World, v: Visit)
    requires w.open == map[]
    ensures Step(Step(w, Look(0, v)), Mark(0)) == World(Visited(w.marks, v), map[])
  {
    hide GoesAhead, Attempted, KeyOf;
  }

  lemma {:induction false} SeriallyIsRun(vs: seq<Visit>)
    ensures Run(Serially(vs)) == World(FollowDamping.Run(map[], vs), map[])
  {
    hide Step, Visited;
    if vs != [] {
      var n := |vs| - 1;
      SeriallyIsRun(vs[..n]);
      RunTwo(Serially(vs[..n]), Look(0, vs[n]), Mark(0));
      LookThenMark(Run(Serially(vs[..n])), vs[n]);
    }
  }

  function Overlap(v: Visit): seq<Act> { [Look(0, v), Look(1, v), Mark(0), Mark(1)] }

  lemma OverlapStates(v: Visit)
    requires v.Inbound?
    ensures var acts := Overlap(v);
            && At(acts, 0) == START && At(acts, 1) == World(map[], map[0 := v])
            && At(acts, 2) == World(map[], map[0 := v, 1 := v])
            && At(acts, 3) == World(map[KeyOf(v) := v.now], map[1 := v])
            && Run(acts) == World(map[KeyOf(v) := v.now], map[])
  {
    hide Run, KeyOf;
    var acts := Overlap(v);
    Nothing(acts[..0]);
    AtNext(acts, 0);
    AtNext(acts, 1);
    AtNext(acts, 2);
    AtNext(acts, 3);
    assert acts[..4] == acts;
    assert map[KeyOf(v) := v.now].Keys == {KeyOf(v)};
  }

  /** Two passes that look before either marks both attempt the same request, in
      the same millisecond. */
  lemma OverlapAttemptsTwice(v: Visit)
    requires v.Inbound?
    ensures var acts := Overlap(v);
            && Attempts(acts, 2, v) && Attempts(acts, 3, v) && NeverClears(acts) && Run(acts).open == map[]
            && !Spaced(acts, KeyOf(v))
  {
    hide At, Run, KeyOf;
    var acts := Overlap(v);
    OverlapStates(v);
    assert map[KeyOf(v) := v.now].Keys == {KeyOf(v)};
    assert Attempts(acts, 2, v) && Attempts(acts, 3, v);
  }

  lemma Nothing(acts: seq<Act>)
    requires acts == []
    ensures Run(acts) == START
  {
  }
}
