/** Outbound follows over every run of store operations: a row is accepted
    exactly when its own target answered it. */
module FollowingRuns {
  import opened FollowStore

  datatype Op =
    | Ask(key: Key, inbox: string, followId: string, now: nat)
    | Accept(followId: string, target: string, actor: string)
    | Reject(followId: string, target: string)
    | Drop(key: Key)

  ghost function Step(f: FollowingTable, op: Op): FollowingTable {
    match op
    case Ask(key, inbox, id, now) => Requested(f, key, inbox, id, now)
    case Accept(id, target, actor) => AcceptedBy(f, id, target, actor)
    case Reject(id, target) => RejectedBy(f, id, target)
    case Drop(key) => Unfollowed(f, key)
  }

  ghost function Run(ops: seq<Op>): FollowingTable {
    if ops == [] then map[] else Step(Run(ops[..|ops| - 1]), ops[|ops| - 1])
  }

  lemma StepKeepsUnique(f: FollowingTable, op: Op)
    requires UniqueIds(f)
    ensures UniqueIds(Step(f, op))
  {
  }

  /** In every reachable table activity ids are unique. */
  lemma {:induction false} RunUnique(ops: seq<Op>)
    ensures UniqueIds(Run(ops))
  {
    if ops != [] {
      RunUnique(ops[..|ops| - 1]);
      StepKeepsUnique(Run(ops[..|ops| - 1]), ops[|ops| - 1]);
    }
  }

  /** An Accept changes the table exactly when id, sender and recipient match a
      pending row, and then flips that row and no other. */
  lemma AcceptExact(f: FollowingTable, followId: string, target: string, actor: string)
    ensures var f' := AcceptedBy(f, followId, target, actor); var key := (actor, target);
            && (f' != f <==> key in f && f[key].followId == followId && f[key].state == Pending)
            && (f' != f ==> f' == f[key := f[key].(state := Accepted)])
  {
    var key := (actor, target);
    if key in f && f[key].followId == followId && f[key].state == Pending {
      assert f[key := f[key].(state := Accepted)][key] != f[key];
    }
  }

  /** A Reject changes the table exactly when its sender is the target of the
      row carrying the id, and then removes that one row. */
  lemma RejectExact(f: FollowingTable, followId: string, target: string)
    requires UniqueIds(f)
    ensures RejectedBy(f, followId, target) != f <==> exists k :: k in f && k.1 == target && f[k].followId == followId
    ensures forall k :: k in f && k.1 == target && f[k].followId == followId ==> RejectedBy(f, followId, target) == f - {k}
  {
    var f' := RejectedBy(f, followId, target);
    if exists k :: k in f && k.1 == target && f[k].followId == followId {
      var k :| k in f && k.1 == target && f[k].followId == followId;
      assert k !in f';
    } else {
      assert f'.Keys == f.Keys;
    }
  }

  /** Operation `i` inserted the row now at `key`, which has stayed since. */
  ghost predicate InsertedAt(ops: seq<Op>, key: Key, i: nat) {
    && i < |ops| && ops[i].Ask? && ops[i].key == key
    && key !in Run(ops[..i])
    && key in Run(ops)
    && PresentSince(ops, key, i)
    && Run(ops)[key].followId == ops[i].followId && Run(ops)[key].inbox == ops[i].inbox
    && Run(ops)[key].createdMs == if ops[i].now <= I64_MAX then ops[i].now else I64_MAX
  }

  ghost predicate PresentSince(ops: seq<Op>, key: Key, i: nat) {
    forall k :: i < k <= |ops| ==> key in Run(ops[..k])
  }

  lemma PresentSnoc(ops: seq<Op>, key: Key, i: nat)
    requires ops != [] && i < |ops| && PresentSince(ops[..|ops| - 1], key, i) && key in Run(ops)
    ensures PresentSince(ops, key, i)
  {
    hide Run;
    var front := ops[..|ops| - 1];
    forall k | i < k <= |ops| ensures key in Run(ops[..k]) {
      if k < |ops| {
        assert front[..k] == ops[..k];
      } else {
        assert ops[..k] == ops;
      }
    }
  }

  /** After `i` an Accept arrived with this id, from this target, for this owner. */
  ghost predicate AnsweredAfter(ops: seq<Op>, i: nat, key: Key, followId: string) {
    exists j :: i < j < |ops| && ops[j] == Accept(followId, key.1, key.0)
  }

  lemma AnsweredSnoc(ops: seq<Op>, i: nat, key: Key, followId: string)
    requires ops != [] && i < |ops| - 1
    ensures AnsweredAfter(ops, i, key, followId) <==>
            AnsweredAfter(ops[..|ops| - 1], i, key, followId) || ops[|ops| - 1] == Accept(followId, key.1, key.0)
  {
    var front := ops[..|ops| - 1];
    if AnsweredAfter(front, i, key, followId) {
      var j :| i < j < |front| && front[j] == Accept(followId, key.1, key.0);
      assert ops[j] == front[j];
    }
    if AnsweredAfter(ops, i, key, followId) && ops[|ops| - 1] != Accept(followId, key.1, key.0) {
      var j :| i < j < |ops| && ops[j] == Accept(followId, key.1, key.0);
      assert front[j] == ops[j];
    }
  }

  lemma StepRow(f: FollowingTable, op: Op, key: Key)
    requires key in Step(f, op) && key in f
    ensures var r, r' := f[key], Step(f, op)[key];
            && r'.followId == r.followId && r'.inbox == r.inbox && r'.createdMs == r.createdMs
            && (r'.state == Accepted <==> r.state == Accepted || op == Accept(r.followId, key.1, key.0))
  {
  }

  lemma StepInserts(f: FollowingTable, op: Op, key: Key)
    requires key in Step(f, op) && key !in f
    ensures op.Ask? && op.key == key && Step(f, op)[key] == Following(op.inbox, Pending, op.followId, Clamp(op.now))
  {
  }

  /** Over every run, each row goes back to the request that inserted it, and it
      is accepted if and only if, after that insert, an Accept arrived with its
      activity id, from its own target, delivered to its owner. */
  lemma {:induction false} AcceptedIffAnswered(ops: seq<Op>, key: Key) returns (i: nat)
    requires key in Run(ops)
    ensures InsertedAt(ops, key, i)
    ensures Run(ops)[key].state == Accepted <==> AnsweredAfter(ops, i, key, Run(ops)[key].followId)
    decreases |ops|
  {
    var n := |ops| - 1;
    var front, op := ops[..n], ops[n];
    if key in Run(front) {
      i := AcceptedIffAnswered(front, key);
      StepRow(Run(front), op, key);
      assert front[..i] == ops[..i] && front[i] == ops[i];
      AnsweredSnoc(ops, i, key, Run(front)[key].followId);
      PresentSnoc(ops, key, i);
    } else {
      i := n;
      StepInserts(Run(front), op, key);
      assert PresentSince(front, key, i);
      PresentSnoc(ops, key, i);
    }
  }

  // ---------------------------------------------------------- when a row is there

  /** Operation `i` inserts a row at `key`: there is none, and its id is free. */
  ghost predicate InsertsAt(ops: seq<Op>, key: Key, i: nat)
    requires i < |ops|
  {
    ops[i].Ask? && ops[i].key == key && key !in Run(ops[..i]) && !IdTaken(Run(ops[..i]), ops[i].followId)
  }

  /** Nothing after `i` takes the row of this id away: no unfollow of the pair, no
      Reject of the id by its target. */
  ghost predicate NotRemovedAfter(ops: seq<Op>, key: Key, i: nat)
    requires i < |ops| && ops[i].Ask?
  {
    forall j :: i < j < |ops| ==> ops[j] != Drop(key) && ops[j] != Reject(ops[i].followId, key.1)
  }

  lemma PresenceStep(f: FollowingTable, op: Op, key: Key)
    ensures key in Step(f, op) <==>
            || (key in f && op != Drop(key) && op != Reject(f[key].followId, key.1))
            || (key !in f && op.Ask? && op.key == key && !IdTaken(f, op.followId))
  {
  }

  lemma {:induction false} RowStays(ops: seq<Op>, key: Key, i: nat, n: nat)
    requires i < n <= |ops| && InsertsAt(ops, key, i) && NotRemovedAfter(ops, key, i)
    ensures key in Run(ops[..n]) && Run(ops[..n])[key].followId == ops[i].followId
    decreases n
  {
    hide Step, IdTaken;
    assert ops[..n][..n - 1] == ops[..n - 1];
    PresenceStep(Run(ops[..n - 1]), ops[n - 1], key);
    if n - 1 > i {
      RowStays(ops, key, i, n - 1);
      StepRow(Run(ops[..n - 1]), ops[n - 1], key);
    } else {
      StepInserts(Run(ops[..i]), ops[i], key);
    }
  }

  lemma RowWasNotRemoved(ops: seq<Op>, key: Key, i: nat)
    requires InsertedAt(ops, key, i)
    ensures InsertsAt(ops, key, i) && NotRemovedAfter(ops, key, i)
  {
    hide Step, IdTaken, Run;
    RunNext(ops, i);
    assert key in Run(ops[..i + 1]);
    PresenceStep(Run(ops[..i]), ops[i], key);
    forall j | i < j < |ops| ensures ops[j] != Drop(key) && ops[j] != Reject(ops[i].followId, key.1) {
      RunNext(ops, j);
      assert key in Run(ops[..j]) && key in Run(ops[..j + 1]);
      SameIdSince(ops, key, i, j);
      PresenceStep(Run(ops[..j]), ops[j], key);
    }
  }

  lemma RunNext(ops: seq<Op>, k: nat)
    requires k < |ops|
    ensures Run(ops[..k + 1]) == Step(Run(ops[..k]), ops[k])
  {
    assert ops[..k + 1][..k] == ops[..k];
  }

  lemma {:induction false} SameIdSince(ops: seq<Op>, key: Key, i: nat, j: nat)
    requires InsertedAt(ops, key, i) && i < j <= |ops|
    ensures key in Run(ops[..j]) && Run(ops[..j])[key].followId == ops[i].followId
    decreases |ops| - j
  {
    hide Step, Run;
    assert key in Run(ops[..j]);
    if j == |ops| {
      assert ops[..j] == ops;
    } else {
      SameIdSince(ops, key, i, j + 1);
      RunNext(ops, j);
      StepRow(Run(ops[..j]), ops[j], key);
    }
  }

  /** Over every run, a pair has a row if and only if some request inserted one
      and neither an unfollow of the pair nor a Reject of that request's id by its
      target came after. */
  lemma PresentIff(ops: seq<Op>, key: Key)
    ensures key in Run(ops) <==> exists i :: 0 <= i < |ops| && InsertsAt(ops, key, i) && NotRemovedAfter(ops, key, i)
  {
    hide Run, NotRemovedAfter;
    if key in Run(ops) {
      var i := AcceptedIffAnswered(ops, key);
      RowWasNotRemoved(ops, key, i);
    }
    if i :| 0 <= i < |ops| && InsertsAt(ops, key, i) && NotRemovedAfter(ops, key, i) {
      RowStays(ops, key, i, |ops|);
      assert ops[..|ops|] == ops;
    }
  }
}
