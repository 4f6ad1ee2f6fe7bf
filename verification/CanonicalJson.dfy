/** Canonical JSON: keys sorted at every depth, then printed
    (`canonical_json` / `write_canonical` in crates/fetchit-chat/src/card.rs). */
module CanonicalJson {
  import opened TextOrder
  import opened JsonText

  // ------------------------------------------------------------ well-formed

  ghost predicate DistinctKeys(ms: seq<Member>) {
    forall i, j :: 0 <= i < j < |ms| ==> ms[i].key != ms[j].key
  }

  /** A JSON value as a parser yields it: no object has a key twice, and numbers
      are printable. */
  ghost predicate WellFormed(v: Json) {
    match v
    case Num(n) => NumberOk(n)
    case Arr(xs) => forall i :: 0 <= i < |xs| ==> WellFormed(xs[i])
    case Obj(ms) => DistinctKeys(ms) && forall i :: 0 <= i < |ms| ==> WellFormed(ms[i].val)
    case _ => true
  }

  /** Equal up to the order of object members at every depth. */
  ghost predicate SameUpToKeyOrder(a: Json, b: Json) {
    match a
    case Arr(xs) =>
      b.Arr? && |xs| == |b.items| && forall i :: 0 <= i < |xs| ==> SameUpToKeyOrder(xs[i], b.items[i])
    case Obj(ms) =>
      && b.Obj?
      && (forall i :: 0 <= i < |ms| ==> HasKey(b.members, ms[i].key))
      && (forall j :: 0 <= j < |b.members| ==> HasKey(ms, b.members[j].key))
      && forall i, j :: 0 <= i < |ms| && 0 <= j < |b.members| && ms[i].key == b.members[j].key ==>
                        SameUpToKeyOrder(ms[i].val, b.members[j].val)
    case _ => a == b
  }

  ghost predicate HasKey(ms: seq<Member>, key: string) {
    exists i :: 0 <= i < |ms| && ms[i].key == key
  }

  // ---------------------------------------------------------------- sorting

  function PlaceMember(ms: seq<Member>, m: Member): (r: seq<Member>)
    ensures |r| == |ms| + 1
  {
    if ms == [] then [m]
    else if Less(m.key, ms[0].key) then [m] + ms
    else [ms[0]] + PlaceMember(ms[1..], m)
  }

  function SortMembers(ms: seq<Member>): (r: seq<Member>)
    ensures |r| == |ms|
  {
    if ms == [] then [] else PlaceMember(SortMembers(ms[1..]), ms[0])
  }

  ghost predicate Ascending(ms: seq<Member>) {
    forall i, j :: 0 <= i < j < |ms| ==> Less(ms[i].key, ms[j].key)
  }

  lemma {:induction false} PlaceHas(ms: seq<Member>, m: Member, x: Member)
    ensures x in PlaceMember(ms, m) <==> x in ms || x == m
  {
    if ms != [] {
      PlaceHas(ms[1..], m, x);
      assert x in ms <==> x == ms[0] || x in ms[1..];
    }
  }

  lemma {:induction false} SortHas(ms: seq<Member>, x: Member)
    ensures x in SortMembers(ms) <==> x in ms
  {
    if ms != [] {
      SortHas(ms[1..], x);
      PlaceHas(SortMembers(ms[1..]), ms[0], x);
      assert x in ms <==> x == ms[0] || x in ms[1..];
    }
  }

  lemma AscendingCons(m: Member, ms: seq<Member>)
    requires Ascending(ms)
    requires forall i :: 0 <= i < |ms| ==> Less(m.key, ms[i].key)
    ensures Ascending([m] + ms)
  {
  }

  lemma {:induction false} PlaceAscending(ms: seq<Member>, m: Member)
    requires Ascending(ms)
    requires forall i :: 0 <= i < |ms| ==> ms[i].key != m.key
    ensures Ascending(PlaceMember(ms, m))
  {
    if ms != [] {
      if Less(m.key, ms[0].key) {
        forall i | 0 <= i < |ms| ensures Less(m.key, ms[i].key) {
          if i > 0 {
            LessTransitive(m.key, ms[0].key, ms[i].key);
          }
        }
        AscendingCons(m, ms);
      } else {
        LessTotal(m.key, ms[0].key);
        PlaceAscending(ms[1..], m);
        var r := PlaceMember(ms[1..], m);
        forall i | 0 <= i < |r| ensures Less(ms[0].key, r[i].key) {
          PlaceHas(ms[1..], m, r[i]);
          assert r[i] in r;
        }
        AscendingCons(ms[0], r);
      }
    }
  }

  lemma {:induction false} SortAscending(ms: seq<Member>)
    requires DistinctKeys(ms)
    ensures Ascending(SortMembers(ms))
  {
    if ms != [] {
      var rest := SortMembers(ms[1..]);
      SortAscending(ms[1..]);
      forall i | 0 <= i < |rest| ensures rest[i].key != ms[0].key {
        SortHas(ms[1..], rest[i]);
        assert rest[i] in rest;
      }
      PlaceAscending(rest, ms[0]);
    }
  }

  /** Sorted by key: a key that is a proper prefix of another comes before it, and
      otherwise the first differing code point decides. */
  lemma SortOrdersKeys(ms: seq<Member>)
    requires DistinctKeys(ms)
    ensures var r := SortMembers(ms); forall i, j :: 0 <= i < j < |r| ==> Precedes(r[i].key, r[j].key)
    ensures forall x :: x in SortMembers(ms) <==> x in ms
  {
    hide Precedes, SortMembers;
    var r := SortMembers(ms);
    SortAscending(ms);
    forall i, j | 0 <= i < j < |r| ensures Precedes(r[i].key, r[j].key) {
      LessIff(r[i].key, r[j].key);
    }
    forall x ensures x in r <==> x in ms {
      SortHas(ms, x);
    }
  }

  lemma AscendingTail(ms: seq<Member>, x: Member)
    requires ms != [] && Ascending(ms)
    ensures x in ms[1..] <==> x in ms && x != ms[0]
  {
    LessIrreflexive(ms[0].key);
    assert forall k :: 1 <= k < |ms| ==> Less(ms[0].key, ms[k].key) && ms[1..][k - 1] == ms[k];
  }

  lemma AscendingHeads(a: seq<Member>, b: seq<Member>)
    requires Ascending(a) && Ascending(b) && a != [] && b != [] && a[0] in b && b[0] in a
    ensures a[0] == b[0]
  {
    var i :| 0 <= i < |b| && b[i] == a[0];
    var j :| 0 <= j < |a| && a[j] == b[0];
    if i > 0 && j > 0 {
      LessAsymmetric(b[0].key, b[i].key);
    }
  }

  /** The sorted order of a set of members is unique. */
  lemma {:induction false} AscendingUnique(a: seq<Member>, b: seq<Member>)
    requires Ascending(a) && Ascending(b)
    requires forall x :: x in a <==> x in b
    ensures a == b
  {
    assert |a| > 0 ==> a[0] in b;
    assert |b| > 0 ==> b[0] in a;
    if |a| > 0 && |b| > 0 {
      AscendingHeads(a, b);
      forall x ensures x in a[1..] <==> x in b[1..] {
        AscendingTail(a, x);
        AscendingTail(b, x);
      }
      AscendingUnique(a[1..], b[1..]);
      assert a == [a[0]] + a[1..] && b == [b[0]] + b[1..];
    }
  }

  // -------------------------------------------------------------- normal form

  /** The value with the members of every object sorted by key. */
  function Normal(v: Json): Json
    decreases v, 1
  {
    match v
    case Arr(xs) => Arr(NormalItems(xs))
    case Obj(ms) => Obj(SortMembers(NormalMembers(ms)))
    case _ => v
  }

  function NormalItems(xs: seq<Json>): (r: seq<Json>)
    ensures |r| == |xs|
    ensures forall i :: 0 <= i < |xs| ==> r[i] == Normal(xs[i])
    decreases xs, 0
  {
    if xs == [] then [] else [Normal(xs[0])] + NormalItems(xs[1..])
  }

  function NormalMembers(ms: seq<Member>): (r: seq<Member>)
    ensures |r| == |ms|
    ensures forall i :: 0 <= i < |ms| ==> r[i] == Member(ms[i].key, Normal(ms[i].val))
    decreases ms, 0
  {
    if ms == [] then [] else [Member(ms[0].key, Normal(ms[0].val))] + NormalMembers(ms[1..])
  }

  /** The canonical text of a value. */
  function Canonical(v: Json): string { EmitTo(Normal(v), "") }

  lemma {:induction false} NormalNumbersOk(v: Json)
    requires WellFormed(v)
    ensures NumbersOk(Normal(v))
  {
    match v
    case Arr(xs) =>
      forall i | 0 <= i < |xs| ensures NumbersOk(NormalItems(xs)[i]) {
        NormalNumbersOk(xs[i]);
      }
    case Obj(ms) =>
      var ns := NormalMembers(ms);
      var sorted := SortMembers(ns);
      forall i | 0 <= i < |ns| ensures NumbersOk(ns[i].val) {
        NormalNumbersOk(ms[i].val);
      }
      forall i | 0 <= i < |sorted| ensures NumbersOk(sorted[i].val) {
        assert sorted[i] in sorted;
        SortHas(ns, sorted[i]);
      }
    case _ =>
  }

  lemma MembersMatch(ms: seq<Member>, ns: seq<Member>)
    requires SortMembers(NormalMembers(ms)) == SortMembers(NormalMembers(ns))
    ensures forall x :: x in NormalMembers(ms) <==> x in NormalMembers(ns)
  {
    forall x ensures x in NormalMembers(ms) <==> x in NormalMembers(ns) {
      SortHas(NormalMembers(ms), x);
      SortHas(NormalMembers(ns), x);
    }
  }

  lemma {:induction false} NormalThenSame(a: Json, b: Json)
    requires WellFormed(a) && WellFormed(b) && Normal(a) == Normal(b)
    ensures SameUpToKeyOrder(a, b)
  {
    match a
    case Arr(xs) =>
      forall i | 0 <= i < |xs| ensures SameUpToKeyOrder(xs[i], b.items[i]) {
        assert NormalItems(xs)[i] == NormalItems(b.items)[i];
        NormalThenSame(xs[i], b.items[i]);
      }
    case Obj(ms) =>
      var ns := b.members;
      MembersMatch(ms, ns);
      KeysMatch(ms, ns);
      KeysMatch(ns, ms);
      forall i, j | 0 <= i < |ms| && 0 <= j < |ns| && ms[i].key == ns[j].key
        ensures SameUpToKeyOrder(ms[i].val, ns[j].val)
      {
        SameKeySameNormal(ms, ns, i, j);
        NormalThenSame(ms[i].val, ns[j].val);
      }
    case _ =>
  }

  lemma KeysMatch(ms: seq<Member>, ns: seq<Member>)
    requires forall x :: x in NormalMembers(ms) ==> x in NormalMembers(ns)
    ensures forall i :: 0 <= i < |ms| ==> HasKey(ns, ms[i].key)
  {
    hide Normal, NormalMembers;
    forall i | 0 <= i < |ms| ensures HasKey(ns, ms[i].key) {
      assert NormalMembers(ms)[i] in NormalMembers(ns);
      var j :| 0 <= j < |ns| && NormalMembers(ns)[j] == NormalMembers(ms)[i];
      assert ns[j].key == ms[i].key;
    }
  }

  lemma SameKeySameNormal(ms: seq<Member>, ns: seq<Member>, i: nat, j: nat)
    requires DistinctKeys(ns) && i < |ms| && j < |ns| && ms[i].key == ns[j].key
    requires forall x :: x in NormalMembers(ms) ==> x in NormalMembers(ns)
    ensures Normal(ms[i].val) == Normal(ns[j].val)
  {
    hide Normal, NormalMembers;
    assert NormalMembers(ms)[i] in NormalMembers(ns);
    var k :| 0 <= k < |ns| && NormalMembers(ns)[k] == NormalMembers(ms)[i];
    assert ns[k].key == ns[j].key;
    assert k == j;
  }

  lemma NormalDistinct(ms: seq<Member>)
    requires DistinctKeys(ms)
    ensures DistinctKeys(NormalMembers(ms))
  {
  }

  lemma {:induction false} SameThenNormal(a: Json, b: Json)
    requires WellFormed(a) && WellFormed(b) && SameUpToKeyOrder(a, b)
    ensures Normal(a) == Normal(b)
    decreases a
  {
    match a
    case Arr(xs) =>
      forall i | 0 <= i < |xs| ensures NormalItems(xs)[i] == NormalItems(b.items)[i] {
        SameThenNormal(xs[i], b.items[i]);
      }
    case Obj(ms) =>
      var ns := b.members;
      forall i, j | 0 <= i < |ms| && 0 <= j < |ns| && ms[i].key == ns[j].key
        ensures Normal(ms[i].val) == Normal(ns[j].val)
      {
        SameThenNormal(ms[i].val, ns[j].val);
      }
      SameMembers(ms, ns);
      SameMembers(ns, ms);
      SortAscendingNormal(ms);
      SortAscendingNormal(ns);
      SortsAgree(NormalMembers(ms), NormalMembers(ns));
    case _ =>
  }

  lemma SameMembers(ms: seq<Member>, ns: seq<Member>)
    requires forall i :: 0 <= i < |ms| ==> HasKey(ns, ms[i].key)
    requires forall i, j :: 0 <= i < |ms| && 0 <= j < |ns| && ms[i].key == ns[j].key ==> Normal(ms[i].val) == Normal(ns[j].val)
    ensures forall x :: x in NormalMembers(ms) ==> x in NormalMembers(ns)
  {
    forall x | x in NormalMembers(ms) ensures x in NormalMembers(ns) {
      var i :| 0 <= i < |ms| && NormalMembers(ms)[i] == x;
      var j :| 0 <= j < |ns| && ns[j].key == ms[i].key;
      assert NormalMembers(ns)[j] == x;
    }
  }

  lemma SortAscendingNormal(ms: seq<Member>)
    requires DistinctKeys(ms)
    ensures Ascending(SortMembers(NormalMembers(ms)))
  {
    NormalDistinct(ms);
    SortAscending(NormalMembers(ms));
  }

  lemma SortsAgree(a: seq<Member>, b: seq<Member>)
    requires Ascending(SortMembers(a)) && Ascending(SortMembers(b))
    requires (forall x :: x in a ==> x in b) && (forall x :: x in b ==> x in a)
    ensures SortMembers(a) == SortMembers(b)
  {
    forall x ensures x in SortMembers(a) <==> x in SortMembers(b) {
      SortHas(a, x);
      SortHas(b, x);
    }
    AscendingUnique(SortMembers(a), SortMembers(b));
  }

  /** Canonical JSON is a faithful encoding: two values print the same text
      exactly when they are equal up to key order at every depth. */
  lemma CanonicalFaithful(a: Json, b: Json)
    requires WellFormed(a) && WellFormed(b)
    ensures Canonical(a) == Canonical(b) <==> SameUpToKeyOrder(a, b)
  {
    if Canonical(a) == Canonical(b) {
      NormalNumbersOk(a);
      NormalNumbersOk(b);
      EmitUnique(Normal(a), Normal(b), "", "");
      NormalThenSame(a, b);
    }
    if SameUpToKeyOrder(a, b) {
      SameThenNormal(a, b);
    }
  }
}
