/** Lexicographic order on strings by code point. UTF-8 keeps code-point
    order, so this is also the bytewise order of Rust's `str::cmp`. */
module TextOrder {

  predicate Less(a: string, b: string) {
    if b == [] then false
    else if a == [] then true
    else if a[0] != b[0] then a[0] < b[0]
    else Less(a[1..], b[1..])
  }

  /** Lexicographic order, said without recursion: a proper prefix comes first,
      and otherwise the first difference decides. */
  ghost predicate Precedes(a: string, b: string) {
    || (|a| < |b| && b[..|a|] == a)
    || (exists i :: 0 <= i < |a| && FirstDifference(a, b, i) && a[i] < b[i])
  }

  ghost predicate FirstDifference(a: string, b: string, i: nat) {
    i < |a| && i < |b| && a[..i] == b[..i] && a[i] != b[i]
  }

  lemma DifferenceBehind(a: string, b: string, i: nat)
    requires a != [] && b != [] && a[0] == b[0]
    ensures FirstDifference(a, b, i + 1) <==> FirstDifference(a[1..], b[1..], i)
  {
    if i + 1 < |a| && i + 1 < |b| {
      assert a[..i + 1] == [a[0]] + a[1..][..i] && b[..i + 1] == [b[0]] + b[1..][..i];
      assert a[1..][..i] == a[..i + 1][1..] && b[1..][..i] == b[..i + 1][1..];
    }
  }

  lemma PrecedesTail(a: string, b: string)
    requires a != [] && b != [] && a[0] == b[0]
    ensures Precedes(a, b) <==> Precedes(a[1..], b[1..])
  {
    forall i: nat ensures FirstDifference(a, b, i + 1) <==> FirstDifference(a[1..], b[1..], i) {
      DifferenceBehind(a, b, i);
    }
    if |a| < |b| {
      assert b[..|a|] == [b[0]] + b[1..][..|a| - 1] && a == [a[0]] + a[1..];
      assert b[1..][..|a| - 1] == b[..|a|][1..];
    }
    if i :| 0 <= i < |a| && FirstDifference(a, b, i) && a[i] < b[i] {
      assert FirstDifference(a[1..], b[1..], i - 1);
    }
    if i :| 0 <= i < |a[1..]| && FirstDifference(a[1..], b[1..], i) && a[1..][i] < b[1..][i] {
      assert FirstDifference(a, b, i + 1);
    }
  }

  lemma {:induction false} LessIff(a: string, b: string)
    ensures Less(a, b) <==> Precedes(a, b)
  {
    if a != [] && b != [] {
      if a[0] == b[0] {
        LessIff(a[1..], b[1..]);
        PrecedesTail(a, b);
      } else {
        assert FirstDifference(a, b, 0);
        assert |a| < |b| ==> b[..|a|][0] == b[0];
        forall i | 0 < i < |a| && i < |b| ensures !FirstDifference(a, b, i) {
          assert a[..i][0] == a[0] && b[..i][0] == b[0];
        }
      }
    }
  }

  lemma {:induction false} LessIrreflexive(a: string)
    ensures !Less(a, a)
  {
    if a != [] {
      LessIrreflexive(a[1..]);
    }
  }

  lemma {:induction false} LessTransitive(a: string, b: string, c: string)
    requires Less(a, b) && Less(b, c)
    ensures Less(a, c)
  {
    if a != [] && a[0] == b[0] && b[0] == c[0] {
      LessTransitive(a[1..], b[1..], c[1..]);
    }
  }

  lemma {:induction false} LessTotal(a: string, b: string)
    ensures Less(a, b) || a == b || Less(b, a)
  {
    if a != [] && b != [] && a[0] == b[0] {
      LessTotal(a[1..], b[1..]);
      assert a == [a[0]] + a[1..] && b == [b[0]] + b[1..];
    }
  }

  lemma LessAsymmetric(a: string, b: string)
    requires Less(a, b)
    ensures !Less(b, a)
  {
    if Less(b, a) {
      LessTransitive(a, b, a);
      LessIrreflexive(a);
    }
  }
}
