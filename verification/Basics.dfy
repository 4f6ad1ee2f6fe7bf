/** Types, sets and characters used throughout. */
module Basics {

  datatype Option<T> = None | Some(value: T)

  type Byte = n: nat | n < 256

  function LowerChar(c: char): char {
    if 'A' <= c <= 'Z' then (c as int + 32) as char else c
  }

  function Elements<T>(s: seq<T>): set<T> { set x | x in s }

  lemma {:induction false} ElementsSmall<T>(s: seq<T>)
    ensures |Elements(s)| <= |s|
    ensures (forall i, j :: 0 <= i < j < |s| ==> s[i] != s[j]) ==> |Elements(s)| == |s|
  {
    if s == [] {
      assert Elements(s) == {};
    } else {
      var front, last := s[..|s| - 1], s[|s| - 1];
      ElementsSmall(front);
      assert s == front + [last];
      assert Elements(s) == Elements(front) + {last};
    }
  }

  lemma SubsetCards<T>(a: set<T>, b: set<T>)
    requires a <= b
    ensures |a| <= |b|
    ensures |a| == |b| ==> a == b
  {
    assert b == a + (b - a);
  }
}
