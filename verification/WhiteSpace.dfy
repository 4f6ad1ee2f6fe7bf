/** Trimming as Rust's `str` does it. */
module WhiteSpace {

  /** Unicode White_Space, the set `str::trim` removes. */
  predicate IsWhite(c: char) {
    || '\t' <= c <= '\r' || c == ' ' || c == '\U{85}' || c == '\U{A0}'
    || c == '\U{1680}' || '\U{2000}' <= c <= '\U{200A}' || c == '\U{2028}'
    || c == '\U{2029}' || c == '\U{202F}' || c == '\U{205F}' || c == '\U{3000}'
  }

  function TrimStart(s: string): (r: string)
    ensures r != [] ==> !IsWhite(r[0])
    ensures |r| <= |s|
    ensures r == s <==> (s == [] || !IsWhite(s[0]))
    ensures s != [] && r != [] ==> r[|r| - 1] == s[|s| - 1]
  {
    if s == [] || !IsWhite(s[0]) then s else TrimStart(s[1..])
  }

  function TrimEnd(s: string): (r: string)
    ensures r != [] ==> !IsWhite(r[|r| - 1])
    ensures |r| <= |s|
    ensures r == s <==> (s == [] || !IsWhite(s[|s| - 1]))
    ensures s != [] && r != [] ==> r[0] == s[0]
  {
    if s == [] || !IsWhite(s[|s| - 1]) then s else TrimEnd(s[..|s| - 1])
  }

  function Trim(s: string): string {
    TrimEnd(TrimStart(s))
  }

  ghost predicate AllWhite(s: string) { forall i :: 0 <= i < |s| ==> IsWhite(s[i]) }

  lemma {:induction false} StartParts(s: string) returns (a: string)
    ensures AllWhite(a) && s == a + TrimStart(s)
  {
    if s == [] || !IsWhite(s[0]) {
      a := [];
    } else {
      var rest := StartParts(s[1..]);
      a := [s[0]] + rest;
    }
  }

  lemma {:induction false} EndParts(s: string) returns (b: string)
    ensures AllWhite(b) && s == TrimEnd(s) + b
  {
    if s == [] || !IsWhite(s[|s| - 1]) {
      b := [];
    } else {
      var rest := EndParts(s[..|s| - 1]);
      b := rest + [s[|s| - 1]];
    }
  }

  /** Trimming takes off white space at both ends, all of it and nothing else. */
  lemma TrimParts(s: string) returns (a: string, b: string)
    ensures AllWhite(a) && AllWhite(b) && s == a + Trim(s) + b
    ensures Trim(s) != [] ==> !IsWhite(Trim(s)[0]) && !IsWhite(Trim(s)[|Trim(s)| - 1])
  {
    a := StartParts(s);
    b := EndParts(TrimStart(s));
  }
}
