/** `write_canonical` as the source runs it: appending to an output buffer,
    looping over items and over the sorted key list. */
module CanonicalWriter {
  import opened TextOrder
  import opened JsonText
  import opened CanonicalJson

  // ------------------------------------------------------------ sorted keys

  function KeysOf(ms: seq<Member>): (r: seq<string>)
    ensures |r| == |ms|
    ensures forall i :: 0 <= i < |ms| ==> r[i] == ms[i].key
  {
    seq(|ms|, i requires 0 <= i < |ms| => ms[i].key)
  }

  function PlaceKey(ks: seq<string>, k: string): seq<string> {
    if ks == [] then [k]
    else if Less(k, ks[0]) then [k] + ks
    else [ks[0]] + PlaceKey(ks[1..], k)
  }

  function SortKeys(ks: seq<string>): seq<string> {
    if ks == [] then [] else PlaceKey(SortKeys(ks[1..]), ks[0])
  }

  lemma KeysOfCons(m: Member, ms: seq<Member>)
    ensures KeysOf([m] + ms) == [m.key] + KeysOf(ms)
  {
  }

  lemma {:induction false} PlaceKeyFollows(ms: seq<Member>, m: Member)
    ensures KeysOf(PlaceMember(ms, m)) == PlaceKey(KeysOf(ms), m.key)
  {
    hide Less;
    if ms == [] {
      assert KeysOf(ms) == [];
    } else if Less(m.key, ms[0].key) {
      KeysOfCons(m, ms);
    } else {
      assert KeysOf(ms)[1..] == KeysOf(ms[1..]);
      PlaceKeyFollows(ms[1..], m);
      KeysOfCons(ms[0], PlaceMember(ms[1..], m));
    }
  }

  /** Sorting the keys gives the keys of the sorted members. */
  lemma {:induction false} SortKeysFollows(ms: seq<Member>)
    ensures KeysOf(SortMembers(ms)) == SortKeys(KeysOf(ms))
  {
    if ms != [] {
      assert KeysOf(ms)[1..] == KeysOf(ms[1..]);
      SortKeysFollows(ms[1..]);
      PlaceKeyFollows(SortMembers(ms[1..]), ms[0]);
    }
  }

  /** The i-th sorted key, looked up in the object, is the i-th sorted member. */
  lemma SortedKeyAt(ms: seq<Member>, i: nat) returns (j: nat)
    requires i < |ms|
    ensures |SortKeys(KeysOf(ms))| == |ms|
    ensures j < |ms| && ms[j].key == SortKeys(KeysOf(ms))[i]
    ensures SortMembers(NormalMembers(ms))[i] == Member(ms[j].key, Normal(ms[j].val))
  {
    var ns := NormalMembers(ms);
    assert KeysOf(ns) == KeysOf(ms);
    SortKeysFollows(ns);
    var x := SortMembers(ns)[i];
    assert x in SortMembers(ns);
    SortHas(ns, x);
    j :| 0 <= j < |ns| && ns[j] == x;
    assert KeysOf(SortMembers(ns))[i] == x.key;
  }

  method Find(ms: seq<Member>, key: string) returns (j: nat)
    requires HasKey(ms, key)
    ensures j < |ms| && ms[j].key == key
  {
    j := 0;
    while ms[j].key != key
      invariant j < |ms|
      invariant forall i :: 0 <= i < j ==> ms[i].key != key
      decreases |ms| - j
    {
      j := j + 1;
    }
  }

  // ------------------------------------------------------ one more element

  lemma {:induction false} ItemsSnoc(xs: seq<Json>, x: Json, first: bool)
    ensures ItemsTo(xs + [x], first, "") == ItemsTo(xs, first, "") + (Comma(first && xs == []) + EmitTo(x, ""))
  {
    hide EmitTo;
    if xs == [] {
      assert xs + [x] == [x];
    } else {
      ItemsSnoc(xs[1..], x, false);
      assert (xs + [x])[1..] == xs[1..] + [x];
      EmitAppends(xs[0], ItemsTo(xs[1..] + [x], false, ""));
      EmitAppends(xs[0], ItemsTo(xs[1..], false, ""));
    }
  }

  function MemberText(m: Member): string { QuoteTo(m.key, "") + (":" + EmitTo(m.val, "")) }

  lemma MembersHeadText(m: Member, ms: seq<Member>, first: bool)
    ensures MembersTo([m] + ms, first, "") == Comma(first) + (MemberText(m) + MembersTo(ms, false, ""))
  {
    hide EmitTo, QuoteTo;
    var rest := MembersTo(ms, false, "");
    assert ([m] + ms)[1..] == ms;
    EmitAppends(m.val, rest);
    QuoteAppends(m.key, ":" + EmitTo(m.val, rest));
  }

  lemma {:induction false} MembersSnoc(ms: seq<Member>, m: Member, first: bool)
    ensures MembersTo(ms + [m], first, "") == MembersTo(ms, first, "") + (Comma(first && ms == []) + MemberText(m))
  {
    hide EmitTo, QuoteTo, MemberText;
    if ms == [] {
      MembersHeadText(m, [], first);
      assert ms + [m] == [m] + [];
    } else {
      MembersSnoc(ms[1..], m, false);
      assert ms + [m] == [ms[0]] + (ms[1..] + [m]);
      assert ms == [ms[0]] + ms[1..];
      MembersHeadText(ms[0], ms[1..] + [m], first);
      MembersHeadText(ms[0], ms[1..], first);
    }
  }

  lemma SnocAt<T>(s: seq<T>, i: nat)
    requires i < |s|
    ensures s[..i + 1] == s[..i] + [s[i]]
  {
  }

  lemma ItemsStep(xs: seq<Json>, i: nat, out: string)
    requires i < |xs|
    ensures var ns := NormalItems(xs);
            out + ItemsTo(ns[..i + 1], true, "") == out + ItemsTo(ns[..i], true, "") + Comma(i == 0) + Canonical(xs[i])
  {
    hide EmitTo, ItemsTo;
    var ns := NormalItems(xs);
    SnocAt(ns, i);
    ItemsSnoc(ns[..i], ns[i], true);
  }

  lemma MembersStep(sorted: seq<Member>, i: nat, out: string)
    requires i < |sorted|
    ensures out + MembersTo(sorted[..i + 1], true, "") ==
            out + MembersTo(sorted[..i], true, "") + Comma(i == 0) + QuoteTo(sorted[i].key, "") + ":" + EmitTo(sorted[i].val, "")
  {
    hide EmitTo, MembersTo, QuoteTo;
    SnocAt(sorted, i);
    MembersSnoc(sorted[..i], sorted[i], true);
  }

  lemma Empty()
    ensures ItemsTo([], true, "") == "" && MembersTo([], true, "") == ""
  {
  }

  lemma CanonicalLeaf(v: Json)
    ensures v.Null? ==> Canonical(v) == "null"
    ensures v.Bool? ==> Canonical(v) == if v.b then "true" else "false"
    ensures v.Num? ==> Canonical(v) == Lexeme(v.n)
    ensures v.Str? ==> Canonical(v) == QuoteTo(v.s, "")
  {
    assert "null" + "" == "null" && "true" + "" == "true" && "false" + "" == "false";
    assert v.Num? ==> Lexeme(v.n) + "" == Lexeme(v.n);
  }

  lemma CanonicalBrackets(v: Json)
    ensures v.Arr? ==> Canonical(v) == "[" + ItemsTo(NormalItems(v.items), true, "") + "]"
    ensures v.Obj? ==> Canonical(v) == "{" + MembersTo(SortMembers(NormalMembers(v.members)), true, "") + "}"
  {
    assert "]" + "" == "]" && "}" + "" == "}";
    if v.Arr? {
      ItemsAppend(NormalItems(v.items), true, "]");
    }
    if v.Obj? {
      MembersAppend(SortMembers(NormalMembers(v.members)), true, "}");
    }
  }

  // ------------------------------------------------------------- the writer

  method WriteCanonical(v: Json, out: string) returns (r: string)
    requires WellFormed(v)
    ensures r == out + Canonical(v)
    decreases v, 1
  {
    CanonicalLeaf(v);
    hide Canonical;
    match v
    case Null => r := out + "null";
    case Bool(b) => r := out + (if b then "true" else "false");
    case Num(n) => r := out + Lexeme(n);
    case Str(s) => r := out + QuoteTo(s, "");
    case Arr(xs) => r := WriteArray(xs, out);
    case Obj(ms) => r := WriteObject(ms, out);
  }

  method WriteArray(xs: seq<Json>, out: string) returns (r: string)
    requires forall i :: 0 <= i < |xs| ==> WellFormed(xs[i])
    ensures r == out + Canonical(Arr(xs))
    decreases xs, 0
  {
    hide ItemsTo, Canonical, WellFormed;
    r := out + "[";
    ghost var ns := NormalItems(xs);
    Empty();
    for i := 0 to |xs|
      invariant r == out + "[" + ItemsTo(ns[..i], true, "")
    {
      ItemsStep(xs, i, out + "[");
      if i > 0 {
        r := r + ",";
      }
      r := WriteCanonical(xs[i], r);
    }
    assert ns[..|xs|] == ns;
    r := r + "]";
    CanonicalBrackets(Arr(xs));
  }

  method WriteObject(ms: seq<Member>, out: string) returns (r: string)
    requires DistinctKeys(ms) && forall i :: 0 <= i < |ms| ==> WellFormed(ms[i].val)
    ensures r == out + Canonical(Obj(ms))
    decreases ms, 0
  {
    hide MembersTo, WellFormed, EmitTo, QuoteTo, SortKeys, SortMembers;
    r := out + "{";
    var keys := SortKeys(KeysOf(ms));
    ghost var sorted := SortMembers(NormalMembers(ms));
    Empty();
    for i := 0 to |ms|
      invariant r == out + "{" + MembersTo(sorted[..i], true, "")
    {
      ghost var at := SortedKeyAt(ms, i);
      MembersStep(sorted, i, out + "{");
      if i > 0 {
        r := r + ",";
      }
      r := r + QuoteTo(keys[i], "");
      r := r + ":";
      var j := Find(ms, keys[i]);
      r := WriteCanonical(ms[j].val, r);
    }
    assert sorted[..|ms|] == sorted;
    r := r + "}";
    CanonicalBrackets(Obj(ms));
  }
}
