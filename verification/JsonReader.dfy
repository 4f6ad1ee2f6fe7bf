/** Reading JSON text by the grammar of RFC 8259, for text without white space,
    and the round trip: what is printed reads back as what was printed. */
module JsonReader {
  import opened Decimal
  import opened JsonText
  import opened CanonicalJson
  import opened TextOrder

  datatype Read<T> = Fail | Got(value: T, rest: string)

  // ---------------------------------------------------------- strings, section 7

  function HexValue(c: char): int {
    if '0' <= c <= '9' then c as int - '0' as int
    else if 'a' <= c <= 'f' then c as int - 'a' as int + 10
    else if 'A' <= c <= 'F' then c as int - 'A' as int + 10
    else -1
  }

  /** A character behind a backslash; a surrogate in `\u` form is not read. */
  function ReadEscape(t: string): (r: Read<char>)
    ensures r.Got? ==> |r.rest| < |t|
  {
    if t == [] then Fail
    else if t[0] == '"' || t[0] == '\\' || t[0] == '/' then Got(t[0], t[1..])
    else if t[0] == 'b' then Got('\U{8}', t[1..])
    else if t[0] == 'f' then Got('\U{C}', t[1..])
    else if t[0] == 'n' then Got('\U{A}', t[1..])
    else if t[0] == 'r' then Got('\U{D}', t[1..])
    else if t[0] == 't' then Got('\U{9}', t[1..])
    else if t[0] == 'u' && |t| >= 5 && forall i :: 1 <= i < 5 ==> HexValue(t[i]) >= 0 then
      var v := HexValue(t[1]) * 4096 + HexValue(t[2]) * 256 + HexValue(t[3]) * 16 + HexValue(t[4]);
      if 0 <= v < 0xD800 || 0xE000 <= v < 0x10000 then Got(v as char, t[5..]) else Fail
    else Fail
  }

  /** The characters up to the closing quote. */
  function ReadChars(t: string): (r: Read<string>)
    ensures r.Got? ==> |r.rest| < |t|
    decreases |t|
  {
    if t == [] || t[0] < ' ' then Fail
    else if t[0] == '"' then Got("", t[1..])
    else if t[0] == '\\' then
      match ReadEscape(t[1..])
      case Fail => Fail
      case Got(c, rest) => (match ReadChars(rest) case Fail => Fail case Got(s, k) => Got([c] + s, k))
    else match ReadChars(t[1..]) case Fail => Fail case Got(s, k) => Got([t[0]] + s, k)
  }

  function ReadString(t: string): (r: Read<string>)
    ensures r.Got? ==> |r.rest| < |t|
  {
    if t != [] && t[0] == '"' then ReadChars(t[1..]) else Fail
  }

  // ---------------------------------------------------------- numbers, section 6

  /** The length of the number characters in front. */
  function Span(t: string): (n: nat)
    ensures n <= |t| && (forall i :: 0 <= i < n ==> IsNumberChar(t[i])) && (n < |t| ==> !IsNumberChar(t[n]))
  {
    if t == [] || !IsNumberChar(t[0]) then 0 else 1 + Span(t[1..])
  }

  predicate AllDigits(t: string) { forall i :: 0 <= i < |t| ==> IsDigit(t[i]) }

  /** An integer part: no leading zero unless it is zero. */
  predicate IntPart(t: string) { t != [] && AllDigits(t) && (t[0] == '0' ==> |t| == 1) }

  function NumberOf(t: string): Read<Number> {
    if IntPart(t) then Got(Int(ValueOf(t)), "")
    else if t != [] && t[0] == '-' && IntPart(t[1..]) then Got(Int(-ValueOf(t[1..])), "")
    else if exists i :: 0 <= i < |t| && (t[i] == '.' || t[i] == 'e') then Got(Dec(t), "")
    else Fail
  }

  function ReadNumber(t: string): (r: Read<Json>)
    ensures r.Got? ==> |r.rest| < |t|
  {
    var n := Span(t);
    if n == 0 then Fail
    else match NumberOf(t[..n]) case Fail => Fail case Got(v, _) => Got(Num(v), t[n..])
  }

  // ------------------------------------------------ values, sections 3, 4 and 5

  function ReadWord(t: string, word: string, v: Json): (r: Read<Json>)
    requires word != []
    ensures r.Got? ==> |r.rest| < |t|
  {
    if |t| >= |word| && t[..|word|] == word then Got(v, t[|word|..]) else Fail
  }

  function ReadValue(t: string): (r: Read<Json>)
    ensures r.Got? ==> |r.rest| < |t|
    decreases |t|, 2
  {
    if t == [] then Fail
    else if t[0] == 'n' then ReadWord(t, "null", Null)
    else if t[0] == 't' then ReadWord(t, "true", Bool(true))
    else if t[0] == 'f' then ReadWord(t, "false", Bool(false))
    else if t[0] == '"' then (match ReadString(t) case Fail => Fail case Got(s, k) => Got(Str(s), k))
    else if t[0] == '[' then
      if |t| >= 2 && t[1] == ']' then Got(Arr([]), t[2..])
      else match ReadItems(t[1..]) case Fail => Fail case Got(xs, k) => Got(Arr(xs), k)
    else if t[0] == '{' then
      if |t| >= 2 && t[1] == '}' then Got(Obj([]), t[2..])
      else match ReadMembers(t[1..]) case Fail => Fail case Got(ms, k) => Got(Obj(ms), k)
    else ReadNumber(t)
  }

  function ReadItems(t: string): (r: Read<seq<Json>>)
    ensures r.Got? ==> |r.rest| < |t|
    decreases |t|, 3
  {
    match ReadValue(t)
    case Fail => Fail
    case Got(v, rest) =>
      if rest == [] then Fail
      else if rest[0] == ']' then Got([v], rest[1..])
      else if rest[0] == ',' then (match ReadItems(rest[1..]) case Fail => Fail case Got(vs, k) => Got([v] + vs, k))
      else Fail
  }

  function ReadMembers(t: string): (r: Read<seq<Member>>)
    ensures r.Got? ==> |r.rest| < |t|
    decreases |t|, 3
  {
    match ReadString(t)
    case Fail => Fail
    case Got(key, at) =>
      if at == [] || at[0] != ':' then Fail
      else
        match ReadValue(at[1..])
        case Fail => Fail
        case Got(v, rest) =>
          if rest == [] then Fail
          else if rest[0] == '}' then Got([Member(key, v)], rest[1..])
          else if rest[0] == ',' then
            (match ReadMembers(rest[1..]) case Fail => Fail case Got(ms, k) => Got([Member(key, v)] + ms, k))
          else Fail
  }

  // -------------------------------------------------------------- the round trip

  lemma ReadEscaped(c: char, rest: string)
    requires |Escape(c)| >= 2
    ensures Escape(c)[0] == '\\' && ReadEscape((Escape(c) + rest)[1..]) == Got(c, rest)
  {
    var e := Escape(c);
    var t := (e + rest)[1..];
    assert forall i :: 1 <= i < |e| ==> t[i - 1] == e[i];
    assert t[|e| - 1..] == rest;
  }

  lemma {:induction false} ReadEscapes(s: string, k: string)
    ensures ReadChars(EscapeTo(s, "\"" + k)) == Got(s, k)
  {
    hide Escape, ReadEscape;
    if s == [] {
      assert ("\"" + k)[1..] == k;
    } else {
      ReadEscapes(s[1..], k);
      var rest := EscapeTo(s[1..], "\"" + k);
      var t := Escape(s[0]) + rest;
      assert s == [s[0]] + s[1..];
      EscapeIs(s[0]);
      if |Escape(s[0])| == 1 {
        assert t[0] == s[0] && t[1..] == rest;
      } else {
        ReadEscaped(s[0], rest);
        assert t[0] == '\\';
      }
    }
  }

  /** Which characters are written as they are, which in two characters, and which
      in six with small hexadecimal letters. */
  lemma EscapeIs(c: char)
    ensures Escape(c) == [c] <==> c >= ' ' && c != '"' && c != '\\'
    ensures |Escape(c)| == 1 <==> Escape(c) == [c]
    ensures |Escape(c)| == 2 <==> c == '"' || c == '\\' || c as int == 8 || c as int == 12 || c == '\n' || c == '\r' || c == '\t'
    ensures |Escape(c)| == 1 || |Escape(c)| == 2 || |Escape(c)| == 6
    ensures |Escape(c)| == 6 ==> Escape(c)[..4] == "\\u00" && forall i :: 4 <= i < 6 ==> IsDigit(Escape(c)[i]) || 'a' <= Escape(c)[i] <= 'f'
  {
  }

  lemma ReadQuoted(s: string, k: string)
    ensures ReadString(QuoteTo(s, k)) == Got(s, k)
  {
    assert QuoteTo(s, k)[1..] == EscapeTo(s, "\"" + k);
    ReadEscapes(s, k);
  }

  lemma {:induction false} SpanOf(a: string, k: string)
    requires (forall i :: 0 <= i < |a| ==> IsNumberChar(a[i])) && Stop(k)
    ensures Span(a + k) == |a|
  {
    if a == [] {
      assert a + k == k;
    } else {
      SpanOf(a[1..], k);
      assert (a + k)[1..] == a[1..] + k;
    }
  }

  lemma {:induction false} NoLeadingZero(n: nat)
    ensures IntPart(Digits(n)) && (n > 0 ==> Digits(n)[0] != '0')
  {
    if n >= 10 {
      NoLeadingZero(n / 10);
    }
  }

  lemma ReadLexeme(n: Number)
    requires NumberOk(n)
    ensures NumberOf(Lexeme(n)) == Got(n, "")
  {
    LexemeShape(n);
    match n
    case Int(v) =>
      var m := if v < 0 then -v else v;
      NoLeadingZero(m);
      ValueOfDigits(m);
      assert v < 0 ==> Lexeme(n)[1..] == Digits(m);
    case Dec(t) =>
      var i :| 0 <= i < |t| && (t[i] == '.' || t[i] == 'e');
      assert !AllDigits(t) && (i > 0 ==> t[1..][i - 1] == t[i]);
  }

  lemma ReadPrintedNumber(n: Number, k: string)
    requires NumberOk(n) && Stop(k)
    ensures ReadNumber(Lexeme(n) + k) == Got(Num(n), k)
  {
    hide NumberOf;
    LexemeShape(n);
    SpanOf(Lexeme(n), k);
    ReadLexeme(n);
    assert (Lexeme(n) + k)[..|Lexeme(n)|] == Lexeme(n) && (Lexeme(n) + k)[|Lexeme(n)|..] == k;
  }

  lemma ReadPrintedWord(word: string, v: Json, k: string)
    requires word != []
    ensures ReadWord(word + k, word, v) == Got(v, k)
  {
  }

  /** What is printed reads back as the value printed, whatever follows it. */
  lemma {:induction false} ReadEmit(v: Json, k: string)
    requires NumbersOk(v) && Stop(k)
    ensures ReadValue(EmitTo(v, k)) == Got(v, k)
    decreases v, 1
  {
    hide ReadNumber, ReadString, ReadItems, ReadMembers, ReadWord, QuoteTo;
    EmitHead(v, k);
    match v
    case Null => ReadPrintedWord("null", v, k);
    case Bool(b) => ReadPrintedWord(if b then "true" else "false", v, k);
    case Num(n) => ReadPrintedNumber(n, k);
    case Str(s) => ReadQuoted(s, k);
    case Arr(xs) => ReadArray(xs, k);
    case Obj(ms) => ReadObject(ms, k);
  }

  lemma {:induction false} ReadArray(xs: seq<Json>, k: string)
    requires (forall i :: 0 <= i < |xs| ==> NumbersOk(xs[i])) && Stop(k)
    ensures ReadValue(EmitTo(Arr(xs), k)) == Got(Arr(xs), k)
    decreases xs, 1
  {
    hide ReadItems;
    var body := ItemsTo(xs, true, "]" + k);
    var t := "[" + body;
    assert t[1..] == body;
    if xs == [] {
      assert t[1] == ']' && t[2..] == k;
    } else {
      EmitHead(xs[0], ItemsTo(xs[1..], false, "]" + k));
      assert body == EmitTo(xs[0], ItemsTo(xs[1..], false, "]" + k));
      ReadItemsBack(xs, k);
    }
  }

  lemma {:induction false} ReadItemsBack(xs: seq<Json>, k: string)
    requires xs != [] && forall i :: 0 <= i < |xs| ==> NumbersOk(xs[i])
    ensures ReadItems(EmitTo(xs[0], ItemsTo(xs[1..], false, "]" + k))) == Got(xs, k)
    decreases xs, 0
  {
    hide ReadValue, EmitTo;
    var rest := ItemsTo(xs[1..], false, "]" + k);
    ItemsStop(xs[1..], "]" + k);
    ReadEmit(xs[0], rest);
    if |xs| == 1 {
      assert rest == "]" + k && rest[1..] == k;
      assert xs == [xs[0]];
    } else {
      var tail := xs[1..];
      assert rest[1..] == EmitTo(tail[0], ItemsTo(tail[1..], false, "]" + k));
      ReadItemsBack(tail, k);
      assert xs == [xs[0]] + tail;
    }
  }

  lemma {:induction false} ReadObject(ms: seq<Member>, k: string)
    requires (forall i :: 0 <= i < |ms| ==> NumbersOk(ms[i].val)) && Stop(k)
    ensures ReadValue(EmitTo(Obj(ms), k)) == Got(Obj(ms), k)
    decreases ms, 1
  {
    hide ReadMembers;
    var body := MembersTo(ms, true, "}" + k);
    var t := "{" + body;
    assert t[1..] == body;
    if ms == [] {
      assert t[1] == '}' && t[2..] == k;
    } else {
      assert body == QuoteTo(ms[0].key, ":" + EmitTo(ms[0].val, MembersTo(ms[1..], false, "}" + k)));
      assert body[0] == '"';
      ReadMembersBack(ms, k);
    }
  }

  lemma {:induction false} ReadMembersBack(ms: seq<Member>, k: string)
    requires ms != [] && forall i :: 0 <= i < |ms| ==> NumbersOk(ms[i].val)
    ensures ReadMembers(QuoteTo(ms[0].key, ":" + EmitTo(ms[0].val, MembersTo(ms[1..], false, "}" + k)))) == Got(ms, k)
    decreases ms, 0
  {
    hide ReadValue, EmitTo, QuoteTo, ReadString;
    var rest := MembersTo(ms[1..], false, "}" + k);
    MembersStop(ms[1..], "}" + k);
    ReadEmit(ms[0].val, rest);
    var at := ":" + EmitTo(ms[0].val, rest);
    assert at[1..] == EmitTo(ms[0].val, rest);
    ReadQuoted(ms[0].key, at);
    if |ms| == 1 {
      assert rest == "}" + k && rest[1..] == k;
      assert ms == [ms[0]];
    } else {
      var tail := ms[1..];
      assert rest[1..] == QuoteTo(tail[0].key, ":" + EmitTo(tail[0].val, MembersTo(tail[1..], false, "}" + k)));
      ReadMembersBack(tail, k);
      assert ms == [ms[0]] + tail;
    }
  }

  // ------------------------------------------------------------- canonical text

  /** In every object, at every depth, the keys are in code-point order. */
  ghost predicate KeysInOrder(v: Json) {
    match v
    case Arr(xs) => forall i :: 0 <= i < |xs| ==> KeysInOrder(xs[i])
    case Obj(ms) =>
      && (forall i, j :: 0 <= i < j < |ms| ==> Precedes(ms[i].key, ms[j].key))
      && (forall i :: 0 <= i < |ms| ==> KeysInOrder(ms[i].val))
    case _ => true
  }

  lemma {:induction false} NormalInOrder(v: Json)
    requires WellFormed(v)
    ensures KeysInOrder(Normal(v))
  {
    hide Precedes;
    match v
    case Arr(xs) =>
      forall i | 0 <= i < |xs| ensures KeysInOrder(NormalItems(xs)[i]) {
        NormalInOrder(xs[i]);
      }
    case Obj(ms) =>
      var ns := NormalMembers(ms);
      var sorted := SortMembers(ns);
      SortAscendingNormal(ms);
      forall i, j | 0 <= i < j < |sorted| ensures Precedes(sorted[i].key, sorted[j].key) {
        LessIff(sorted[i].key, sorted[j].key);
      }
      forall i | 0 <= i < |ns| ensures KeysInOrder(ns[i].val) {
        NormalInOrder(ms[i].val);
      }
      forall i | 0 <= i < |sorted| ensures KeysInOrder(sorted[i].val) {
        assert sorted[i] in sorted;
        SortHas(ns, sorted[i]);
      }
    case _ =>
  }

  lemma SortedFromMember(ms: seq<Member>, i: nat) returns (k: nat)
    requires i < |ms|
    ensures k < |ms| && SortMembers(NormalMembers(ms))[i] == Member(ms[k].key, Normal(ms[k].val))
  {
    var ns := NormalMembers(ms);
    var x := SortMembers(ns)[i];
    assert x in SortMembers(ns);
    SortHas(ns, x);
    k :| 0 <= k < |ns| && ns[k] == x;
  }

  lemma MemberInSorted(ms: seq<Member>, j: nat)
    requires j < |ms|
    ensures HasKey(SortMembers(NormalMembers(ms)), ms[j].key)
  {
    var ns := NormalMembers(ms);
    assert ns[j] in ns;
    SortHas(ns, ns[j]);
    var i :| 0 <= i < |SortMembers(ns)| && SortMembers(ns)[i] == ns[j];
  }

  lemma {:induction false} NormalIsSame(v: Json)
    requires WellFormed(v)
    ensures SameUpToKeyOrder(Normal(v), v)
  {
    match v
    case Arr(xs) =>
      forall i | 0 <= i < |xs| ensures SameUpToKeyOrder(NormalItems(xs)[i], xs[i]) {
        NormalIsSame(xs[i]);
      }
    case Obj(ms) =>
      var sorted := SortMembers(NormalMembers(ms));
      forall i | 0 <= i < |sorted| ensures HasKey(ms, sorted[i].key) {
        var k := SortedFromMember(ms, i);
      }
      forall j | 0 <= j < |ms| ensures HasKey(sorted, ms[j].key) {
        MemberInSorted(ms, j);
      }
      forall i, j | 0 <= i < |sorted| && 0 <= j < |ms| && sorted[i].key == ms[j].key
        ensures SameUpToKeyOrder(sorted[i].val, ms[j].val)
      {
        var k := SortedFromMember(ms, i);
        assert k == j;
        NormalIsSame(ms[j].val);
      }
    case _ =>
  }

  /** The canonical text of a value, read by the grammar, is a value with the keys
      of every object in order, equal to it up to that order. */
  lemma CanonicalReads(v: Json) returns (n: Json)
    requires WellFormed(v)
    ensures ReadValue(Canonical(v)) == Got(n, "")
    ensures KeysInOrder(n) && SameUpToKeyOrder(n, v)
  {
    hide ReadValue, EmitTo, KeysInOrder;
    n := Normal(v);
    NormalNumbersOk(v);
    ReadEmit(n, "");
    NormalInOrder(v);
    NormalIsSame(v);
  }
}
