/** JSON values and their printed text (serde_json's `to_string` for strings,
    `Display` for numbers). Printing is written in continuation form: the text
    of a value followed by the text `k`. */
module JsonText {
  import opened Decimal

  /** An integer, or a number with a fraction or exponent, given by the shortest
      decimal text it is printed as. */
  datatype Number = Int(v: int) | Dec(text: string)

  /** An object is its members in insertion order. */
  datatype Json =
    | Null
    | Bool(b: bool)
    | Num(n: Number)
    | Str(s: string)
    | Arr(items: seq<Json>)
    | Obj(members: seq<Member>)

  datatype Member = Member(key: string, val: Json)

  // ----------------------------------------------------------------- numbers

  predicate IsNumberChar(c: char) { IsDigit(c) || c == '-' || c == '+' || c == '.' || c == 'e' || c == 'E' }

  /** Text of a non-integer number: the RFC 8259 alphabet, section 6, with a
      leading sign or digit and a fraction or exponent. */
  ghost predicate DecimalText(t: string) {
    && t != [] && (t[0] == '-' || IsDigit(t[0]))
    && (forall i :: 0 <= i < |t| ==> IsNumberChar(t[i]))
    && exists i :: 0 <= i < |t| && (t[i] == '.' || t[i] == 'e')
  }

  ghost predicate NumberOk(n: Number) { n.Dec? ==> DecimalText(n.text) }

  function Lexeme(n: Number): string {
    match n
    case Int(v) => if v < 0 then "-" + Digits(-v) else Digits(v)
    case Dec(t) => t
  }

  lemma LexemeShape(n: Number)
    requires NumberOk(n)
    ensures var t := Lexeme(n);
            && t != [] && (t[0] == '-' || IsDigit(t[0]))
            && (forall i :: 0 <= i < |t| ==> IsNumberChar(t[i]))
            && (n.Int? <==> forall i :: 0 <= i < |t| ==> t[i] != '.' && t[i] != 'e')
  {
  }

  lemma LexemeInjective(m: Number, n: Number)
    requires NumberOk(m) && NumberOk(n) && Lexeme(m) == Lexeme(n)
    ensures m == n
  {
    LexemeShape(m);
    LexemeShape(n);
    if m.Int? {
      var a, b := if m.v < 0 then -m.v else m.v, if n.v < 0 then -n.v else n.v;
      assert m.v < 0 ==> Lexeme(m)[1..] == Digits(a);
      assert n.v < 0 ==> Lexeme(n)[1..] == Digits(b);
      assert (Lexeme(m)[0] == '-') == (m.v < 0) && (Lexeme(n)[0] == '-') == (n.v < 0);
      assert Digits(a) == Digits(b);
      ValueOfDigits(a);
      ValueOfDigits(b);
    }
  }

  // ----------------------------------------------------------------- strings

  function HexChar(d: nat): char
    requires d < 16
  {
    if d < 10 then ('0' as int + d) as char else ('a' as int + d - 10) as char
  }

  /** The escape of one character, RFC 8259 section 7. */
  function Escape(c: char): string {
    if c == '"' then "\\\""
    else if c == '\\' then "\\\\"
    else if c == '\U{8}' then "\\b"
    else if c == '\U{C}' then "\\f"
    else if c == '\n' then "\\n"
    else if c == '\r' then "\\r"
    else if c == '\t' then "\\t"
    else if c < ' ' then ['\\', 'u', '0', '0', HexChar(c as nat / 16), HexChar(c as nat % 16)]
    else [c]
  }

  /** Escapes form a prefix code. */
  lemma EscapeUnique(c: char, d: char, s: string, t: string)
    requires Escape(c) + s == Escape(d) + t
    ensures c == d && s == t
  {
    var x, y := Escape(c) + s, Escape(d) + t;
    assert x[0] == Escape(c)[0] && y[0] == Escape(d)[0];
    if |Escape(c)| >= 2 {
      assert x[1] == Escape(c)[1] && y[1] == Escape(d)[1];
      if |Escape(c)| == 6 {
        assert x[4] == Escape(c)[4] && x[5] == Escape(c)[5];
        assert y[4] == Escape(d)[4] && y[5] == Escape(d)[5];
        HexInjective(c as nat / 16, d as nat / 16);
        HexInjective(c as nat % 16, d as nat % 16);
      }
    }
    assert c == d;
    assert s == x[|Escape(c)|..] && t == y[|Escape(d)|..];
  }

  lemma HexInjective(a: nat, b: nat)
    requires a < 16 && b < 16
    ensures HexChar(a) == HexChar(b) ==> a == b
  {
  }

  function EscapeTo(s: string, k: string): string {
    if s == [] then k else Escape(s[0]) + EscapeTo(s[1..], k)
  }

  function QuoteTo(s: string, k: string): string { "\"" + EscapeTo(s, "\"" + k) }

  lemma EscapeHead(s: string, k: string)
    ensures s != [] ==> EscapeTo(s, k) != [] && EscapeTo(s, k)[0] != '"'
  {
  }

  lemma {:induction false} EscapeToUnique(a: string, b: string, s: string, t: string)
    requires EscapeTo(a, "\"" + s) == EscapeTo(b, "\"" + t)
    ensures a == b && s == t
    decreases |a|
  {
    EscapeHead(a, "\"" + s);
    EscapeHead(b, "\"" + t);
    if a == [] {
      assert ("\"" + s)[1..] == s && ("\"" + t)[1..] == t;
    } else {
      EscapeUnique(a[0], b[0], EscapeTo(a[1..], "\"" + s), EscapeTo(b[1..], "\"" + t));
      EscapeToUnique(a[1..], b[1..], s, t);
      assert a == [a[0]] + a[1..] && b == [b[0]] + b[1..];
    }
  }

  /** A quoted string ends where it ends, whatever follows. */
  lemma QuoteUnique(a: string, b: string, s: string, t: string)
    requires QuoteTo(a, s) == QuoteTo(b, t)
    ensures a == b && s == t
  {
    assert QuoteTo(a, s)[1..] == EscapeTo(a, "\"" + s) && QuoteTo(b, t)[1..] == EscapeTo(b, "\"" + t);
    EscapeToUnique(a, b, s, t);
  }

  // ------------------------------------------------------------------ values

  /** The text of `v`, members in the order given, followed by `k`. */
  function EmitTo(v: Json, k: string): string
    decreases v, 1
  {
    match v
    case Null => "null" + k
    case Bool(b) => (if b then "true" else "false") + k
    case Num(n) => Lexeme(n) + k
    case Str(s) => QuoteTo(s, k)
    case Arr(xs) => "[" + ItemsTo(xs, true, "]" + k)
    case Obj(ms) => "{" + MembersTo(ms, true, "}" + k)
  }

  function Comma(first: bool): string { if first then "" else "," }

  function ItemsTo(xs: seq<Json>, first: bool, k: string): string
    decreases xs, 0
  {
    if xs == [] then k else Comma(first) + EmitTo(xs[0], ItemsTo(xs[1..], false, k))
  }

  function MembersTo(ms: seq<Member>, first: bool, k: string): string
    decreases ms, 0
  {
    if ms == [] then k else Comma(first) + QuoteTo(ms[0].key, ":" + EmitTo(ms[0].val, MembersTo(ms[1..], false, k)))
  }

  ghost predicate NumbersOk(v: Json) {
    match v
    case Num(n) => NumberOk(n)
    case Arr(xs) => forall i :: 0 <= i < |xs| ==> NumbersOk(xs[i])
    case Obj(ms) => forall i :: 0 <= i < |ms| ==> NumbersOk(ms[i].val)
    case _ => true
  }

  // --------------------------------------------------------- unique reading

  /** What may follow a value inside a JSON text. */
  predicate Stop(s: string) { s == [] || s[0] == ',' || s[0] == ']' || s[0] == '}' }

  function KindOf(v: Json): nat {
    match v
    case Null => 0
    case Bool(b) => if b then 1 else 2
    case Num(_) => 3
    case Str(_) => 4
    case Arr(_) => 5
    case Obj(_) => 6
  }

  function KindOfChar(c: char): nat {
    if c == 'n' then 0 else if c == 't' then 1 else if c == 'f' then 2
    else if c == '"' then 4 else if c == '[' then 5 else if c == '{' then 6
    else if c == '-' || IsDigit(c) then 3 else 7
  }

  lemma EmitHead(v: Json, k: string)
    requires NumbersOk(v)
    ensures EmitTo(v, k) != [] && KindOfChar(EmitTo(v, k)[0]) == KindOf(v)
  {
    if v.Num? {
      LexemeShape(v.n);
      assert (Lexeme(v.n) + k)[0] == Lexeme(v.n)[0];
    }
  }

  lemma {:induction false} SpanUnique(a: string, b: string, s: string, t: string)
    requires a + s == b + t && Stop(s) && Stop(t)
    requires forall i :: 0 <= i < |a| ==> IsNumberChar(a[i])
    requires forall i :: 0 <= i < |b| ==> IsNumberChar(b[i])
    ensures a == b && s == t
    decreases |a|
  {
    var x, y := a + s, b + t;
    assert |a| > 0 ==> x[0] == a[0];
    assert |b| > 0 ==> y[0] == b[0];
    assert |a| == 0 ==> x == s;
    assert |b| == 0 ==> y == t;
    if |a| > 0 && |b| > 0 {
      assert x[1..] == a[1..] + s && y[1..] == b[1..] + t;
      SpanUnique(a[1..], b[1..], s, t);
      assert a == [a[0]] + a[1..] && b == [b[0]] + b[1..];
    }
  }

  lemma SameTail(c: string, x: string, y: string)
    requires c + x == c + y
    ensures x == y
  {
    assert (c + x)[|c|..] == x && (c + y)[|c|..] == y;
  }

  lemma ItemsStop(xs: seq<Json>, k: string)
    requires Stop(k)
    ensures Stop(ItemsTo(xs, false, k))
  {
    if xs != [] {
      assert (Comma(false) + EmitTo(xs[0], ItemsTo(xs[1..], false, k)))[0] == ',';
    }
  }

  lemma MembersStop(ms: seq<Member>, k: string)
    requires Stop(k)
    ensures Stop(MembersTo(ms, false, k))
  {
    if ms != [] {
      assert (Comma(false) + QuoteTo(ms[0].key, ":" + EmitTo(ms[0].val, MembersTo(ms[1..], false, k))))[0] == ',';
    }
  }

  /** The text of a value determines the value and what follows it. */
  lemma {:induction false} EmitUnique(a: Json, b: Json, s: string, t: string)
    requires NumbersOk(a) && NumbersOk(b) && Stop(s) && Stop(t)
    requires EmitTo(a, s) == EmitTo(b, t)
    ensures a == b && s == t
    decreases a, 1
  {
    EmitHead(a, s);
    EmitHead(b, t);
    assert KindOf(a) == KindOf(b);
    match a
    case Null => SameTail("null", s, t);
    case Bool(v) => SameTail(if v then "true" else "false", s, t);
    case Num(n) =>
      LexemeShape(n);
      LexemeShape(b.n);
      SpanUnique(Lexeme(n), Lexeme(b.n), s, t);
      LexemeInjective(n, b.n);
    case Str(x) => QuoteUnique(x, b.s, s, t);
    case Arr(xs) =>
      SameTail("[", ItemsTo(xs, true, "]" + s), ItemsTo(b.items, true, "]" + t));
      ItemsUnique(xs, b.items, true, s, t);
    case Obj(ms) =>
      SameTail("{", MembersTo(ms, true, "}" + s), MembersTo(b.members, true, "}" + t));
      MembersUnique(ms, b.members, true, s, t);
  }

  lemma ItemsHead(xs: seq<Json>, first: bool, k: string)
    requires xs != [] && NumbersOk(xs[0])
    ensures var r := ItemsTo(xs, first, k); r != [] && r[0] != ']'
  {
    EmitHead(xs[0], ItemsTo(xs[1..], false, k));
  }

  lemma {:induction false} ItemsUnique(xs: seq<Json>, ys: seq<Json>, first: bool, s: string, t: string)
    requires (forall i :: 0 <= i < |xs| ==> NumbersOk(xs[i])) && (forall i :: 0 <= i < |ys| ==> NumbersOk(ys[i]))
    requires ItemsTo(xs, first, "]" + s) == ItemsTo(ys, first, "]" + t)
    ensures xs == ys && s == t
    decreases xs, 0
  {
    if xs != [] {
      ItemsHead(xs, first, "]" + s);
    }
    if ys != [] {
      ItemsHead(ys, first, "]" + t);
    }
    if xs == [] {
      SameTail("]", s, t);
    } else {
      var rx, ry := ItemsTo(xs[1..], false, "]" + s), ItemsTo(ys[1..], false, "]" + t);
      SameTail(Comma(first), EmitTo(xs[0], rx), EmitTo(ys[0], ry));
      ItemsStop(xs[1..], "]" + s);
      ItemsStop(ys[1..], "]" + t);
      EmitUnique(xs[0], ys[0], rx, ry);
      ItemsUnique(xs[1..], ys[1..], false, s, t);
      assert xs == [xs[0]] + xs[1..] && ys == [ys[0]] + ys[1..];
    }
  }

  lemma MembersHead(ms: seq<Member>, first: bool, k: string)
    requires ms != []
    ensures var r := MembersTo(ms, first, k); r != [] && r[0] != '}'
  {
  }

  lemma {:induction false} MembersUnique(ms: seq<Member>, ns: seq<Member>, first: bool, s: string, t: string)
    requires (forall i :: 0 <= i < |ms| ==> NumbersOk(ms[i].val)) && (forall i :: 0 <= i < |ns| ==> NumbersOk(ns[i].val))
    requires MembersTo(ms, first, "}" + s) == MembersTo(ns, first, "}" + t)
    ensures ms == ns && s == t
    decreases ms, 0
  {
    if ms != [] {
      MembersHead(ms, first, "}" + s);
    }
    if ns != [] {
      MembersHead(ns, first, "}" + t);
    }
    if ms == [] {
      SameTail("}", s, t);
    } else {
      var rm, rn := MembersTo(ms[1..], false, "}" + s), MembersTo(ns[1..], false, "}" + t);
      var vm, vn := EmitTo(ms[0].val, rm), EmitTo(ns[0].val, rn);
      SameTail(Comma(first), QuoteTo(ms[0].key, ":" + vm), QuoteTo(ns[0].key, ":" + vn));
      QuoteUnique(ms[0].key, ns[0].key, ":" + vm, ":" + vn);
      SameTail(":", vm, vn);
      MembersStop(ms[1..], "}" + s);
      MembersStop(ns[1..], "}" + t);
      EmitUnique(ms[0].val, ns[0].val, rm, rn);
      MembersUnique(ms[1..], ns[1..], false, s, t);
      assert ms == [ms[0]] + ms[1..] && ns == [ns[0]] + ns[1..];
    }
  }

  // ------------------------------------------------- printing as appending

  lemma {:induction false} EscapeAppends(s: string, k: string)
    ensures EscapeTo(s, k) == EscapeTo(s, "") + k
  {
    if s != [] {
      EscapeAppends(s[1..], k);
    }
  }

  lemma QuoteAppends(s: string, k: string)
    ensures QuoteTo(s, k) == QuoteTo(s, "") + k
  {
    EscapeAppends(s, "\"" + k);
    EscapeAppends(s, "\"" + "");
  }

  lemma {:induction false} EmitAppends(v: Json, k: string)
    ensures EmitTo(v, k) == EmitTo(v, "") + k
    decreases v, 1
  {
    match v
    case Str(s) => QuoteAppends(s, k);
    case Arr(xs) =>
      ItemsAppend(xs, true, "]" + k);
      ItemsAppend(xs, true, "]" + "");
    case Obj(ms) =>
      MembersAppend(ms, true, "}" + k);
      MembersAppend(ms, true, "}" + "");
    case _ =>
  }

  lemma {:induction false} ItemsAppend(xs: seq<Json>, first: bool, k: string)
    ensures ItemsTo(xs, first, k) == ItemsTo(xs, first, "") + k
    decreases xs, 0
  {
    if xs != [] {
      ItemsAppend(xs[1..], false, k);
      EmitAppends(xs[0], ItemsTo(xs[1..], false, k));
      EmitAppends(xs[0], ItemsTo(xs[1..], false, ""));
    }
  }

  lemma {:induction false} MemberAppends(m: Member, r: string, k: string)
    ensures QuoteTo(m.key, ":" + EmitTo(m.val, r + k)) == QuoteTo(m.key, ":" + EmitTo(m.val, r)) + k
    decreases m, 0
  {
    hide EmitTo, QuoteTo;
    var e, q := EmitTo(m.val, ""), QuoteTo(m.key, "");
    EmitAppends(m.val, r + k);
    EmitAppends(m.val, r);
    QuoteAppends(m.key, ":" + EmitTo(m.val, r + k));
    QuoteAppends(m.key, ":" + EmitTo(m.val, r));
    assert q + (":" + (e + (r + k))) == (q + (":" + (e + r))) + k;
  }

  lemma {:induction false} MembersAppend(ms: seq<Member>, first: bool, k: string)
    ensures MembersTo(ms, first, k) == MembersTo(ms, first, "") + k
    decreases ms, 0
  {
    hide EmitTo, QuoteTo;
    if ms != [] {
      MembersAppend(ms[1..], false, k);
      MemberAppends(ms[0], MembersTo(ms[1..], false, ""), k);
    }
  }
}
