/** Unpadded base64url as the share links use it: the platform's padded base64
    with two characters replaced and the padding stripped, and back
    (apps/fetchit-desktop/src/bookmarkShare.ts). The platform functions follow
    section 4 of RFC 4648; decoding is forgiving, as in browsers. */
module Base64Url {
  import opened Basics

  type Sextet = n: nat | n < 64

  // ---------------------------------------------------------------- bit groups

  /** Four sextets as three bytes. */
  function Byte0(a: Sextet, b: Sextet): Byte { a as int * 4 + b as int / 16 }

  function Byte1(b: Sextet, c: Sextet): Byte { b as int % 16 * 16 + c as int / 4 }

  function Byte2(c: Sextet, d: Sextet): Byte { c as int % 4 * 64 + d as int }

  /** Three bytes as four sextets. */
  function Sextet0(x: Byte): Sextet { x / 4 }

  function Sextet1(x: Byte, y: Byte): Sextet { x % 4 * 16 + y / 16 }

  function Sextet2(y: Byte, z: Byte): Sextet { y % 16 * 4 + z / 64 }

  function Sextet3(z: Byte): Sextet { z % 64 }

  /** Three bytes to four sextets; one or two trailing bytes to two or three. */
  function ToSextets(bs: seq<Byte>): seq<Sextet> {
    if bs == [] then []
    else if |bs| == 1 then [Sextet0(bs[0]), Sextet1(bs[0], 0)]
    else if |bs| == 2 then [Sextet0(bs[0]), Sextet1(bs[0], bs[1]), Sextet2(bs[1], 0)]
    else [Sextet0(bs[0]), Sextet1(bs[0], bs[1]), Sextet2(bs[1], bs[2]), Sextet3(bs[2])] + ToSextets(bs[3..])
  }

  /** The inverse grouping; left-over low bits of a short group are dropped. */
  function ToBytes(ss: seq<Sextet>): seq<Byte> {
    if |ss| < 2 then []
    else if |ss| == 2 then [Byte0(ss[0], ss[1])]
    else if |ss| == 3 then [Byte0(ss[0], ss[1]), Byte1(ss[1], ss[2])]
    else [Byte0(ss[0], ss[1]), Byte1(ss[1], ss[2]), Byte2(ss[2], ss[3])] + ToBytes(ss[4..])
  }

  /** The low bits that a short last group drops are zero. */
  predicate TailClear(ss: seq<Sextet>) {
    if |ss| >= 4 then TailClear(ss[4..])
    else if |ss| == 3 then ss[2] % 4 == 0
    else if |ss| == 2 then ss[1] % 16 == 0
    else ss == []
  }

  lemma BitsOfBytes(x: Byte, y: Byte, z: Byte)
    ensures Byte0(Sextet0(x), Sextet1(x, y)) == x
    ensures Byte1(Sextet1(x, y), Sextet2(y, z)) == y
    ensures Byte2(Sextet2(y, z), Sextet3(z)) == z
  {
  }

  lemma BitsOfSextets(a: Sextet, b: Sextet, c: Sextet, d: Sextet)
    ensures Sextet0(Byte0(a, b)) == a
    ensures Sextet1(Byte0(a, b), Byte1(b, c)) == b
    ensures Sextet2(Byte1(b, c), Byte2(c, d)) == c
    ensures Sextet3(Byte2(c, d)) == d
    ensures Sextet1(Byte0(a, b), 0) == b <==> b % 16 == 0
    ensures Sextet2(Byte1(b, c), 0) == c <==> c % 4 == 0
  {
  }

  /** Three bytes and their four sextets are the same 24 bits, most significant
      first; the short groups are those bits filled up with zeros. */
  lemma SameBits(x: Byte, y: Byte, z: Byte)
    ensures Sextet0(x) * 262144 + Sextet1(x, y) * 4096 + Sextet2(y, z) * 64 + Sextet3(z) == x * 65536 + y * 256 + z
    ensures Sextet0(x) * 4096 + Sextet1(x, y) * 64 + Sextet2(y, 0) == (x * 256 + y) * 4
    ensures Sextet0(x) * 64 + Sextet1(x, 0) == x * 16
  {
  }

  lemma ShortTails(x: Byte, y: Byte)
    ensures Sextet1(x, 0) % 16 == 0 && Sextet2(y, 0) % 4 == 0
  {
  }

  lemma {:induction false} BytesComeBack(bs: seq<Byte>)
    ensures ToBytes(ToSextets(bs)) == bs
    ensures TailClear(ToSextets(bs)) && |ToSextets(bs)| % 4 != 1
  {
    hide Byte0, Byte1, Byte2, Sextet0, Sextet1, Sextet2, Sextet3;
    if |bs| >= 3 {
      BytesComeBack(bs[3..]);
      BitsOfBytes(bs[0], bs[1], bs[2]);
      assert ToSextets(bs)[4..] == ToSextets(bs[3..]);
      assert bs == bs[..3] + bs[3..];
    } else if bs != [] {
      BitsOfBytes(bs[0], if |bs| == 2 then bs[1] else 0, 0);
      ShortTails(bs[0], bs[|bs| - 1]);
    }
  }

  lemma {:induction false} SextetsComeBackIff(ss: seq<Sextet>)
    ensures ToSextets(ToBytes(ss)) == ss <==> TailClear(ss)
  {
    hide Byte0, Byte1, Byte2, Sextet0, Sextet1, Sextet2, Sextet3;
    if |ss| >= 4 {
      var bs := ToBytes(ss);
      SextetsComeBackIff(ss[4..]);
      assert bs[3..] == ToBytes(ss[4..]);
      BitsOfSextets(ss[0], ss[1], ss[2], ss[3]);
      assert ToSextets(bs)[..4] == ss[..4] && ToSextets(bs)[4..] == ToSextets(bs[3..]);
      assert ss == ss[..4] + ss[4..];
    } else if |ss| >= 2 {
      BitsOfSextets(ss[0], ss[1], if |ss| == 3 then ss[2] else 0, 0);
    }
  }

  // ------------------------------------------------------------------ alphabet

  function CharOf(v: Sextet): char {
    if v < 26 then ('A' as int + v) as char
    else if v < 52 then ('a' as int + v - 26) as char
    else if v < 62 then ('0' as int + v - 52) as char
    else if v == 62 then '+' else '/'
  }

  function ValueOf(c: char): Option<Sextet> {
    if 'A' <= c <= 'Z' then Some(c as int - 'A' as int)
    else if 'a' <= c <= 'z' then Some(c as int - 'a' as int + 26)
    else if '0' <= c <= '9' then Some(c as int - '0' as int + 52)
    else if c == '+' then Some(62)
    else if c == '/' then Some(63)
    else None
  }

  function Chars(ss: seq<Sextet>): string { seq(|ss|, i requires 0 <= i < |ss| => CharOf(ss[i])) }

  function Values(t: string): Option<seq<Sextet>> {
    if forall c <- t :: ValueOf(c).Some? then Some(seq(|t|, i requires 0 <= i < |t| => ValueOf(t[i]).value)) else None
  }

  /** The ends of the runs of table 1 of RFC 4648, which counts up between them. */
  lemma AlphabetRuns(v: Sextet)
    ensures CharOf(0) == 'A' && CharOf(25) == 'Z' && CharOf(26) == 'a' && CharOf(51) == 'z'
    ensures CharOf(52) == '0' && CharOf(61) == '9' && CharOf(62) == '+' && CharOf(63) == '/'
    ensures v != 25 && v != 51 && v < 61 ==> CharOf(v + 1) as int == CharOf(v) as int + 1
  {
  }

  lemma CharsLength(ss: seq<Sextet>)
    ensures |Chars(ss)| == |ss|
  {
  }

  lemma CharValue(v: Sextet)
    ensures ValueOf(CharOf(v)) == Some(v)
  {
  }

  lemma CharsComeBack(ss: seq<Sextet>)
    ensures Values(Chars(ss)) == Some(ss)
  {
    hide ValueOf, CharOf;
    var t := Chars(ss);
    forall i | 0 <= i < |ss| ensures ValueOf(t[i]) == Some(ss[i]) {
      CharValue(ss[i]);
    }
    assert forall c <- t :: ValueOf(c).Some?;
    assert Values(t).value == ss;
  }

  lemma ValuesComeBack(t: string, ss: seq<Sextet>)
    requires Values(t) == Some(ss)
    ensures Chars(ss) == t
  {
    forall i | 0 <= i < |t| ensures Chars(ss)[i] == t[i] {
      assert t[i] in t;
    }
  }

  function Repeat(c: char, n: nat): string { seq(n, _ => c) }

  /** `btoa`: padded to a multiple of four. */
  function Btoa(bs: seq<Byte>): string {
    var t := Chars(ToSextets(bs));
    t + Repeat('=', (4 - |t| % 4) % 4)
  }

  predicate IsSpace(c: char) { c == ' ' || c == '\t' || c == '\n' || c == 12 as char || c == '\r' }

  function WithoutSpaces(t: string): string {
    if t == [] then [] else (if IsSpace(t[0]) then [] else [t[0]]) + WithoutSpaces(t[1..])
  }

  /** One or two `=` are taken off a text whose length is a multiple of four. */
  function Unpadded(t: string): string {
    if |t| == 0 || |t| % 4 != 0 || t[|t| - 1] != '=' then t
    else if t[|t| - 2] != '=' then t[..|t| - 1]
    else t[..|t| - 2]
  }

  /** `atob`. */
  function Atob(text: string): Option<seq<Byte>> {
    var t := Unpadded(WithoutSpaces(text));
    if |t| % 4 == 1 || Values(t).None? then None else Some(ToBytes(Values(t).value))
  }

  // ----------------------------------------------------------------- base64url

  function Replaced(t: string, c: char, d: char): string {
    seq(|t|, i requires 0 <= i < |t| => if t[i] == c then d else t[i])
  }

  function Removed(t: string, c: char): string {
    if t == [] then [] else (if t[0] == c then [] else [t[0]]) + Removed(t[1..], c)
  }

  function Encode(bs: seq<Byte>): string {
    Removed(Replaced(Replaced(Btoa(bs), '+', '-'), '/', '_'), '=')
  }

  function Decode(t: string): Option<seq<Byte>> {
    Atob(Replaced(Replaced(t, '-', '+'), '_', '/') + Repeat('=', (4 - |t| % 4) % 4))
  }

  predicate UrlSafe(c: char) { 'A' <= c <= 'Z' || 'a' <= c <= 'z' || '0' <= c <= '9' || c == '-' || c == '_' }

  /** The URL-safe text of sextets. */
  function UrlChars(ss: seq<Sextet>): string { Replaced(Replaced(Chars(ss), '+', '-'), '/', '_') }

  lemma {:induction false} RemovedPadding(t: string, n: nat)
    requires '=' !in t
    ensures Removed(t + Repeat('=', n), '=') == t
    decreases |t| + n
  {
    var all := t + Repeat('=', n);
    if t != [] {
      assert all[1..] == t[1..] + Repeat('=', n);
      RemovedPadding(t[1..], n);
    } else if n > 0 {
      assert all[1..] == [] + Repeat('=', n - 1);
      RemovedPadding([], n - 1);
    }
  }

  lemma EncodeIsUrlChars(bs: seq<Byte>)
    ensures Encode(bs) == UrlChars(ToSextets(bs))
  {
    var t := Chars(ToSextets(bs));
    var n := (4 - |t| % 4) % 4;
    assert Replaced(Replaced(Btoa(bs), '+', '-'), '/', '_') == UrlChars(ToSextets(bs)) + Repeat('=', n);
    RemovedPadding(UrlChars(ToSextets(bs)), n);
  }

  /** A test vector of section 10 of RFC 4648 without its padding ("fooba"), and the
      two characters of the URL-safe alphabet. */
  lemma RfcVectors()
    ensures Encode([102, 111, 111, 98, 97]) == "Zm9vYmE"
    ensures Encode([0xFB, 0xEF, 0xFF]) == "--__"
  {
    hide Encode;
    EncodeIsUrlChars([102, 111, 111, 98, 97]);
    EncodeIsUrlChars([0xFB, 0xEF, 0xFF]);
    SextetsOfVectors();
    hide ToSextets;
    assert UrlChars([25, 38, 61, 47, 24, 38, 4]) == "Zm9vYmE";
    assert UrlChars([62, 62, 63, 63]) == "--__";
  }

  lemma SextetsOfVectors()
    ensures ToSextets([102, 111, 111, 98, 97]) == [25, 38, 61, 47, 24, 38, 4]
    ensures ToSextets([0xFB, 0xEF, 0xFF]) == [62, 62, 63, 63]
  {
    assert [102, 111, 111, 98, 97][3..] == [98, 97];
    assert ToSextets([98, 97]) == [24, 38, 4];
  }

  /** The text is safe in a link: nothing in it is escaped or split on. */
  lemma EncodeUrlSafe(bs: seq<Byte>)
    ensures forall c <- Encode(bs) :: UrlSafe(c)
  {
    EncodeIsUrlChars(bs);
  }

  lemma {:induction false} NoSpaces(t: string)
    requires forall c <- t :: !IsSpace(c)
    ensures WithoutSpaces(t) == t
  {
    if t != [] {
      NoSpaces(t[1..]);
    }
  }

  /** The padding put back is the padding `btoa` had written. */
  lemma PaddingRestored(bs: seq<Byte>)
    ensures Replaced(Replaced(Encode(bs), '-', '+'), '_', '/') + Repeat('=', (4 - |Encode(bs)| % 4) % 4) == Btoa(bs)
  {
    EncodeIsUrlChars(bs);
    var t := Chars(ToSextets(bs));
    assert Replaced(Replaced(UrlChars(ToSextets(bs)), '-', '+'), '_', '/') == t;
  }

  /** Padding a text that is not one short of a group is undone. */
  lemma PadUnpad(t: string)
    requires |t| % 4 != 1 && '=' !in t
    ensures Unpadded(t + Repeat('=', (4 - |t| % 4) % 4)) == t
  {
    var n := (4 - |t| % 4) % 4;
    var p := t + Repeat('=', n);
    assert p[..|t|] == t;
    if n == 0 {
      assert p == t;
    }
  }

  lemma PlainCharacters(t: string, n: nat)
    requires Values(t).Some?
    ensures '=' !in t && WithoutSpaces(t + Repeat('=', n)) == t + Repeat('=', n)
  {
    NoSpaces(t + Repeat('=', n));
  }

  lemma AtobOfPadded(t: string)
    requires Values(t).Some? && |t| % 4 != 1
    ensures Atob(t + Repeat('=', (4 - |t| % 4) % 4)) == Some(ToBytes(Values(t).value))
  {
    PlainCharacters(t, (4 - |t| % 4) % 4);
    PadUnpad(t);
  }

  /** Every byte sequence survives the trip. */
  lemma DecodeEncode(bs: seq<Byte>)
    ensures Decode(Encode(bs)) == Some(bs)
  {
    hide Encode, Values, Replaced, TailClear, ToBytes, ToSextets, Atob, Repeat, Chars;
    var t := Chars(ToSextets(bs));
    CharsLength(ToSextets(bs));
    PaddingRestored(bs);
    BytesComeBack(bs);
    CharsComeBack(ToSextets(bs));
    AtobOfPadded(t);
  }

  /** A text that is what some bytes encode to, said without encoding. */
  predicate Canonical(t: string) {
    && (forall c <- t :: UrlSafe(c))
    && |t| % 4 != 1
    && var std := Replaced(Replaced(t, '-', '+'), '_', '/');
       Values(std).Some? && TailClear(Values(std).value)
  }

  lemma UrlSafeValues(t: string)
    requires forall c <- t :: UrlSafe(c)
    ensures var std := Replaced(Replaced(t, '-', '+'), '_', '/');
            Values(std).Some? && UrlChars(Values(std).value) == t
  {
    var std := Replaced(Replaced(t, '-', '+'), '_', '/');
    forall i | 0 <= i < |t| ensures ValueOf(std[i]).Some? && Replaced(Replaced(std, '+', '-'), '/', '_')[i] == t[i] {
      assert UrlSafe(t[i]);
    }
    ValuesComeBack(std, Values(std).value);
  }

  /** Decoding is forgiving: it also takes padding, spaces, the standard
      alphabet and stray low bits. A text is the encoding of what it decodes to
      exactly when it is canonical. */
  lemma EncodeDecodeIff(t: string)
    ensures Decode(t).Some? && Encode(Decode(t).value) == t <==> Canonical(t)
  {
    if forall c <- t :: UrlSafe(c) {
      SafeTextIff(t);
    } else if Decode(t).Some? {
      EncodeUrlSafe(Decode(t).value);
    }
  }

  lemma SafeTextIff(t: string)
    requires forall c <- t :: UrlSafe(c)
    ensures Decode(t).Some? && Encode(Decode(t).value) == t <==> Canonical(t)
  {
    hide Encode, Values, UrlChars, Replaced, TailClear, ToBytes, ToSextets, Atob;
    var std := Replaced(Replaced(t, '-', '+'), '_', '/');
    UrlSafeValues(t);
    SameLength(t);
    var ss := Values(std).value;
    if |t| % 4 != 1 {
      AtobOfPadded(std);
      EncodeIsUrlChars(ToBytes(ss));
      SextetsComeBackIff(ss);
      if Encode(ToBytes(ss)) == t {
        UrlCharsInjective(ToSextets(ToBytes(ss)), ss);
      }
    } else if Decode(t).Some? {
      EncodeIsUrlChars(Decode(t).value);
      BytesComeBack(Decode(t).value);
      UrlCharsLength(ToSextets(Decode(t).value));
    }
  }

  lemma SameLength(t: string)
    ensures |Replaced(Replaced(t, '-', '+'), '_', '/')| == |t|
  {
  }

  lemma UrlCharsLength(ss: seq<Sextet>)
    ensures |UrlChars(ss)| == |ss|
  {
  }

  lemma UrlCharsInjective(a: seq<Sextet>, b: seq<Sextet>)
    requires UrlChars(a) == UrlChars(b)
    ensures a == b
  {
    assert |a| == |UrlChars(a)| == |b|;
    forall i | 0 <= i < |a| ensures a[i] == b[i] {
      assert UrlChars(a)[i] == UrlChars(b)[i];
    }
  }

  /** Different bytes never share a text. */
  lemma EncodeInjective(a: seq<Byte>, b: seq<Byte>)
    requires Encode(a) == Encode(b)
    ensures a == b
  {
    DecodeEncode(a);
    DecodeEncode(b);
  }
}
