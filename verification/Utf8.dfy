/** UTF-8 as section 3 of RFC 3629 defines it: the encoding, a strict decoder
    that refuses what `str::from_utf8` refuses, and where a valid text may be
    cut. */
module Utf8 {
  import opened Basics

  predicate IsContinuation(b: Byte) { 0x80 <= b < 0xC0 }

  function Tail(v: nat): Byte { 0x80 + v % 64 }

  /** The bytes of one character. */
  function EncodeChar(c: char): seq<Byte> {
    var v := c as int;
    if v < 0x80 then [v]
    else if v < 0x800 then [0xC0 + v / 64, Tail(v)]
    else if v < 0x10000 then [0xE0 + v / 4096, Tail(v / 64), Tail(v)]
    else [0xF0 + v / 262144, Tail(v / 4096), Tail(v / 64), Tail(v)]
  }

  function Encode(t: string): seq<Byte> { if t == [] then [] else EncodeChar(t[0]) + Encode(t[1..]) }

  datatype Scalar = Scalar(c: char, width: nat)

  predicate Continues(bs: seq<Byte>, n: nat) { |bs| >= n && forall i :: 1 <= i < n ==> IsContinuation(bs[i]) }

  function Two(a: Byte, b: Byte): int { (a as int - 0xC0) * 64 + (b as int - 0x80) }

  function Three(a: Byte, b: Byte, c: Byte): int {
    (a as int - 0xE0) * 4096 + (b as int - 0x80) * 64 + (c as int - 0x80)
  }

  function Four(a: Byte, b: Byte, c: Byte, d: Byte): int {
    (a as int - 0xF0) * 262144 + (b as int - 0x80) * 4096 + (c as int - 0x80) * 64 + (d as int - 0x80)
  }

  /** The first character and its width: no overlong form, no surrogate, nothing
      above U+10FFFF, nothing cut short. */
  function First(bs: seq<Byte>): (r: Option<Scalar>)
    requires bs != []
    ensures r.Some? ==> 1 <= r.value.width <= |bs|
  {
    var a := bs[0];
    if a < 0x80 then Some(Scalar(a as char, 1))
    else if 0xC2 <= a < 0xE0 && Continues(bs, 2) then Some(Scalar(Two(a, bs[1]) as char, 2))
    else if 0xE0 <= a < 0xF0 && Continues(bs, 3) then
      var v := Three(a, bs[1], bs[2]);
      if 0x800 <= v < 0xD800 || 0xE000 <= v < 0x10000 then Some(Scalar(v as char, 3)) else None
    else if 0xF0 <= a < 0xF5 && Continues(bs, 4) then
      var v := Four(a, bs[1], bs[2], bs[3]);
      if 0x10000 <= v < 0x110000 then Some(Scalar(v as char, 4)) else None
    else None
  }

  /** `str::from_utf8`. */
  function Decode(bs: seq<Byte>): Option<string>
    decreases |bs|
  {
    if bs == [] then Some("")
    else
      match First(bs)
      case None => None
      case Some(s) => match Decode(bs[s.width..]) case None => None case Some(rest) => Some([s.c] + rest)
  }

  predicate Valid(bs: seq<Byte>) { Decode(bs).Some? }

  // ------------------------------------------------------ decoding is the inverse

  lemma FirstOfChar(c: char, rest: seq<Byte>)
    ensures First(EncodeChar(c) + rest) == Some(Scalar(c, |EncodeChar(c)|))
  {
    hide Two, Three, Four, Tail;
    var v := c as int;
    var e := EncodeChar(c);
    var bs := e + rest;
    assert forall i :: 0 <= i < |e| ==> bs[i] == e[i];
    LeadByte(c);
    if v < 0x80 {
    } else if v < 0x800 {
      TwoBack(v);
    } else if v < 0x10000 {
      ThreeBack(v);
    } else {
      FourBack(v);
    }
  }

  lemma TwoBack(v: nat)
    requires 0x80 <= v < 0x800
    ensures Two(0xC0 + v / 64, Tail(v)) == v
  {
  }

  lemma ThreeBack(v: nat)
    requires 0x800 <= v < 0x10000
    ensures Three(0xE0 + v / 4096, Tail(v / 64), Tail(v)) == v
  {
    assert v / 64 / 64 == v / 4096;
  }

  lemma FourBack(v: nat)
    requires 0x10000 <= v < 0x110000
    ensures Four(0xF0 + v / 262144, Tail(v / 4096), Tail(v / 64), Tail(v)) == v
  {
    assert v / 64 / 64 == v / 4096 && v / 4096 / 64 == v / 262144;
  }

  lemma CharOfFirst(bs: seq<Byte>)
    requires bs != [] && First(bs).Some?
    ensures var s := First(bs).value; bs[..s.width] == EncodeChar(s.c)
  {
    var s := First(bs).value;
    if s.width == 3 {
      ThreeForth(bs[0], bs[1], bs[2]);
    } else if s.width == 4 {
      FourForth(bs[0], bs[1], bs[2], bs[3]);
    }
  }

  lemma ThreeForth(a: Byte, b: Byte, c: Byte)
    requires 0xE0 <= a < 0xF0 && IsContinuation(b) && IsContinuation(c)
    ensures var v := Three(a, b, c); v >= 0 && 0xE0 + v / 4096 == a && Tail(v / 64) == b && Tail(v) == c
  {
    var v := Three(a, b, c);
    assert v / 64 == (a as int - 0xE0) * 64 + (b as int - 0x80);
  }

  lemma FourForth(a: Byte, b: Byte, c: Byte, d: Byte)
    requires 0xF0 <= a < 0xF5 && IsContinuation(b) && IsContinuation(c) && IsContinuation(d)
    ensures var v := Four(a, b, c, d);
            v >= 0 && 0xF0 + v / 262144 == a && Tail(v / 4096) == b && Tail(v / 64) == c && Tail(v) == d
  {
    var v := Four(a, b, c, d);
    assert v / 64 == (a as int - 0xF0) * 4096 + (b as int - 0x80) * 64 + (c as int - 0x80);
    assert v / 4096 == (a as int - 0xF0) * 64 + (b as int - 0x80);
  }

  /** A character in front decodes to that character in front. */
  lemma DecodeCons(c: char, rest: seq<Byte>)
    ensures Decode(EncodeChar(c) + rest) == match Decode(rest) case None => None case Some(t) => Some([c] + t)
  {
    hide EncodeChar, First;
    FirstOfChar(c, rest);
    assert (EncodeChar(c) + rest)[|EncodeChar(c)|..] == rest;
    LeadByte(c);
  }

  /** A character begins with a byte that is no continuation, and goes on with
      continuations only. */
  lemma LeadByte(c: char)
    ensures EncodeChar(c) != [] && !IsContinuation(EncodeChar(c)[0])
    ensures forall i :: 1 <= i < |EncodeChar(c)| ==> IsContinuation(EncodeChar(c)[i])
  {
  }

  lemma {:induction false} DecodeEncode(t: string)
    ensures Decode(Encode(t)) == Some(t)
  {
    if t != [] {
      DecodeEncode(t[1..]);
      DecodeCons(t[0], Encode(t[1..]));
      assert t == [t[0]] + t[1..];
    }
  }

  lemma {:induction false} EncodeDecode(bs: seq<Byte>)
    requires Valid(bs)
    ensures Encode(Decode(bs).value) == bs
    decreases |bs|
  {
    hide First, EncodeChar;
    if bs != [] {
      var s := First(bs).value;
      EncodeDecode(bs[s.width..]);
      CharOfFirst(bs);
      var rest := Decode(bs[s.width..]).value;
      assert ([s.c] + rest)[1..] == rest;
      assert bs == bs[..s.width] + bs[s.width..];
    }
  }

  lemma Regroup(a: seq<Byte>, b: seq<Byte>, c: seq<Byte>)
    ensures (a + b) + c == a + (b + c)
  {
  }

  lemma {:induction false} EncodeConcat(a: string, b: string)
    ensures Encode(a + b) == Encode(a) + Encode(b)
  {
    hide EncodeChar;
    if a == [] {
      assert a + b == b;
    } else {
      EncodeConcat(a[1..], b);
      assert (a + b)[1..] == a[1..] + b;
      Regroup(EncodeChar(a[0]), Encode(a[1..]), Encode(b));
    }
  }

  // ---------------------------------------------------------------------- cuts

  lemma NoLead(bs: seq<Byte>)
    requires bs != [] && IsContinuation(bs[0])
    ensures !Valid(bs)
  {
  }

  /** The beginning of a character is not a character. */
  lemma CutShort(c: char, k: nat)
    requires 0 < k < |EncodeChar(c)|
    ensures !Valid(EncodeChar(c)[..k])
  {
    var e := EncodeChar(c);
    assert e[..k][0] == e[0];
    assert First(e[..k]).None?;
  }

  lemma {:induction false} CutOfEncoded(t: string, k: nat)
    requires k <= |Encode(t)|
    ensures Valid(Encode(t)[..k]) <==> (k < |Encode(t)| ==> !IsContinuation(Encode(t)[k]))
    ensures Valid(Encode(t)[k..]) <==> (k < |Encode(t)| ==> !IsContinuation(Encode(t)[k]))
    decreases |t|
  {
    hide EncodeChar, First, IsContinuation;
    var bs := Encode(t);
    if t != [] {
      var e, rest := EncodeChar(t[0]), Encode(t[1..]);
      LeadByte(t[0]);
      if k == 0 {
        assert bs[..0] == [] && bs[0..] == bs;
        DecodeEncode(t);
      } else if k < |e| {
        assert bs[k] == e[k] && bs[k..][0] == e[k] && bs[..k] == e[..k];
        NoLead(bs[k..]);
        CutShort(t[0], k);
      } else {
        CutOfEncoded(t[1..], k - |e|);
        assert bs[..k] == e + rest[..k - |e|] && bs[k..] == rest[k - |e|..];
        DecodeCons(t[0], rest[..k - |e|]);
      }
    }
  }

  /** A cut of a valid text leaves two valid parts when it is in front of a byte
      that is no continuation, and otherwise two invalid ones. */
  lemma CutIff(a: seq<Byte>, b: seq<Byte>)
    requires Valid(a + b)
    ensures Valid(a) <==> (b != [] ==> !IsContinuation(b[0]))
    ensures Valid(b) <==> (b != [] ==> !IsContinuation(b[0]))
  {
    hide Valid, IsContinuation, Encode;
    WholeText(a + b);
    var t := Decode(a + b).value;
    CutOfEncoded(t, |a|);
    assert (a + b)[..|a|] == a && (a + b)[|a|..] == b;
  }

  lemma WholeText(bs: seq<Byte>)
    requires Valid(bs)
    ensures Decode(bs).Some? && Encode(Decode(bs).value) == bs
  {
    EncodeDecode(bs);
  }

  lemma JoinValid(a: seq<Byte>, b: seq<Byte>)
    requires Valid(a) && Valid(b)
    ensures Decode(a + b) == Some(Decode(a).value + Decode(b).value)
  {
    hide Encode, Decode;
    EncodeDecode(a);
    EncodeDecode(b);
    EncodeConcat(Decode(a).value, Decode(b).value);
    DecodeEncode(Decode(a).value + Decode(b).value);
  }

  // -------------------------------------------------------------------- chunks

  function Joined(cs: seq<seq<Byte>>): seq<Byte> { if cs == [] then [] else cs[0] + Joined(cs[1..]) }

  /** What a reader that decodes each chunk by itself gets hold of. */
  function TextTaken(cs: seq<seq<Byte>>): string {
    if cs == [] then "" else (if Valid(cs[0]) then Decode(cs[0]).value else "") + TextTaken(cs[1..])
  }

  lemma {:induction false} TextTakenSnoc(cs: seq<seq<Byte>>, c: seq<Byte>)
    ensures TextTaken(cs + [c]) == TextTaken(cs) + if Valid(c) then Decode(c).value else ""
  {
    hide Decode;
    if cs == [] {
      assert (cs + [c])[1..] == [];
    } else {
      TextTakenSnoc(cs[1..], c);
      assert (cs + [c])[1..] == cs[1..] + [c];
    }
  }

  /** The bytes of the chunks it can decode. */
  function BytesTaken(cs: seq<seq<Byte>>): nat {
    if cs == [] then 0 else (if Valid(cs[0]) then |cs[0]| else 0) + BytesTaken(cs[1..])
  }

  ghost predicate EachValid(cs: seq<seq<Byte>>) { forall i :: 0 <= i < |cs| ==> Valid(cs[i]) }

  ghost predicate NoneBeginsInside(cs: seq<seq<Byte>>) {
    forall i :: 0 <= i < |cs| && cs[i] != [] ==> !IsContinuation(cs[i][0])
  }

  lemma {:induction false} TakenLength(cs: seq<seq<Byte>>)
    ensures |Encode(TextTaken(cs))| == BytesTaken(cs)
  {
    hide Decode, EncodeChar;
    if cs != [] {
      TakenLength(cs[1..]);
      var head := if Valid(cs[0]) then Decode(cs[0]).value else "";
      EncodeConcat(head, TextTaken(cs[1..]));
      if Valid(cs[0]) {
        WholeText(cs[0]);
      }
    }
  }

  lemma EmptyValid()
    ensures Valid([])
  {
  }

  lemma {:induction false} AllBytesIff(cs: seq<seq<Byte>>)
    ensures BytesTaken(cs) <= |Joined(cs)|
    ensures BytesTaken(cs) == |Joined(cs)| <==> EachValid(cs)
  {
    hide Valid;
    if cs != [] {
      AllBytesIff(cs[1..]);
      EmptyValid();
      assert EachValid(cs) <==> Valid(cs[0]) && EachValid(cs[1..]) by {
        assert forall i :: 0 <= i < |cs| - 1 ==> cs[1..][i] == cs[i + 1];
        if Valid(cs[0]) && EachValid(cs[1..]) {
          forall i | 0 <= i < |cs| ensures Valid(cs[i]) {
            assert i == 0 || cs[i] == cs[1..][i - 1];
          }
        }
      }
    }
  }

  /** Cut into chunks that are each valid, the whole is valid and is taken whole. */
  lemma {:induction false} EachValidTakesAll(cs: seq<seq<Byte>>)
    requires EachValid(cs)
    ensures Decode(Joined(cs)) == Some(TextTaken(cs))
  {
    hide Decode;
    if cs == [] {
      DecodeNothing();
    } else {
      assert forall i :: 0 <= i < |cs| - 1 ==> cs[1..][i] == cs[i + 1];
      EachValidTakesAll(cs[1..]);
      assert Valid(cs[0]);
      JoinValid(cs[0], Joined(cs[1..]));
    }
  }

  lemma DecodeNothing()
    ensures Decode([]) == Some("")
  {
  }

  /** A valid stream is taken whole exactly when every chunk is valid alone. */
  lemma TakenWholeIffEachValid(cs: seq<seq<Byte>>)
    requires Valid(Joined(cs))
    ensures TextTaken(cs) == Decode(Joined(cs)).value <==> EachValid(cs)
  {
    hide Decode, Encode, EachValid;
    if EachValid(cs) {
      EachValidTakesAll(cs);
    }
    if TextTaken(cs) == Decode(Joined(cs)).value {
      WholeText(Joined(cs));
      TakenLength(cs);
      AllBytesIff(cs);
    }
  }

  /** Which is so exactly when no chunk begins inside a character. */
  lemma {:induction false} EachValidIff(cs: seq<seq<Byte>>)
    requires Valid(Joined(cs))
    ensures EachValid(cs) <==> NoneBeginsInside(cs)
  {
    hide Valid, IsContinuation;
    if EachValid(cs) {
      forall i | 0 <= i < |cs| && cs[i] != [] ensures !IsContinuation(cs[i][0]) {
        if IsContinuation(cs[i][0]) {
          NoLead(cs[i]);
        }
      }
    }
    if NoneBeginsInside(cs) {
      NoneInsideValid(cs);
    }
  }

  lemma {:induction false} NoneInsideValid(cs: seq<seq<Byte>>)
    requires Valid(Joined(cs)) && NoneBeginsInside(cs)
    ensures EachValid(cs)
  {
    hide Valid, IsContinuation;
    if cs != [] {
      var rest := cs[1..];
      assert forall i :: 0 <= i < |rest| ==> rest[i] == cs[i + 1];
      JoinedHead(rest);
      CutIff(cs[0], Joined(rest));
      NoneInsideValid(rest);
      forall i | 0 <= i < |cs| ensures Valid(cs[i]) {
        assert i == 0 || cs[i] == rest[i - 1];
      }
    }
  }

  lemma {:induction false} JoinedHead(cs: seq<seq<Byte>>)
    requires NoneBeginsInside(cs)
    ensures Joined(cs) != [] ==> !IsContinuation(Joined(cs)[0])
  {
    hide IsContinuation;
    if cs != [] && cs[0] == [] {
      assert forall i :: 0 <= i < |cs| - 1 ==> cs[1..][i] == cs[i + 1];
      JoinedHead(cs[1..]);
      assert Joined(cs) == Joined(cs[1..]);
    }
  }

  /** For every cutting of a valid stream: the text taken is the text sent exactly
      when no chunk begins inside a character. */
  lemma TakenWholeIff(cs: seq<seq<Byte>>)
    requires Valid(Joined(cs))
    ensures TextTaken(cs) == Decode(Joined(cs)).value <==> NoneBeginsInside(cs)
  {
    hide Decode, EachValid, NoneBeginsInside, Valid;
    TakenWholeIffEachValid(cs);
    EachValidIff(cs);
  }

  /** Examples of section 7 of RFC 3629: U+0041, U+2262, U+0391 and U+233B4. */
  lemma RfcExamples()
    ensures EncodeChar('\U{41}') == [0x41] && EncodeChar('\U{2262}') == [0xE2, 0x89, 0xA2]
    ensures EncodeChar('\U{391}') == [0xCE, 0x91] && EncodeChar('\U{233B4}') == [0xF0, 0xA3, 0x8E, 0xB4]
  {
  }
}
