/** Sharing bookmarks in a link: the byte and text conversions and the list
    format (apps/fetchit-desktop/src/bookmarkShare.ts). JSON and UTF-8 are a
    function from lists to bytes with a left inverse. */
module BookmarkShare {
  import opened Base64Url
  import opened Basics

  const MAX_BOOKMARKS_PER_QR: nat := 20

  datatype Bookmark = Bookmark(address: string, name: string, createdAt: int)

  datatype Shared = Shared(a: string, l: string)

  datatype ShareResult = NothingToShare | TooMany(count: nat) | Data(text: string)

  predicate IsLowerHex(c: char) { '0' <= c <= '9' || 'a' <= c <= 'f' }

  predicate ValidAddress(a: string) { |a| == 64 && forall c <- a :: IsLowerHex(c) }

  function ToShared(bms: seq<Bookmark>): seq<Shared> {
    seq(|bms|, i requires 0 <= i < |bms| => Shared(bms[i].address, bms[i].name))
  }

  function EncodeShare(toBytes: seq<Shared> -> seq<Byte>, bms: seq<Bookmark>): ShareResult {
    if |bms| == 0 then NothingToShare
    else if |bms| > MAX_BOOKMARKS_PER_QR then TooMany(|bms|)
    else Data(Encode(toBytes(ToShared(bms))))
  }

  function FromShared(ss: seq<Shared>): seq<Bookmark> {
    if ss == [] then []
    else if ValidAddress(ss[0].a) then [Bookmark(ss[0].a, ss[0].l, 0)] + FromShared(ss[1..])
    else FromShared(ss[1..])
  }

  function DecodeShare(fromBytes: seq<Byte> -> Option<seq<Shared>>, text: string): Option<seq<Bookmark>> {
    if text == "" then None
    else
      match Decode(text)
      case None => None
      case Some(bytes) => match fromBytes(bytes) case None => None case Some(ss) => Some(FromShared(ss))
  }

  ghost predicate InversePair(toBytes: seq<Shared> -> seq<Byte>, fromBytes: seq<Byte> -> Option<seq<Shared>>) {
    forall ss :: toBytes(ss) != [] && fromBytes(toBytes(ss)) == Some(ss)
  }

  lemma {:induction false} NoneDroppedIff(ss: seq<Shared>)
    ensures |FromShared(ss)| <= |ss|
    ensures ToShared(FromShared(ss)) == ss <==> forall s <- ss :: ValidAddress(s.a)
  {
    if ss != [] {
      NoneDroppedIff(ss[1..]);
      var rest := FromShared(ss[1..]);
      assert forall s <- ss :: s == ss[0] || s in ss[1..];
      if ValidAddress(ss[0].a) {
        assert ToShared(FromShared(ss)) == [ss[0]] + ToShared(rest);
        assert ss == [ss[0]] + ss[1..];
      } else {
        assert |ToShared(FromShared(ss))| < |ss|;
      }
    }
  }

  /** 64 lower-case hexadecimal digits. */
  ghost predicate Hex64(a: string) {
    |a| == 64 && forall i :: 0 <= i < 64 ==> '0' <= a[i] <= '9' || 'a' <= a[i] <= 'f'
  }

  lemma ValidIsHex64(a: string)
    ensures ValidAddress(a) <==> Hex64(a)
  {
    if Hex64(a) {
      forall c | c in a ensures IsLowerHex(c) {
        var i :| 0 <= i < |a| && a[i] == c;
      }
    }
    if ValidAddress(a) {
      forall i | 0 <= i < 64 ensures '0' <= a[i] <= '9' || 'a' <= a[i] <= 'f' {
        assert IsLowerHex(a[i]);
      }
    }
  }

  lemma {:induction false} OnlyValid(ss: seq<Shared>)
    ensures forall b <- FromShared(ss) :: Hex64(b.address) && b.createdAt == 0 && Shared(b.address, b.name) in ss
  {
    hide Hex64, ValidAddress;
    if ss != [] {
      OnlyValid(ss[1..]);
      ValidIsHex64(ss[0].a);
    }
  }

  /** The same bookmarks, creation times aside. */
  ghost predicate SameBookmarks(a: seq<Bookmark>, b: seq<Bookmark>) {
    |a| == |b| && forall i :: 0 <= i < |a| ==> a[i].address == b[i].address && a[i].name == b[i].name
  }

  lemma SameIffShared(a: seq<Bookmark>, b: seq<Bookmark>)
    ensures SameBookmarks(a, b) <==> ToShared(a) == ToShared(b)
  {
    if ToShared(a) == ToShared(b) {
      assert |ToShared(a)| == |a| && |ToShared(b)| == |b|;
      forall i | 0 <= i < |a| ensures a[i].address == b[i].address && a[i].name == b[i].name {
        assert ToShared(a)[i] == ToShared(b)[i];
      }
    }
  }

  /** A link of one to twenty bookmarks always decodes. It gives back the same
      addresses and names exactly when every address is 64 lower-case hex digits,
      and never an address that is not; the sender's creation times are not carried. */
  lemma ShareRoundTripIff(toBytes: seq<Shared> -> seq<Byte>, fromBytes: seq<Byte> -> Option<seq<Shared>>, bms: seq<Bookmark>)
    requires InversePair(toBytes, fromBytes) && 0 < |bms| <= MAX_BOOKMARKS_PER_QR
    ensures EncodeShare(toBytes, bms).Data?
    ensures var back := DecodeShare(fromBytes, EncodeShare(toBytes, bms).text);
            && back.Some? && (SameBookmarks(back.value, bms) <==> forall b <- bms :: Hex64(b.address))
            && forall b <- back.value :: Hex64(b.address) && b.createdAt == 0 && Shared(b.address, b.name) in ToShared(bms)
  {
    hide Encode, Decode, FromShared, Hex64, ValidAddress, SameBookmarks;
    var ss := ToShared(bms);
    DecodeEncode(toBytes(ss));
    assert Encode(toBytes(ss)) != Encode([]) by {
      if Encode(toBytes(ss)) == Encode([]) {
        EncodeInjective(toBytes(ss), []);
      }
    }
    EmptyText();
    NoneDroppedIff(ss);
    OnlyValid(ss);
    SameIffShared(FromShared(ss), bms);
    forall i | 0 <= i < |bms| ensures ss[i].a == bms[i].address && (ValidAddress(ss[i].a) <==> Hex64(bms[i].address)) {
      ValidIsHex64(bms[i].address);
    }
  }

  /** No bookmarks, or more than twenty, are refused. */
  lemma ShareRefuses(toBytes: seq<Shared> -> seq<Byte>, bms: seq<Bookmark>)
    ensures EncodeShare(toBytes, bms) == NothingToShare <==> bms == []
    ensures EncodeShare(toBytes, bms) == TooMany(|bms|) <==> |bms| > 20
  {
  }

  lemma EmptyText()
    ensures Encode([]) == ""
  {
    EncodeIsUrlChars([]);
  }

  // --------------------------------------------------------- the byte conversions

  function Codes(binary: string): seq<Byte>
    requires forall i :: 0 <= i < |binary| ==> binary[i] as int < 256
  {
    seq<Byte>(|binary|, i requires 0 <= i < |binary| => binary[i] as int)
  }

  /** The bytes go through a string of characters below 256. */
  method BytesToBase64Url(bytes: seq<Byte>) returns (text: string)
    ensures text == Encode(bytes)
    ensures forall c <- text :: UrlSafe(c)
  {
    var binary := "";
    for i := 0 to |bytes|
      invariant |binary| == i && forall k :: 0 <= k < i ==> binary[k] as int == bytes[k]
    {
      binary := binary + [bytes[i] as char];
    }
    assert Codes(binary) == bytes;
    text := Removed(Replaced(Replaced(Btoa(Codes(binary)), '+', '-'), '/', '_'), '=');
    EncodeUrlSafe(bytes);
  }

  function Latin(bs: seq<Byte>): string { seq(|bs|, i requires 0 <= i < |bs| => bs[i] as char) }

  method Base64UrlToBytes(text: string) returns (ok: bool, bytes: array<Byte>)
    ensures fresh(bytes)
    ensures ok <==> Decode(text).Some?
    ensures ok ==> bytes[..] == Decode(text).value
  {
    var padded := Replaced(Replaced(text, '-', '+'), '_', '/') + Repeat('=', (4 - |text| % 4) % 4);
    var decoded := Atob(padded);
    ok := decoded.Some?;
    if !ok {
      bytes := new Byte[0];
      return;
    }
    var binary := Latin(decoded.value);
    bytes := new Byte[|binary|];
    for i := 0 to |binary|
      invariant forall k :: 0 <= k < i ==> bytes[k] == decoded.value[k]
    {
      bytes[i] := binary[i] as int;
    }
    assert bytes[..] == decoded.value;
  }
}
