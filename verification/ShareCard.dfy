/** The signed share-card extension: `extend_with_fetchit_fields` and
    `verify_card_extension` in crates/fetchit-chat/src/card.rs. */
module ShareCard {
  import opened Basics
  import opened JsonText
  import opened CanonicalJson

  const CARD_VERSION: int := 1
  const U64_MAX: int := 0xffff_ffff_ffff_ffff
  const VERSION := "fetchit_card_version"
  const KEM := "fetchit_kem_public_key_b64"
  const AGENT := "fetchit_agent_public_key_b64"
  const SIGNATURE := "fetchit_card_signature_b64"
  const HINTS := "fetchit_rendezvous_hints"

  predicate Reserved(key: string) {
    key == VERSION || key == KEM || key == AGENT || key == SIGNATURE || key == HINTS
  }

  // -------------------------------------------------------- object operations

  function Get(ms: seq<Member>, key: string): Option<Json> {
    if ms == [] then None
    else if ms[0].key == key then Some(ms[0].val)
    else Get(ms[1..], key)
  }

  /** `Map::insert`: replace the value in place or append a member. */
  function Put(ms: seq<Member>, key: string, val: Json): seq<Member> {
    if ms == [] then [Member(key, val)]
    else if ms[0].key == key then [Member(key, val)] + ms[1..]
    else [ms[0]] + Put(ms[1..], key, val)
  }

  /** `Map::remove`. */
  function Without(ms: seq<Member>, key: string): seq<Member> {
    if ms == [] then []
    else if ms[0].key == key then Without(ms[1..], key)
    else [ms[0]] + Without(ms[1..], key)
  }

  ghost predicate ObjectOk(ms: seq<Member>) { WellFormed(Obj(ms)) }

  lemma {:induction false} GetIndex(ms: seq<Member>, key: string)
    ensures Get(ms, key).None? <==> !HasKey(ms, key)
    ensures Get(ms, key).Some? ==> exists i :: 0 <= i < |ms| && ms[i].key == key && ms[i].val == Get(ms, key).value
  {
    if ms != [] {
      GetIndex(ms[1..], key);
      if ms[0].key != key && HasKey(ms, key) {
        var i :| 0 <= i < |ms| && ms[i].key == key;
        assert ms[1..][i - 1] == ms[i];
      }
      if ms[0].key != key && Get(ms, key).Some? {
        var i :| 0 <= i < |ms[1..]| && ms[1..][i].key == key && ms[1..][i].val == Get(ms, key).value;
        assert ms[i + 1] == ms[1..][i];
      }
    }
  }

  lemma GetAt(ms: seq<Member>, i: nat)
    requires DistinctKeys(ms) && i < |ms|
    ensures Get(ms, ms[i].key) == Some(ms[i].val)
  {
    GetIndex(ms, ms[i].key);
  }

  lemma {:induction false} PutGet(ms: seq<Member>, key: string, val: Json, q: string)
    ensures Get(Put(ms, key, val), q) == if q == key then Some(val) else Get(ms, q)
  {
    if ms != [] && ms[0].key != key {
      PutGet(ms[1..], key, val, q);
    }
  }

  lemma {:induction false} WithoutGet(ms: seq<Member>, key: string, q: string)
    ensures Get(Without(ms, key), q) == if q == key then None else Get(ms, q)
  {
    if ms != [] {
      WithoutGet(ms[1..], key, q);
    }
  }

  lemma ConsOk(m: Member, ms: seq<Member>)
    requires ObjectOk(ms) && WellFormed(m.val) && Get(ms, m.key).None?
    ensures ObjectOk([m] + ms)
  {
    GetIndex(ms, m.key);
    var all := [m] + ms;
    forall i | 0 <= i < |all| ensures WellFormed(all[i].val) && (i > 0 ==> all[i].key != m.key) {
      if i > 0 {
        assert all[i] == ms[i - 1];
      }
    }
  }

  lemma TailOk(ms: seq<Member>)
    requires ms != [] && ObjectOk(ms)
    ensures ObjectOk(ms[1..]) && WellFormed(ms[0].val) && Get(ms[1..], ms[0].key).None?
  {
    GetIndex(ms[1..], ms[0].key);
    assert forall i :: 0 <= i < |ms[1..]| ==> ms[1..][i] == ms[i + 1];
  }

  lemma {:induction false} PutOk(ms: seq<Member>, key: string, val: Json)
    requires ObjectOk(ms) && WellFormed(val)
    ensures ObjectOk(Put(ms, key, val))
  {
    if ms == [] {
      ConsOk(Member(key, val), []);
    } else {
      TailOk(ms);
      if ms[0].key == key {
        ConsOk(Member(key, val), ms[1..]);
      } else {
        PutOk(ms[1..], key, val);
        PutGet(ms[1..], key, val, ms[0].key);
        ConsOk(ms[0], Put(ms[1..], key, val));
      }
    }
  }

  lemma {:induction false} WithoutOk(ms: seq<Member>, key: string)
    requires ObjectOk(ms)
    ensures ObjectOk(Without(ms, key))
  {
    if ms != [] {
      TailOk(ms);
      WithoutOk(ms[1..], key);
      if ms[0].key != key {
        WithoutGet(ms[1..], key, ms[0].key);
        ConsOk(ms[0], Without(ms[1..], key));
      }
    }
  }

  ghost predicate SameOption(a: Option<Json>, b: Option<Json>) {
    if a.None? then b.None? else b.Some? && SameUpToKeyOrder(a.value, b.value)
  }

  ghost predicate SameFields(a: seq<Member>, b: seq<Member>) {
    forall key :: SameOption(Get(a, key), Get(b, key))
  }

  /** Objects are equal up to key order exactly when every field is. */
  lemma SameByField(a: seq<Member>, b: seq<Member>)
    requires DistinctKeys(a) && DistinctKeys(b)
    ensures SameUpToKeyOrder(Obj(a), Obj(b)) <==> SameFields(a, b)
  {
    if SameFields(a, b) {
      forall i | 0 <= i < |a| ensures HasKey(b, a[i].key) {
        GetAt(a, i);
        GetIndex(b, a[i].key);
        assert SameOption(Get(a, a[i].key), Get(b, a[i].key));
      }
      forall j | 0 <= j < |b| ensures HasKey(a, b[j].key) {
        GetAt(b, j);
        GetIndex(a, b[j].key);
        assert SameOption(Get(a, b[j].key), Get(b, b[j].key));
      }
      forall i, j | 0 <= i < |a| && 0 <= j < |b| && a[i].key == b[j].key ensures SameUpToKeyOrder(a[i].val, b[j].val) {
        GetAt(a, i);
        GetAt(b, j);
        assert SameOption(Get(a, a[i].key), Get(b, a[i].key));
      }
    }
    if SameUpToKeyOrder(Obj(a), Obj(b)) {
      forall key ensures SameOption(Get(a, key), Get(b, key)) {
        FieldFromSame(a, b, key);
      }
    }
  }

  lemma FieldFromSame(a: seq<Member>, b: seq<Member>, key: string)
    requires DistinctKeys(a) && DistinctKeys(b) && SameUpToKeyOrder(Obj(a), Obj(b))
    ensures SameOption(Get(a, key), Get(b, key))
  {
    GetIndex(a, key);
    GetIndex(b, key);
  }

  lemma SameReflexive(v: Json)
    requires WellFormed(v)
    ensures SameUpToKeyOrder(v, v)
  {
    NormalThenSame(v, v);
  }

  // ------------------------------------------------------ extend and verify

  /** What is signed. The postcard framing and the domain prefix are injective
      on these four fields. */
  datatype Body = Body(card: string, version: int, kem: string, agent: string)

  datatype Extension = Extension(version: int, kem: string, agent: string, signature: string)

  /** The four fetchit fields, put into the card's own members. */
  function Stamped(ms: seq<Member>, kem: string, agent: string, signature: string): seq<Member> {
    Put(Put(Put(Put(ms, VERSION, Num(Int(CARD_VERSION))), KEM, Str(kem)), AGENT, Str(agent)), SIGNATURE, Str(signature))
  }

  function SignedBody(card: Json, kem: string, agent: string): Body {
    Body(Canonical(card), CARD_VERSION, kem, agent)
  }

  /** `extend_with_fetchit_fields`; `sign` yields the signature as base64. */
  function Extend(card: Json, kem: string, agent: string, sign: Body -> string, hints: Option<Json>): Option<Json> {
    if !card.Obj? then None
    else
      var out := Stamped(card.members, kem, agent, sign(SignedBody(card, kem, agent)));
      Some(Obj(if hints.Some? then Put(out, HINTS, hints.value) else out))
  }

  function Stripped(ms: seq<Member>): seq<Member> {
    Without(Without(Without(Without(Without(ms, VERSION), KEM), AGENT), SIGNATURE), HINTS)
  }

  function StringAt(ms: seq<Member>, key: string): Option<string> {
    match Get(ms, key)
    case Some(Str(s)) => Some(s)
    case _ => None
  }

  /** The version field reads as the supported version. */
  predicate VersionOk(ms: seq<Member>) {
    match Get(ms, VERSION)
    case Some(Num(Int(v))) => 0 <= v <= U64_MAX && v == CARD_VERSION
    case _ => false
  }

  predicate FieldsOk(ms: seq<Member>) {
    VersionOk(ms) && StringAt(ms, KEM).Some? && StringAt(ms, AGENT).Some? && StringAt(ms, SIGNATURE).Some?
  }

  function RebuiltBody(ms: seq<Member>): Body
    requires FieldsOk(ms)
  {
    Body(Canonical(Obj(Stripped(ms))), CARD_VERSION, StringAt(ms, KEM).value, StringAt(ms, AGENT).value)
  }

  /** `verify_card_extension`; `check` decodes the signature and verifies it
      under the agent key over the rebuilt body. */
  function Verify(card: Json, check: (Body, string) -> bool): Option<Extension> {
    if !card.Obj? || !FieldsOk(card.members) then None
    else
      var ms := card.members;
      var body, signature := RebuiltBody(ms), StringAt(ms, SIGNATURE).value;
      if check(body, signature) then Some(Extension(CARD_VERSION, body.kem, body.agent, signature)) else None
  }

  // -------------------------------------------------------------- properties

  lemma StrippedGet(ms: seq<Member>, q: string)
    ensures Get(Stripped(ms), q) == if Reserved(q) then None else Get(ms, q)
  {
    var a := Without(ms, VERSION);
    var b := Without(a, KEM);
    var c := Without(b, AGENT);
    var d := Without(c, SIGNATURE);
    WithoutGet(ms, VERSION, q);
    WithoutGet(a, KEM, q);
    WithoutGet(b, AGENT, q);
    WithoutGet(c, SIGNATURE, q);
    WithoutGet(d, HINTS, q);
  }

  lemma StrippedOk(ms: seq<Member>)
    requires ObjectOk(ms)
    ensures ObjectOk(Stripped(ms))
  {
    var a := Without(ms, VERSION);
    var b := Without(a, KEM);
    var c := Without(b, AGENT);
    WithoutOk(ms, VERSION);
    WithoutOk(a, KEM);
    WithoutOk(b, AGENT);
    WithoutOk(c, SIGNATURE);
    WithoutOk(Without(c, SIGNATURE), HINTS);
  }

  lemma DistinctConstants()
    ensures VERSION != KEM && VERSION != AGENT && VERSION != SIGNATURE && VERSION != HINTS
    ensures KEM != AGENT && KEM != SIGNATURE && KEM != HINTS
    ensures AGENT != SIGNATURE && AGENT != HINTS && SIGNATURE != HINTS
  {
    assert |VERSION| == 20 && |KEM| == 26 && |AGENT| == 28 && |SIGNATURE| == 26 && |HINTS| == 24;
    assert KEM[8] != SIGNATURE[8];
  }

  lemma StampedGet(ms: seq<Member>, kem: string, agent: string, signature: string, q: string)
    ensures Get(Stamped(ms, kem, agent, signature), q) ==
            if q == SIGNATURE then Some(Str(signature)) else if q == AGENT then Some(Str(agent))
            else if q == KEM then Some(Str(kem)) else if q == VERSION then Some(Num(Int(CARD_VERSION))) else Get(ms, q)
  {
    var a := Put(ms, VERSION, Num(Int(CARD_VERSION)));
    var b := Put(a, KEM, Str(kem));
    var c := Put(b, AGENT, Str(agent));
    PutGet(ms, VERSION, Num(Int(CARD_VERSION)), q);
    PutGet(a, KEM, Str(kem), q);
    PutGet(b, AGENT, Str(agent), q);
    PutGet(c, SIGNATURE, Str(signature), q);
  }

  lemma StampedOk(ms: seq<Member>, kem: string, agent: string, signature: string)
    requires ObjectOk(ms)
    ensures ObjectOk(Stamped(ms, kem, agent, signature))
  {
    var a := Put(ms, VERSION, Num(Int(CARD_VERSION)));
    var b := Put(a, KEM, Str(kem));
    PutOk(ms, VERSION, Num(Int(CARD_VERSION)));
    PutOk(a, KEM, Str(kem));
    PutOk(b, AGENT, Str(agent));
    PutOk(Put(b, AGENT, Str(agent)), SIGNATURE, Str(signature));
  }

  lemma CanonicalByField(a: seq<Member>, b: seq<Member>)
    requires ObjectOk(a) && ObjectOk(b)
    ensures Canonical(Obj(a)) == Canonical(Obj(b)) <==> SameFields(a, b)
  {
    CanonicalFaithful(Obj(a), Obj(b));
    SameByField(a, b);
  }

  lemma FieldReflexive(ms: seq<Member>, key: string)
    requires ObjectOk(ms)
    ensures SameOption(Get(ms, key), Get(ms, key))
  {
    GetIndex(ms, key);
    if Get(ms, key).Some? {
      var i :| 0 <= i < |ms| && ms[i].key == key && ms[i].val == Get(ms, key).value;
      SameReflexive(ms[i].val);
    }
  }

  ghost predicate NoReservedKey(ms: seq<Member>) {
    forall key :: Reserved(key) ==> Get(ms, key).None?
  }

  /** Agreeing outside the reserved keys, two cards strip to the same text as
      `ms` itself exactly when `ms` has no reserved key. */
  lemma StripRestoresIff(ms: seq<Member>, out: seq<Member>)
    requires ObjectOk(ms) && ObjectOk(out)
    requires forall key :: !Reserved(key) ==> Get(out, key) == Get(ms, key)
    ensures Canonical(Obj(Stripped(out))) == Canonical(Obj(ms)) <==> NoReservedKey(ms)
  {
    StrippedOk(out);
    CanonicalByField(Stripped(out), ms);
    forall key ensures SameOption(Get(Stripped(out), key), Get(ms, key)) <==> (Reserved(key) ==> Get(ms, key).None?) {
      StrippedGet(out, key);
      FieldReflexive(ms, key);
    }
  }

  /** The extended card: well formed, its four fields as stamped, everything
      outside the reserved keys as in the original. */
  lemma ExtendedFields(card: Json, kem: string, agent: string, sign: Body -> string, hints: Option<Json>)
    requires card.Obj? && WellFormed(card) && (hints.Some? ==> WellFormed(hints.value))
    ensures var ext := Extend(card, kem, agent, sign, hints).value.members;
            && ObjectOk(ext)
            && (forall key :: !Reserved(key) ==> Get(ext, key) == Get(card.members, key))
            && Get(ext, VERSION) == Some(Num(Int(CARD_VERSION)))
            && Get(ext, KEM) == Some(Str(kem)) && Get(ext, AGENT) == Some(Str(agent))
            && Get(ext, SIGNATURE) == Some(Str(sign(SignedBody(card, kem, agent))))
            && Get(ext, HINTS) == if hints.Some? then hints else Get(card.members, HINTS)
  {
    hide Get, Put, Stamped, WellFormed, Canonical;
    var ms := card.members;
    var signature := sign(SignedBody(card, kem, agent));
    var stamped := Stamped(ms, kem, agent, signature);
    var ext := Extend(card, kem, agent, sign, hints).value.members;
    DistinctConstants();
    StampedOk(ms, kem, agent, signature);
    if hints.Some? {
      PutOk(stamped, HINTS, hints.value);
    }
    forall q ensures Get(ext, q) == if q == HINTS && hints.Some? then hints else Get(stamped, q) {
      if hints.Some? {
        PutGet(stamped, HINTS, hints.value, q);
      }
    }
    forall q ensures Get(stamped, q) ==
                     if q == SIGNATURE then Some(Str(signature)) else if q == AGENT then Some(Str(agent))
                     else if q == KEM then Some(Str(kem)) else if q == VERSION then Some(Num(Int(CARD_VERSION))) else Get(ms, q)
    {
      StampedGet(ms, kem, agent, signature, q);
    }
  }

  /** Verification rebuilds, character for character, the body that was signed
      exactly when the card being extended has none of the five reserved keys;
      the hints slot does not matter. */
  lemma VerifyRebuildsIff(card: Json, kem: string, agent: string, sign: Body -> string, hints: Option<Json>)
    requires card.Obj? && WellFormed(card) && (hints.Some? ==> WellFormed(hints.value))
    ensures var ext := Extend(card, kem, agent, sign, hints).value.members;
            && FieldsOk(ext)
            && StringAt(ext, SIGNATURE) == Some(sign(SignedBody(card, kem, agent)))
            && (RebuiltBody(ext) == SignedBody(card, kem, agent) <==> NoReservedKey(card.members))
  {
    hide Get, Put, Stamped, Stripped, WellFormed, Canonical, NoReservedKey;
    ExtendedFields(card, kem, agent, sign, hints);
    StripRestoresIff(card.members, Extend(card, kem, agent, sign, hints).value.members);
  }

  /** A card extended by an honest signer verifies, and yields its own keys. */
  lemma ExtendThenVerify(card: Json, kem: string, agent: string, sign: Body -> string, check: (Body, string) -> bool, hints: Option<Json>)
    requires card.Obj? && WellFormed(card) && (hints.Some? ==> WellFormed(hints.value))
    requires NoReservedKey(card.members)
    requires forall b :: check(b, sign(b))
    ensures Verify(Extend(card, kem, agent, sign, hints).value, check)
            == Some(Extension(CARD_VERSION, kem, agent, sign(SignedBody(card, kem, agent))))
  {
    VerifyRebuildsIff(card, kem, agent, sign, hints);
  }

  /** Writing, replacing or removing the hints changes no verdict. */
  lemma HintsDoNotMatter(ms: seq<Member>, hints: Json, check: (Body, string) -> bool)
    requires ObjectOk(ms) && WellFormed(hints)
    ensures Verify(Obj(Put(ms, HINTS, hints)), check) == Verify(Obj(ms), check)
    ensures Verify(Obj(Without(ms, HINTS)), check) == Verify(Obj(ms), check)
  {
    DistinctConstants();
    PutOk(ms, HINTS, hints);
    WithoutOk(ms, HINTS);
    forall q ensures q != HINTS ==> Get(Put(ms, HINTS, hints), q) == Get(ms, q) == Get(Without(ms, HINTS), q) {
      PutGet(ms, HINTS, hints, q);
      WithoutGet(ms, HINTS, q);
    }
    SameVerdict(Put(ms, HINTS, hints), ms, check);
    SameVerdict(Without(ms, HINTS), ms, check);
  }

  lemma SameStripped(a: seq<Member>, b: seq<Member>)
    requires ObjectOk(a) && ObjectOk(b)
    requires forall q :: q != HINTS ==> Get(a, q) == Get(b, q)
    ensures Canonical(Obj(Stripped(a))) == Canonical(Obj(Stripped(b)))
  {
    hide Get, Stripped, WellFormed, Canonical;
    StrippedOk(a);
    StrippedOk(b);
    CanonicalByField(Stripped(a), Stripped(b));
    forall q ensures SameOption(Get(Stripped(a), q), Get(Stripped(b), q)) {
      StrippedGet(a, q);
      StrippedGet(b, q);
      FieldReflexive(Stripped(a), q);
    }
  }

  lemma SameVerdict(a: seq<Member>, b: seq<Member>, check: (Body, string) -> bool)
    requires ObjectOk(a) && ObjectOk(b)
    requires forall q :: q != HINTS ==> Get(a, q) == Get(b, q)
    ensures Verify(Obj(a), check) == Verify(Obj(b), check)
  {
    hide Get, Stripped, WellFormed, Canonical;
    DistinctConstants();
    SameStripped(a, b);
  }

  lemma StripSameIff(a: seq<Member>, b: seq<Member>)
    requires ObjectOk(a) && ObjectOk(b)
    ensures Canonical(Obj(Stripped(a))) == Canonical(Obj(Stripped(b)))
            <==> forall key :: !Reserved(key) ==> SameOption(Get(a, key), Get(b, key))
  {
    hide Get, Stripped, WellFormed, Canonical;
    StrippedOk(a);
    StrippedOk(b);
    CanonicalByField(Stripped(a), Stripped(b));
    forall key ensures SameOption(Get(Stripped(a), key), Get(Stripped(b), key)) <==> (Reserved(key) || SameOption(Get(a, key), Get(b, key))) {
      StrippedGet(a, key);
      StrippedGet(b, key);
    }
  }

  lemma ReservedSameIff(a: seq<Member>, b: seq<Member>)
    requires FieldsOk(a) && FieldsOk(b)
    ensures SameOption(Get(a, VERSION), Get(b, VERSION))
    ensures SameOption(Get(a, KEM), Get(b, KEM)) <==> StringAt(a, KEM) == StringAt(b, KEM)
    ensures SameOption(Get(a, AGENT), Get(b, AGENT)) <==> StringAt(a, AGENT) == StringAt(b, AGENT)
    ensures SameOption(Get(a, SIGNATURE), Get(b, SIGNATURE)) <==> StringAt(a, SIGNATURE) == StringAt(b, SIGNATURE)
  {
    hide Get;
  }

  /** Agreement on every field but the hints, up to key order. */
  ghost predicate AgreeButHints(a: seq<Member>, b: seq<Member>) {
    forall key :: key != HINTS ==> SameOption(Get(a, key), Get(b, key))
  }

  /** The signature check sees the same body and signature for two cards exactly
      when they agree, up to key order, on every field but the hints. */
  lemma SignatureCoversCard(a: seq<Member>, b: seq<Member>)
    requires ObjectOk(a) && ObjectOk(b) && FieldsOk(a) && FieldsOk(b)
    ensures (RebuiltBody(a) == RebuiltBody(b) && StringAt(a, SIGNATURE) == StringAt(b, SIGNATURE))
            <==> AgreeButHints(a, b)
  {
    StripSameIff(a, b);
    ReservedSameIff(a, b);
    DistinctConstants();
    hide Get, Stripped, WellFormed, Canonical, SameOption, StringAt, FieldsOk, VersionOk;
    var same := RebuiltBody(a) == RebuiltBody(b) && StringAt(a, SIGNATURE) == StringAt(b, SIGNATURE);
    if same {
      forall key | key != HINTS ensures SameOption(Get(a, key), Get(b, key)) {
      }
    }
    if AgreeButHints(a, b) {
      assert SameOption(Get(a, KEM), Get(b, KEM)) && SameOption(Get(a, AGENT), Get(b, AGENT));
      assert SameOption(Get(a, SIGNATURE), Get(b, SIGNATURE));
      assert forall key :: !Reserved(key) ==> SameOption(Get(a, key), Get(b, key));
    }
  }

  /** Verification accepts exactly the objects whose version reads 1, whose two keys
      and signature are strings, and whose signature passes the check over the card
      without the reserved fields, that version and those keys; and it yields them. */
  lemma VerifyAcceptsIff(ms: seq<Member>, check: (Body, string) -> bool, kem: string, agent: string, signature: string)
    ensures Verify(Obj(ms), check) == Some(Extension(1, kem, agent, signature)) <==>
            && Get(ms, "fetchit_card_version") == Some(Num(Int(1))) && Get(ms, "fetchit_kem_public_key_b64") == Some(Str(kem))
            && Get(ms, "fetchit_agent_public_key_b64") == Some(Str(agent))
            && Get(ms, "fetchit_card_signature_b64") == Some(Str(signature))
            && check(Body(Canonical(Obj(Stripped(ms))), 1, kem, agent), signature)
    ensures Verify(Obj(ms), check).Some? ==> Verify(Obj(ms), check).value.version == 1
  {
    hide Get, Stripped, Canonical;
  }

  /** So a signature that fails the check is refused, and so is what is no object
      or lacks a field. */
  lemma VerifyRefuses(card: Json, check: (Body, string) -> bool)
    ensures !card.Obj? ==> Verify(card, check).None?
    ensures card.Obj? && !FieldsOk(card.members) ==> Verify(card, check).None?
    ensures card.Obj? && FieldsOk(card.members) && !check(RebuiltBody(card.members), StringAt(card.members, SIGNATURE).value)
            ==> Verify(card, check).None?
  {
    hide Get, Stripped, Canonical;
  }

  lemma SameFieldsOk(a: seq<Member>, b: seq<Member>)
    requires FieldsOk(a) && AgreeButHints(b, a)
    ensures FieldsOk(b)
  {
    DistinctConstants();
    hide Get;
    assert SameOption(Get(b, VERSION), Get(a, VERSION)) && SameOption(Get(b, KEM), Get(a, KEM));
    assert SameOption(Get(b, AGENT), Get(a, AGENT)) && SameOption(Get(b, SIGNATURE), Get(a, SIGNATURE));
  }

  lemma AcceptedIffSameBody(ms: seq<Member>, ext: seq<Member>, body: Body, sign: Body -> string, check: (Body, string) -> bool)
    requires ObjectOk(ms) && ObjectOk(ext) && FieldsOk(ms) && FieldsOk(ext)
    requires forall b, c :: check(b, sign(c)) <==> b == c
    requires StringAt(ms, SIGNATURE) == StringAt(ext, SIGNATURE) == Some(sign(body)) && RebuiltBody(ext) == body
    ensures Verify(Obj(ms), check).Some? <==> AgreeButHints(ms, ext)
  {
    hide Get, Stripped, WellFormed, Canonical, SameOption, VersionOk;
    SignatureCoversCard(ms, ext);
    assert check(RebuiltBody(ms), sign(body)) <==> RebuiltBody(ms) == body;
  }

  /** With a signature that fits the body it was made for and no other: a card that
      carries the signature of an extended card verifies if and only if it agrees
      with that card, up to key order, on every field but the hints. */
  lemma TamperedIsRefused(card: Json, kem: string, agent: string, sign: Body -> string, check: (Body, string) -> bool,
                          hints: Option<Json>, ms: seq<Member>)
    requires card.Obj? && WellFormed(card) && (hints.Some? ==> WellFormed(hints.value)) && NoReservedKey(card.members)
    requires forall b, c :: check(b, sign(c)) <==> b == c
    requires ObjectOk(ms) && Get(ms, SIGNATURE) == Get(Extend(card, kem, agent, sign, hints).value.members, SIGNATURE)
    ensures Verify(Obj(ms), check).Some? <==> AgreeButHints(ms, Extend(card, kem, agent, sign, hints).value.members)
  {
    hide Get, Put, Stamped, Stripped, WellFormed, Canonical, VersionOk, NoReservedKey, AgreeButHints;
    var ext := Extend(card, kem, agent, sign, hints).value.members;
    VerifyRebuildsIff(card, kem, agent, sign, hints);
    ExtendedFields(card, kem, agent, sign, hints);
    if AgreeButHints(ms, ext) {
      SameFieldsOk(ext, ms);
    }
    if FieldsOk(ms) {
      AcceptedIffSameBody(ms, ext, SignedBody(card, kem, agent), sign, check);
    }
  }
}
