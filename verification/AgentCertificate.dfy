/** The length-prefixed signing input of device certificates, and minting and
    verifying them over an ideal signature scheme
    (crates/fetchit-chat/src/fabric.rs). */
module AgentCertificate {
  import opened Basics

  type Bytes = seq<Byte>

  const U32_MAX: nat := 0xffff_ffff
  const U64_MAX: nat := 0xffff_ffff_ffff_ffff

  // ------------------------------------------------------- big-endian integers

  function Power256(k: nat): nat { if k == 0 then 1 else 256 * Power256(k - 1) }

  /** The `k` low-order bytes of `n`, most significant first. */
  function BigEndian(n: nat, k: nat): (r: Bytes)
    ensures |r| == k
  {
    if k == 0 then [] else BigEndian(n / 256, k - 1) + [n % 256]
  }

  function ValueOf(s: Bytes): nat {
    if s == [] then 0 else ValueOf(s[..|s| - 1]) * 256 + s[|s| - 1]
  }

  lemma {:induction false} BigEndianValue(n: nat, k: nat)
    requires n < Power256(k)
    ensures ValueOf(BigEndian(n, k)) == n
  {
    if k > 0 {
      BigEndianValue(n / 256, k - 1);
      var r := BigEndian(n, k);
      assert r[..|r| - 1] == BigEndian(n / 256, k - 1);
    }
  }

  lemma Widths()
    ensures Power256(4) == U32_MAX + 1 && Power256(8) == U64_MAX + 1
  {
    assert Power256(1) == 256 && Power256(2) == 65536 && Power256(3) == 16777216;
    assert Power256(4) == 4294967296;
    assert Power256(5) == 1099511627776 && Power256(6) == 281474976710656;
    assert Power256(7) == 72057594037927936;
  }

  lemma BigEndianInjective(m: nat, n: nat, k: nat)
    requires m < Power256(k) && n < Power256(k) && BigEndian(m, k) == BigEndian(n, k)
    ensures m == n
  {
    BigEndianValue(m, k);
    BigEndianValue(n, k);
  }

  // ----------------------------------------------------------- length prefixes

  /** `u32_be(len) || bytes`, followed by `rest`. */
  function LpTo(x: Bytes, rest: Bytes): Bytes { BigEndian(|x|, 4) + (x + rest) }

  lemma Prefixes(a: Bytes, x: Bytes, b: Bytes, y: Bytes)
    requires |a| == |b| && a + x == b + y
    ensures a == b && x == y
  {
    assert a == (a + x)[..|a|] && b == (b + y)[..|b|];
    assert x == (a + x)[|a|..] && y == (b + y)[|b|..];
  }

  /** A length-prefixed field ends where it ends, whatever follows. */
  lemma LpUnique(x: Bytes, y: Bytes, s: Bytes, t: Bytes)
    requires |x| <= U32_MAX && |y| <= U32_MAX && LpTo(x, s) == LpTo(y, t)
    ensures x == y && s == t
  {
    Widths();
    hide Power256, BigEndian;
    Prefixes(BigEndian(|x|, 4), x + s, BigEndian(|y|, 4), y + t);
    BigEndianInjective(|x|, |y|, 4);
    Prefixes(x, s, y, t);
  }

  // ------------------------------------------------------------- signing input

  /** "fetchit-agent-cert-v1". */
  const DOMAIN: Bytes :=
    [102, 101, 116, 99, 104, 105, 116, 45, 97, 103, 101, 110, 116, 45, 99, 101, 114, 116, 45, 118, 49]

  lemma DomainText()
    ensures |DOMAIN| == 21 && forall i :: 0 <= i < 21 ==> DOMAIN[i] == "fetchit-agent-cert-v1"[i] as int
  {
  }

  datatype Fields = Fields(userId: Bytes, agentId: Bytes, agentKey: Bytes, kemKey: Bytes, addedAtMs: nat)

  predicate Encodable(f: Fields) {
    && |f.userId| <= U32_MAX && |f.agentId| <= U32_MAX && |f.agentKey| <= U32_MAX && |f.kemKey| <= U32_MAX
    && f.addedAtMs <= U64_MAX
  }

  function Layout(f: Fields): Bytes {
    DOMAIN + LpTo(f.userId, LpTo(f.agentId, LpTo(f.agentKey, LpTo(f.kemKey, BigEndian(f.addedAtMs, 8)))))
  }

  /** `cert_signing_input`: refused when a field is longer than a u32 can say. */
  function SigningInput(f: Fields): Option<Bytes> {
    if |f.userId| <= U32_MAX && |f.agentId| <= U32_MAX && |f.agentKey| <= U32_MAX && |f.kemKey| <= U32_MAX
    then Some(Layout(f)) else None
  }

  /** Different certificates never share a signing input. */
  lemma SigningInputInjective(f: Fields, g: Fields)
    requires Encodable(f) && Encodable(g)
    ensures SigningInput(f) == SigningInput(g) <==> f == g
  {
    if SigningInput(f) == SigningInput(g) {
      hide LpTo, BigEndian;
      var tf, tg := BigEndian(f.addedAtMs, 8), BigEndian(g.addedAtMs, 8);
      var kf, kg := LpTo(f.kemKey, tf), LpTo(g.kemKey, tg);
      var df, dg := LpTo(f.agentKey, kf), LpTo(g.agentKey, kg);
      var af, ag := LpTo(f.agentId, df), LpTo(g.agentId, dg);
      Prefixes(DOMAIN, LpTo(f.userId, af), DOMAIN, LpTo(g.userId, ag));
      LpUnique(f.userId, g.userId, af, ag);
      LpUnique(f.agentId, g.agentId, df, dg);
      LpUnique(f.agentKey, g.agentKey, kf, kg);
      LpUnique(f.kemKey, g.kemKey, tf, tg);
      Widths();
      BigEndianInjective(f.addedAtMs, g.addedAtMs, 8);
    }
  }

  /** `push_lp`: append one length-prefixed field, or refuse. */
  method PushLp(out: Bytes, bytes: Bytes) returns (r: Option<Bytes>)
    ensures r == if |bytes| <= U32_MAX then Some(out + LpTo(bytes, [])) else None
  {
    if |bytes| > U32_MAX {
      return None;
    }
    var buf := out + BigEndian(|bytes|, 4);
    buf := buf + bytes;
    assert buf == out + (BigEndian(|bytes|, 4) + (bytes + []));
    return Some(buf);
  }

  lemma LpAppends(x: Bytes, rest: Bytes)
    ensures LpTo(x, rest) == LpTo(x, []) + rest
  {
    hide BigEndian;
    assert BigEndian(|x|, 4) + (x + rest) == (BigEndian(|x|, 4) + (x + [])) + rest;
  }

  /** The signing input as the source builds it, field by field. */
  method BuildSigningInput(f: Fields) returns (r: Option<Bytes>)
    ensures r == SigningInput(f)
  {
    var a := PushLp(DOMAIN, f.userId);
    if a.None? {
      return None;
    }
    var b := PushLp(a.value, f.agentId);
    if b.None? {
      return None;
    }
    var c := PushLp(b.value, f.agentKey);
    if c.None? {
      return None;
    }
    var d := PushLp(c.value, f.kemKey);
    if d.None? {
      return None;
    }
    LayoutByParts(f);
    return Some(d.value + BigEndian(f.addedAtMs, 8));
  }

  lemma LayoutByParts(f: Fields)
    ensures Layout(f) ==
            DOMAIN + LpTo(f.userId, []) + LpTo(f.agentId, []) + LpTo(f.agentKey, []) + LpTo(f.kemKey, []) + BigEndian(f.addedAtMs, 8)
  {
    hide LpTo, BigEndian;
    var t := BigEndian(f.addedAtMs, 8);
    var k := LpTo(f.kemKey, t);
    var d := LpTo(f.agentKey, k);
    LpAppends(f.kemKey, t);
    LpAppends(f.agentKey, k);
    LpAppends(f.agentId, d);
    LpAppends(f.userId, LpTo(f.agentId, d));
    var u, a, dk, kk := LpTo(f.userId, []), LpTo(f.agentId, []), LpTo(f.agentKey, []), LpTo(f.kemKey, []);
    assert DOMAIN + (u + (a + (dk + (kk + t)))) == DOMAIN + u + a + dk + kk + t;
  }

  // ------------------------------------------------------- minting and checking

  /** ML-DSA and the id derivations, as functions of the public key. */
  datatype Scheme = Scheme(sign: (Bytes, Bytes) -> Bytes, verify: (Bytes, Bytes, Bytes) -> bool,
                           userIdOf: Bytes -> Bytes, agentIdOf: Bytes -> Bytes)

  /** A signature verifies for the message it was made for and for no other. */
  ghost predicate Ideal(s: Scheme) {
    && (forall pk, m :: s.verify(pk, m, s.sign(pk, m)))
    && (forall pk, m, n :: s.verify(pk, n, s.sign(pk, m)) ==> n == m)
  }

  datatype Certificate = Certificate(fields: Fields, signature: Bytes)

  /** `mint_agent_certificate`. */
  function Mint(s: Scheme, userKey: Bytes, agentId: Bytes, agentKey: Bytes, kemKey: Bytes, addedAtMs: nat): Option<Certificate> {
    if s.agentIdOf(agentKey) != agentId then None
    else
      var f := Fields(s.userIdOf(userKey), agentId, agentKey, kemKey, addedAtMs);
      match SigningInput(f)
      case None => None
      case Some(input) => Some(Certificate(f, s.sign(userKey, input)))
  }

  /** `verify_agent_certificate`. */
  predicate Verifies(s: Scheme, c: Certificate, userKey: Bytes) {
    && s.userIdOf(userKey) == c.fields.userId
    && s.agentIdOf(c.fields.agentKey) == c.fields.agentId
    && SigningInput(c.fields).Some?
    && s.verify(userKey, SigningInput(c.fields).value, c.signature)
  }

  /** Every minted certificate verifies under its user key; and the minted
      signature makes a certificate verify exactly when no signed field was
      changed. */
  lemma MintedVerifiesAlone(s: Scheme, userKey: Bytes, agentId: Bytes, agentKey: Bytes, kemKey: Bytes, addedAtMs: nat, g: Fields)
    requires Ideal(s) && addedAtMs <= U64_MAX && g.addedAtMs <= U64_MAX
    requires Mint(s, userKey, agentId, agentKey, kemKey, addedAtMs).Some?
    ensures var c := Mint(s, userKey, agentId, agentKey, kemKey, addedAtMs).value;
            && Verifies(s, c, userKey)
            && (Verifies(s, Certificate(g, c.signature), userKey) <==> g == c.fields)
  {
    var c := Mint(s, userKey, agentId, agentKey, kemKey, addedAtMs).value;
    if SigningInput(g).Some? {
      SigningInputInjective(c.fields, g);
    }
  }

  /** Minting refuses exactly an agent id that is not the key's own or a field too
      long to encode; otherwise the certificate states what was asked for, under the
      user id of the signing key. */
  lemma MintStates(s: Scheme, userKey: Bytes, agentId: Bytes, agentKey: Bytes, kemKey: Bytes, addedAtMs: nat)
    ensures var m := Mint(s, userKey, agentId, agentKey, kemKey, addedAtMs);
            && (m.Some? <==> s.agentIdOf(agentKey) == agentId && |s.userIdOf(userKey)| <= U32_MAX && |agentId| <= U32_MAX
                             && |agentKey| <= U32_MAX && |kemKey| <= U32_MAX)
            && (m.Some? ==> m.value.fields == Fields(s.userIdOf(userKey), agentId, agentKey, kemKey, addedAtMs))
  {
  }

  /** A certificate for another account, for a foreign device key, or with a
      signature that fails is refused. */
  lemma RefusesForeign(s: Scheme, c: Certificate, userKey: Bytes)
    ensures s.userIdOf(userKey) != c.fields.userId ==> !Verifies(s, c, userKey)
    ensures s.agentIdOf(c.fields.agentKey) != c.fields.agentId ==> !Verifies(s, c, userKey)
    ensures Encodable(c.fields) && !s.verify(userKey, Layout(c.fields), c.signature) ==> !Verifies(s, c, userKey)
  {
    hide Layout;
  }

  // ---------------------------------------------------------- reading the layout

  /** A length-prefixed field and what follows it. */
  function ReadLp(t: Bytes): Option<(Bytes, Bytes)> {
    if |t| < 4 then None
    else
      var n: nat := t[0] as int * 16777216 + t[1] as int * 65536 + t[2] as int * 256 + t[3];
      if |t| < 4 + n then None else Some((t[4..4 + n], t[4 + n..]))
  }

  /** The fields in the order of the layout: user id, agent id, device key, KEM key,
      then eight bytes of time. */
  function ReadLayout(t: Bytes): Option<Fields> {
    if |t| < |DOMAIN| || t[..|DOMAIN|] != DOMAIN then None
    else
      match ReadLp(t[|DOMAIN|..])
      case None => None
      case Some((user, a)) =>
        match ReadLp(a)
        case None => None
        case Some((agent, b)) =>
          match ReadLp(b)
          case None => None
          case Some((key, c)) =>
            match ReadLp(c)
            case None => None
            case Some((kem, d)) => if |d| == 8 then Some(Fields(user, agent, key, kem, ValueOf(d))) else None
  }

  lemma FourBytes(s: Bytes)
    requires |s| == 4
    ensures ValueOf(s) == s[0] as int * 16777216 + s[1] as int * 65536 + s[2] as int * 256 + s[3]
  {
    assert s[..3][..2] == s[..2] && s[..2][..1] == s[..1] && s[..1][..0] == [];
    assert ValueOf(s[..1]) == s[0];
    assert ValueOf(s[..2]) == s[0] as int * 256 + s[1];
    assert ValueOf(s[..3]) == s[0] as int * 65536 + s[1] as int * 256 + s[2];
  }

  lemma ReadLpBack(x: Bytes, rest: Bytes)
    requires |x| <= U32_MAX
    ensures ReadLp(LpTo(x, rest)) == Some((x, rest))
  {
    Widths();
    hide Power256;
    var p := BigEndian(|x|, 4);
    BigEndianValue(|x|, 4);
    FourBytes(p);
    hide BigEndian, ValueOf;
    var t := p + (x + rest);
    assert t[0] == p[0] && t[1] == p[1] && t[2] == p[2] && t[3] == p[3];
    assert t[4..4 + |x|] == x && t[4 + |x|..] == rest;
  }

  /** The signing input reads back, field by field in that order. */
  lemma LayoutReadsBack(f: Fields)
    requires Encodable(f)
    ensures ReadLayout(Layout(f)) == Some(f)
  {
    hide LpTo, ReadLp, BigEndian, ValueOf, Power256;
    var t := BigEndian(f.addedAtMs, 8);
    var k := LpTo(f.kemKey, t);
    var d := LpTo(f.agentKey, k);
    var a := LpTo(f.agentId, d);
    var u := LpTo(f.userId, a);
    assert (DOMAIN + u)[..|DOMAIN|] == DOMAIN && (DOMAIN + u)[|DOMAIN|..] == u;
    ReadLpBack(f.userId, a);
    ReadLpBack(f.agentId, d);
    ReadLpBack(f.agentKey, k);
    ReadLpBack(f.kemKey, t);
    Widths();
    BigEndianValue(f.addedAtMs, 8);
  }
}
