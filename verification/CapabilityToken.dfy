/** The text a token's tag is computed over, and which tokens share one. */
module TokenPayload {
  import opened ByteStrings
  import opened MachineIntegers

  const COLON: bv8 := 58

  datatype Token = Token(moduleId: Bytes, capability: Bytes, issuedAt: U64, expiresAt: U64, nonce: Bytes, hmac: Bytes)

  const DIGITS: Bytes := [48, 49, 50, 51, 52, 53, 54, 55, 56, 57]

  function Decimal(n: nat): Bytes {
    if n < 10 then [DIGITS[n]] else Decimal(n / 10) + [DIGITS[n % 10]]
  }

  /** The five signed fields, joined by colons. */
  function Payload(t: Token): Bytes {
    t.moduleId + [COLON] + t.capability + [COLON] + Decimal(t.issuedAt) + [COLON] + Decimal(t.expiresAt)
    + [COLON] + t.nonce
  }

  lemma {:induction false} DecimalHasNoColon(n: nat)
    ensures COLON !in Decimal(n)
  {
    if n >= 10 {
      DecimalHasNoColon(n / 10);
    }
  }

  /** The number a decimal digit stands for. */
  function DigitValue(c: bv8): Option<nat> {
    if c == 48 then Some(0) else if c == 49 then Some(1) else if c == 50 then Some(2) else if c == 51 then Some(3)
    else if c == 52 then Some(4) else if c == 53 then Some(5) else if c == 54 then Some(6) else if c == 55 then Some(7)
    else if c == 56 then Some(8) else if c == 57 then Some(9) else None
  }

  /** The number a text of decimal digits stands for. */
  function ReadDecimal(s: Bytes): Option<nat> {
    if s == [] then None
    else if |s| == 1 then DigitValue(s[0])
    else
      var high, low := ReadDecimal(s[..|s| - 1]), DigitValue(s[|s| - 1]);
      if high.None? || low.None? then None else Some(10 * high.value + low.value)
  }

  lemma DigitReadsBack(d: nat)
    requires d < 10
    ensures DigitValue(DIGITS[d]) == Some(d) && (DIGITS[d] == 48 <==> d == 0)
  {
  }

  /** A printed number reads back, and starts with no zero of its own. */
  lemma {:induction false} DecimalReadsBack(n: nat)
    ensures |Decimal(n)| >= 1 && ReadDecimal(Decimal(n)) == Some(n)
    ensures Decimal(n)[0] == 48 <==> n == 0
  {
    DigitReadsBack(n % 10);
    if n >= 10 {
      var s := Decimal(n);
      DecimalReadsBack(n / 10);
      assert s[..|s| - 1] == Decimal(n / 10);
    }
  }

  lemma DecimalInjective(m: nat, n: nat)
    requires Decimal(m) == Decimal(n)
    ensures m == n
  {
    DecimalReadsBack(m);
    DecimalReadsBack(n);
  }

  /** The parts of a text between its colons. */
  function Fields(s: Bytes): (parts: seq<Bytes>)
    ensures |parts| >= 1
  {
    if s == [] then [[]]
    else
      var rest := Fields(s[1..]);
      if s[0] == COLON then [[]] + rest else [[s[0]] + rest[0]] + rest[1..]
  }

  lemma {:induction false} FieldsOfOne(a: Bytes)
    requires COLON !in a
    ensures Fields(a) == [a]
  {
    if a != [] {
      FieldsOfOne(a[1..]);
      assert [a[0]] + a[1..] == a;
    }
  }

  lemma {:induction false} FieldsOfJoined(a: Bytes, x: Bytes)
    requires COLON !in a
    ensures Fields(a + ([COLON] + x)) == [a] + Fields(x)
    decreases |a|
  {
    var s := a + ([COLON] + x);
    if a == [] {
      assert s[1..] == x;
    } else {
      assert s[1..] == a[1..] + ([COLON] + x);
      FieldsOfJoined(a[1..], x);
      assert [a[0]] + a[1..] == a;
    }
  }

  /** Without colons in the names, the parts of the payload are the five signed fields in their order. */
  lemma PayloadFields(t: Token)
    requires COLON !in t.moduleId && COLON !in t.capability && COLON !in t.nonce
    ensures Fields(Payload(t)) == [t.moduleId, t.capability, Decimal(t.issuedAt), Decimal(t.expiresAt), t.nonce]
  {
    var p3 := Decimal(t.expiresAt) + ([COLON] + t.nonce);
    var p2 := Decimal(t.issuedAt) + ([COLON] + p3);
    var p1 := t.capability + ([COLON] + p2);
    assert Payload(t) == t.moduleId + ([COLON] + p1);
    DecimalHasNoColon(t.issuedAt);
    DecimalHasNoColon(t.expiresAt);
    FieldsOfJoined(t.moduleId, p1);
    FieldsOfJoined(t.capability, p2);
    FieldsOfJoined(Decimal(t.issuedAt), p3);
    FieldsOfJoined(Decimal(t.expiresAt), t.nonce);
    FieldsOfOne(t.nonce);
  }

  /** Where the separators of a joined text can be. */
  lemma Separators(a: Bytes, x: Bytes)
    ensures var s := a + [COLON] + x;
            && s[|a|] == COLON
            && (COLON !in a ==> forall k | 0 <= k < |a| :: s[k] != COLON)
            && (COLON !in x ==> forall k | |a| < k < |s| :: s[k] != COLON)
  {
    var s := a + [COLON] + x;
    assert forall k | |a| < k < |s| :: s[k] == x[k - |a| - 1];
  }

  lemma SplitAt(a: Bytes, x: Bytes, b: Bytes, y: Bytes)
    requires a + [COLON] + x == b + [COLON] + y && |a| == |b|
    ensures a == b && x == y
  {
    var s := a + [COLON] + x;
    assert s[..|a|] == a && s[..|b|] == b && s[|a| + 1..] == x && s[|b| + 1..] == y;
  }

  /** A text splits at its last separator in one way, and at its first, and at its only one. */
  lemma SplitOneWay(a: Bytes, x: Bytes, b: Bytes, y: Bytes)
    requires a + [COLON] + x == b + [COLON] + y
    requires || (COLON !in x && COLON !in y)
             || (COLON !in a && COLON !in b)
             || (COLON !in a && COLON !in x)
    ensures a == b && x == y
  {
    Separators(a, x);
    Separators(b, y);
    SplitAt(a, x, b, y);
  }

  function Prefix(t: Token): Bytes {
    t.moduleId + [COLON] + t.capability
  }

  /** Two payloads agree exactly when the last three fields do and module and capability join to one text. */
  lemma SamePayload(t: Token, u: Token)
    requires COLON !in t.nonce && COLON !in u.nonce
    ensures Payload(t) == Payload(u) <==>
            Prefix(t) == Prefix(u) && t.issuedAt == u.issuedAt && t.expiresAt == u.expiresAt && t.nonce == u.nonce
  {
    if Payload(t) == Payload(u) {
      var t1, u1 := Prefix(t) + [COLON] + Decimal(t.issuedAt), Prefix(u) + [COLON] + Decimal(u.issuedAt);
      SplitOneWay(t1 + [COLON] + Decimal(t.expiresAt), t.nonce, u1 + [COLON] + Decimal(u.expiresAt), u.nonce);
      DecimalHasNoColon(t.expiresAt);
      DecimalHasNoColon(u.expiresAt);
      SplitOneWay(t1, Decimal(t.expiresAt), u1, Decimal(u.expiresAt));
      DecimalHasNoColon(t.issuedAt);
      DecimalHasNoColon(u.issuedAt);
      SplitOneWay(Prefix(t), Decimal(t.issuedAt), Prefix(u), Decimal(u.issuedAt));
      DecimalInjective(t.issuedAt, u.issuedAt);
      DecimalInjective(t.expiresAt, u.expiresAt);
    }
  }

  /** Without colons in module ids and nonces, the payload determines all five fields. */
  lemma PayloadDeterminesToken(t: Token, u: Token)
    requires COLON !in t.moduleId && COLON !in u.moduleId && COLON !in t.nonce && COLON !in u.nonce
    requires Payload(t) == Payload(u)
    ensures t == u.(hmac := t.hmac)
  {
    SamePayload(t, u);
    SplitOneWay(t.moduleId, t.capability, u.moduleId, u.capability);
  }

  function Colons(s: Bytes): nat {
    if s == [] then 0 else (if s[0] == COLON then 1 else 0) + Colons(s[1..])
  }

  lemma {:induction false} ColonsInJoined(a: Bytes, x: Bytes)
    ensures Colons(a + [COLON] + x) == Colons(a) + 1 + Colons(x)
    decreases |a|
  {
    var s := a + [COLON] + x;
    if a == [] {
      assert s[1..] == x;
    } else {
      assert s[1..] == a[1..] + [COLON] + x;
      ColonsInJoined(a[1..], x);
    }
  }

  lemma {:induction false} NoColons(s: Bytes)
    ensures Colons(s) == 0 <==> COLON !in s
  {
    if s != [] {
      NoColons(s[1..]);
    }
  }

  /** The separators come on top of what the texts hold. */
  lemma PayloadColons(t: Token)
    ensures Colons(Payload(t)) == 4 + Colons(t.moduleId) + Colons(t.capability) + Colons(t.nonce)
  {
    var p := Prefix(t) + [COLON] + Decimal(t.issuedAt);
    ColonsInJoined(t.moduleId, t.capability);
    ColonsInJoined(Prefix(t), Decimal(t.issuedAt));
    ColonsInJoined(p, Decimal(t.expiresAt));
    ColonsInJoined(p + [COLON] + Decimal(t.expiresAt), t.nonce);
    DecimalHasNoColon(t.issuedAt);
    DecimalHasNoColon(t.expiresAt);
    NoColons(Decimal(t.issuedAt));
    NoColons(Decimal(t.expiresAt));
  }

  lemma FewColons(t: Token)
    ensures Colons(Payload(t)) == 4 <==> COLON !in t.moduleId && COLON !in t.capability && COLON !in t.nonce
  {
    PayloadColons(t);
    NoColons(t.moduleId);
    NoColons(t.capability);
    NoColons(t.nonce);
  }

  /** A payload with just the four separators belongs to one token, whatever the other token looks like. */
  lemma PlainPayloadIsUnique(t: Token, u: Token)
    requires COLON !in t.moduleId && COLON !in t.capability && COLON !in t.nonce
    requires Payload(t) == Payload(u)
    ensures u == t.(hmac := u.hmac)
  {
    FewColons(t);
    FewColons(u);
    PayloadDeterminesToken(u, t);
  }

  ghost predicate Twins(t: Token, u: Token) {
    Payload(u) == Payload(t) && u != t.(hmac := u.hmac)
  }

  ghost predicate HasTwin(t: Token) {
    exists u :: Twins(t, u)
  }

  /**
   For a token with a colon-free nonce, as every issued one has: another token shares the payload
   exactly when the module id or the capability holds a colon.
   */
  lemma TwinIffColon(t: Token)
    requires COLON !in t.nonce
    ensures HasTwin(t) <==> COLON in t.moduleId || COLON in t.capability
  {
    if COLON in t.moduleId {
      var k :| 0 <= k < |t.moduleId| && t.moduleId[k] == COLON;
      var u := t.(moduleId := t.moduleId[..k], capability := t.moduleId[k + 1..] + [COLON] + t.capability);
      assert t.moduleId == t.moduleId[..k] + [COLON] + t.moduleId[k + 1..];
      assert Prefix(u) == Prefix(t);
      SamePayload(u, t);
      assert Twins(t, u);
    } else if COLON in t.capability {
      var k :| 0 <= k < |t.capability| && t.capability[k] == COLON;
      var u := t.(moduleId := t.moduleId + [COLON] + t.capability[..k], capability := t.capability[k + 1..]);
      assert t.capability == t.capability[..k] + [COLON] + t.capability[k + 1..];
      assert Prefix(u) == Prefix(t);
      SamePayload(u, t);
      assert Twins(t, u);
    } else {
      forall u | Payload(u) == Payload(t) ensures u == t.(hmac := u.hmac) {
        PlainPayloadIsUnique(t, u);
      }
    }
  }

  /** Numbers at the end of a capability can be read as the times, and the times as part of the nonce. */
  function Reread(t: Token, capability: Bytes, issuedAt: U64, expiresAt: U64): Token {
    Token(t.moduleId, capability, issuedAt, expiresAt,
          Decimal(t.issuedAt) + [COLON] + Decimal(t.expiresAt) + [COLON] + t.nonce, t.hmac)
  }

  lemma RereadSharesPayload(t: Token, x: Bytes, a: U64, b: U64)
    requires t.capability == x + [COLON] + Decimal(a) + [COLON] + Decimal(b)
    ensures Payload(Reread(t, x, a, b)) == Payload(t)
  {
    var u := Reread(t, x, a, b);
    var p := t.moduleId + [COLON] + x + [COLON] + Decimal(a) + [COLON] + Decimal(b);
    assert Prefix(t) == p;
    assert Payload(t) == p + [COLON] + u.nonce;
  }
}

/** Issuing and verifying tokens. The keyed and the plain hash are parameters. */
module CapabilityTokens {
  import opened ByteStrings
  import opened MachineIntegers
  import opened Base64Url
  import opened TokenPayload

  type Digest = d: Bytes | |d| == 32 witness seq(32, _ => 0)

  /** `mac(secret, text)` is the keyed hash, `nonceHash` the plain hash of time, counter, module and capability. */
  datatype Keys = Keys(secret: Bytes, mac: (Bytes, Bytes) -> Bytes, nonceHash: (U64, U64, Bytes, Bytes) -> Digest)

  function HexDigit(x: bv8): bv8
    requires x < 16
  {
    if x < 10 then x + 48 else x - 10 + 97
  }

  function HexEncode(data: Bytes): Bytes {
    if data == [] then [] else [HexDigit(data[0] >> 4), HexDigit(data[0] & 0x0F)] + HexEncode(data[1..])
  }

  function HexValue(c: bv8): Option<bv8> {
    if 48 <= c <= 57 then Some(c - 48) else if 97 <= c <= 102 then Some(c - 97 + 10) else None
  }

  /** The bytes a text of lower-case hexadecimal digits stands for. */
  function ReadHex(s: Bytes): Option<Bytes> {
    if s == [] then Some([])
    else if |s| == 1 then None
    else
      var high, low, rest := HexValue(s[0]), HexValue(s[1]), ReadHex(s[2..]);
      if high.None? || low.None? || rest.None? then None else Some([(high.value << 4) | low.value] + rest.value)
  }

  lemma NibblesJoin(x: bv8)
    ensures HexValue(HexDigit(x >> 4)) == Some(x >> 4) && HexValue(HexDigit(x & 0x0F)) == Some(x & 0x0F)
    ensures ((x >> 4) << 4) | (x & 0x0F) == x
  {
  }

  lemma {:induction false} HexReadsBack(data: Bytes)
    ensures ReadHex(HexEncode(data)) == Some(data)
  {
    if data != [] {
      NibblesJoin(data[0]);
      HexReadsBack(data[1..]);
      assert HexEncode(data)[2..] == HexEncode(data[1..]);
      assert [data[0]] + data[1..] == data;
    }
  }

  function Tag(keys: Keys, t: Token): Bytes {
    Encode(keys.mac(keys.secret, Payload(t)))
  }

  function SaturatingAdd(a: U64, b: U64): U64 {
    if a + b < U64_RANGE then a + b else U64_RANGE - 1
  }

  function Issued(keys: Keys, now: U64, count: U64, moduleId: Bytes, capability: Bytes, duration: U64): Token {
    var nonce := HexEncode(keys.nonceHash(now, count, moduleId, capability)[..8]);
    var t := Token(moduleId, capability, now, SaturatingAdd(now, duration), nonce, []);
    t.(hmac := Tag(keys, t))
  }

  /** What a token must satisfy: bound to the caller, not expired, tagged by this authority. */
  ghost predicate Valid(keys: Keys, t: Token, expected: Bytes, now: U64) {
    t.moduleId == expected && now <= t.expiresAt && t.hmac == Tag(keys, t)
  }

  class TokenAuthority {
    const keys: Keys
    /** The process-wide nonce counter. */
    var counter: U64

    constructor (keys: Keys)
      ensures this.keys == keys && counter == 0
    {
      this.keys := keys;
      counter := 0;
    }

    method Issue(now: U64, moduleId: Bytes, capability: Bytes, duration: U64) returns (token: Token)
      modifies this`counter
      ensures token.moduleId == moduleId && token.capability == capability && token.issuedAt == now
      ensures token.expiresAt == if now + duration < U64_RANGE then now + duration else U64_RANGE - 1
      ensures ReadHex(token.nonce) == Some(keys.nonceHash(now, old(counter), moduleId, capability)[..8])
      ensures Decode(token.hmac) == Some(keys.mac(keys.secret, Payload(token)))
      ensures token == Issued(keys, now, old(counter), moduleId, capability, duration)
      ensures counter == (old(counter) + 1) % U64_RANGE
      ensures forall expected: Bytes, later: U64 ::
                Valid(keys, token, expected, later) <==> expected == moduleId && later <= SaturatingAdd(now, duration)
    {
      var count := counter;
      counter := (counter + 1) % U64_RANGE;
      var hash := keys.nonceHash(now, count, moduleId, capability);
      token := Token(moduleId, capability, now, SaturatingAdd(now, duration), HexEncode(hash[..8]), []);
      var hmac := ComputeHmac(token);
      token := token.(hmac := hmac);
      HexReadsBack(hash[..8]);
      DecodeEncode(keys.mac(keys.secret, Payload(token)));
    }

    method ComputeHmac(token: Token) returns (hmac: Bytes)
      ensures hmac == Tag(keys, token)
    {
      hmac := Base64UrlEncode(keys.mac(keys.secret, Payload(token)));
    }

    method Verify(token: Token, expected: Bytes, now: U64) returns (ok: bool)
      ensures ok <==> token.moduleId == expected && now <= token.expiresAt
                      && Decode(token.hmac) == Some(keys.mac(keys.secret, Payload(token)))
      ensures ok <==> Valid(keys, token, expected, now)
    {
      TagReadsBack(keys, token);
      if token.moduleId != expected { return false; }
      if now > token.expiresAt { return false; }
      var hmac := ComputeHmac(token);
      ok := ConstantTimeEq(token.hmac, hmac);
    }
  }

  /** The tag is right exactly when it decodes to the keyed hash of the payload. */
  lemma TagReadsBack(keys: Keys, t: Token)
    ensures t.hmac == Tag(keys, t) <==> Decode(t.hmac) == Some(keys.mac(keys.secret, Payload(t)))
  {
    DecodeEncode(keys.mac(keys.secret, Payload(t)));
    if Decode(t.hmac).Some? { EncodeDecode(t.hmac); }
  }

  /** Collects the differing bits of all positions, and so tells exactly whether the strings are equal. */
  method ConstantTimeEq(a: Bytes, b: Bytes) returns (equal: bool)
    ensures equal <==> a == b
  {
    if |a| != |b| { return false; }
    var diff: bv8 := 0;
    for i := 0 to |a|
      invariant diff == 0 <==> a[..i] == b[..i]
    {
      OrOfXor(diff, a[i], b[i]);
      assert a[..i + 1] == a[..i] + [a[i]] && b[..i + 1] == b[..i] + [b[i]];
      diff := diff | (a[i] ^ b[i]);
    }
    assert a[..|a|] == a && b[..|b|] == b;
    return diff == 0;
  }

  lemma OrOfXor(diff: bv8, x: bv8, y: bv8)
    ensures diff | (x ^ y) == 0 <==> diff == 0 && x == y
  {
  }

  lemma {:induction false} HexHasNoColon(data: Bytes)
    ensures COLON !in HexEncode(data) && |HexEncode(data)| == 2 * |data|
  {
    if data != [] {
      HexHasNoColon(data[1..]);
    }
  }

  /** Tokens issued alike but at two counts have one nonce exactly when the first eight hash bytes agree. */
  lemma NoncesFollowCounter(keys: Keys, now: U64, i: U64, j: U64, m: Bytes, c: Bytes, duration: U64)
    ensures Issued(keys, now, i, m, c, duration).nonce == Issued(keys, now, j, m, c, duration).nonce
            <==> keys.nonceHash(now, i, m, c)[..8] == keys.nonceHash(now, j, m, c)[..8]
  {
    HexReadsBack(keys.nonceHash(now, i, m, c)[..8]);
    HexReadsBack(keys.nonceHash(now, j, m, c)[..8]);
  }

  /** An issued token is accepted for its own module until it expires, and never otherwise. */
  lemma IssueVerifyExact(keys: Keys, issuedAt: U64, count: U64, m: Bytes, c: Bytes, duration: U64,
                         expected: Bytes, now: U64)
    ensures Valid(keys, Issued(keys, issuedAt, count, m, c, duration), expected, now)
            <==> expected == m && (now <= issuedAt + duration || issuedAt + duration >= U64_RANGE)
  {
    var t := Issued(keys, issuedAt, count, m, c, duration);
    assert Payload(t) == Payload(t.(hmac := []));
  }

  /** Two properly tagged tokens with one tag have one payload, unless the keyed hash collides on the two. */
  lemma TagFixesPayload(keys: Keys, t: Token, u: Token)
    requires t.hmac == Tag(keys, t) && u.hmac == Tag(keys, u) && t.hmac == u.hmac
    requires keys.mac(keys.secret, Payload(t)) == keys.mac(keys.secret, Payload(u)) ==> Payload(t) == Payload(u)
    ensures Payload(t) == Payload(u)
  {
    EncodeInjective(keys.mac(keys.secret, Payload(t)), keys.mac(keys.secret, Payload(u)));
  }

  /**
   A tag moves to no other token if the module id and the capability were issued without colons:
   any token that carries the tag and is accepted is the issued one, unless the keyed hash
   collides on the two payloads.
   */
  lemma TagBindsToken(keys: Keys, issuedAt: U64, count: U64, m: Bytes, c: Bytes, duration: U64,
                      u: Token, expected: Bytes, now: U64)
    requires COLON !in m && COLON !in c
    requires var t := Issued(keys, issuedAt, count, m, c, duration);
             && u.hmac == t.hmac && Valid(keys, u, expected, now)
             && (keys.mac(keys.secret, Payload(t)) == keys.mac(keys.secret, Payload(u)) ==> Payload(t) == Payload(u))
    ensures u == Issued(keys, issuedAt, count, m, c, duration)
  {
    var t := Issued(keys, issuedAt, count, m, c, duration);
    assert Payload(t) == Payload(t.(hmac := []));
    TagFixesPayload(keys, t, u);
    HexHasNoColon(keys.nonceHash(issuedAt, count, m, c)[..8]);
    PlainPayloadIsUnique(t, u);
  }

  /** The keyed hash tells all texts apart under this secret. */
  ghost predicate CollisionFree(keys: Keys) {
    forall p: Bytes, q: Bytes :: keys.mac(keys.secret, p) == keys.mac(keys.secret, q) ==> p == q
  }

  /** `u` is not `t` but carries its tag, and its own module is let in with it. */
  ghost predicate Borrows(keys: Keys, t: Token, u: Token) {
    u != t && u.hmac == t.hmac && Valid(keys, u, u.moduleId, 0)
  }

  /** Even without collisions, a tag fits another token exactly when the issued names hold a colon. */
  lemma TagBindsIffNoColon(keys: Keys, issuedAt: U64, count: U64, m: Bytes, c: Bytes, duration: U64)
    requires CollisionFree(keys)
    ensures (exists u :: Borrows(keys, Issued(keys, issuedAt, count, m, c, duration), u))
            <==> COLON in m || COLON in c
  {
    var t := Issued(keys, issuedAt, count, m, c, duration);
    HexHasNoColon(keys.nonceHash(issuedAt, count, m, c)[..8]);
    TwinIffColon(t);
    assert Payload(t) == Payload(t.(hmac := []));
    if HasTwin(t) {
      var twin :| Twins(t, twin);
      var u := twin.(hmac := t.hmac);
      assert Payload(u) == Payload(twin);
      assert Borrows(keys, t, u);
    } else {
      forall u | Borrows(keys, t, u) ensures false {
        TagBindsToken(keys, issuedAt, count, m, c, duration, u, u.moduleId, 0);
      }
    }
  }

  /**
   How far it goes with a colon: a capability that ends in two numbers lets its token pass as one
   for the rest of the name, valid until the second number.
   */
  lemma ColonCapabilityChangesExpiry(keys: Keys, issuedAt: U64, count: U64, m: Bytes, x: Bytes, a: U64, b: U64,
                                     duration: U64, now: U64)
    ensures var t := Issued(keys, issuedAt, count, m, x + [COLON] + Decimal(a) + [COLON] + Decimal(b), duration);
            Valid(keys, Reread(t, x, a, b), m, now) <==> now <= b
  {
    var t := Issued(keys, issuedAt, count, m, x + [COLON] + Decimal(a) + [COLON] + Decimal(b), duration);
    assert Payload(t) == Payload(t.(hmac := []));
    RereadSharesPayload(t, x, a, b);
  }
}
