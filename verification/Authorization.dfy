/** Keyed authorization grants: sealing claims into a token, and verifying a token against a request. */
module Authorization {
  import opened Ordered
  import opened Text

  /** A byte that the comparison combines bit by bit. */
  type Octet = bv8

  const MAX_PAYLOAD_BYTES: nat := 4096
  const MAX_CLAIM_TEXT_BYTES: nat := 512
  const MAX_LIFETIME_MILLIS: int := 300_000
  const CLOCK_SKEW_MILLIS: int := 30_000
  const MAC_BYTES: nat := 32
  const TOKEN_VERSION: string := "v1"

  /** Signed 64-bit time stamps. */
  const MAX_TIME: int := 0x7FFF_FFFF_FFFF_FFFF
  const MIN_TIME: int := -0x8000_0000_0000_0000

  type Time = t: int | MIN_TIME <= t <= MAX_TIME

  datatype Claims = Claims(
    owner: string, session: string, callId: string, action: string, digest: seq<Octet>,
    issuedAt: Time, expiresAt: Time, nonce: string)

  datatype Expected = Expected(owner: string, session: string, callId: string, action: string, digest: seq<Octet>)

  datatype AuthorizationError =
    | InvalidClaims | InvalidLifetime | PayloadTooLarge | InvalidToken | InvalidMac
    | Expired | NotYetValid | BindingMismatch

  datatype Result<+T> = Ok(value: T) | Err(error: AuthorizationError)

  /** The keyed hash and the claim codec, which this model does not look into. */
  datatype Primitives = Primitives(
    hash: (seq<Octet>, seq<Octet>) -> seq<Octet>, toJson: Claims -> seq<Octet>, fromJson: seq<Octet> -> Option<Claims>)

  ghost predicate Sound(p: Primitives) {
    && (forall key, payload :: |p.hash(key, payload)| == MAC_BYTES)
    && forall c :: p.fromJson(p.toJson(c)) == Some(c)
  }

  // ---------------------------------------------------------------- hexadecimal

  function HexDigit(n: Octet): char {
    if n == 0 then '0' else if n == 1 then '1' else if n == 2 then '2' else if n == 3 then '3'
    else if n == 4 then '4' else if n == 5 then '5' else if n == 6 then '6' else if n == 7 then '7'
    else if n == 8 then '8' else if n == 9 then '9' else if n == 10 then 'a' else if n == 11 then 'b'
    else if n == 12 then 'c' else if n == 13 then 'd' else if n == 14 then 'e' else 'f'
  }

  /** Both letter cases are read. */
  function Nibble(c: char): Option<Octet> {
    match c
    case '0' => Some(0) case '1' => Some(1) case '2' => Some(2) case '3' => Some(3)
    case '4' => Some(4) case '5' => Some(5) case '6' => Some(6) case '7' => Some(7)
    case '8' => Some(8) case '9' => Some(9)
    case 'a' => Some(10) case 'b' => Some(11) case 'c' => Some(12)
    case 'd' => Some(13) case 'e' => Some(14) case 'f' => Some(15)
    case 'A' => Some(10) case 'B' => Some(11) case 'C' => Some(12)
    case 'D' => Some(13) case 'E' => Some(14) case 'F' => Some(15)
    case _ => None
  }

  function Hex(bytes: seq<Octet>): (s: string)
    ensures |s| == 2 * |bytes|
  {
    if bytes == [] then ""
    else Hex(bytes[..|bytes| - 1]) + [HexDigit(bytes[|bytes| - 1] >> 4), HexDigit(bytes[|bytes| - 1] & 0x0F)]
  }

  /** Encoding pushes two digits a byte. */
  method EncodeHex(bytes: seq<Octet>) returns (encoded: string)
    ensures encoded == Hex(bytes)
  {
    encoded := "";
    for i := 0 to |bytes|
      invariant encoded == Hex(bytes[..i])
    {
      assert bytes[..i + 1][..i] == bytes[..i];
      encoded := encoded + [HexDigit(bytes[i] >> 4)];
      encoded := encoded + [HexDigit(bytes[i] & 0x0F)];
    }
    assert bytes[..|bytes|] == bytes;
  }

  function DecodePairs(s: string): Option<seq<Octet>> {
    if |s| < 2 then Some([])
    else match DecodePairs(s[..|s| - 2])
         case None => None
         case Some(front) =>
           match (Nibble(s[|s| - 2]), Nibble(s[|s| - 1]))
           case (Some(high), Some(low)) => Some(front + [(high << 4) | low])
           case _ => None
  }

  function DecodeHex(s: string, maximum: nat): Option<seq<Octet>> {
    if |s| % 2 != 0 || |s| / 2 > maximum then None else DecodePairs(s)
  }

  lemma NibbleRoundTrip(b: Octet)
    ensures Nibble(HexDigit(b >> 4)) == Some(b >> 4)
    ensures Nibble(HexDigit(b & 0x0F)) == Some(b & 0x0F)
    ensures ((b >> 4) << 4) | (b & 0x0F) == b
  {
    assert b >> 4 <= 15 && b & 0x0F <= 15;
    DigitRoundTrip(b >> 4);
    DigitRoundTrip(b & 0x0F);
  }

  lemma DigitRoundTrip(n: Octet)
    requires n <= 15
    ensures Nibble(HexDigit(n)) == Some(n)
    ensures HexDigit(n) != '.'
  {
    assert n == 0 || n == 1 || n == 2 || n == 3 || n == 4 || n == 5 || n == 6 || n == 7 || n == 8 || n == 9
        || n == 10 || n == 11 || n == 12 || n == 13 || n == 14 || n == 15;
  }

  lemma PairDecodes(s: string, front: seq<Octet>, b: Octet)
    requires DecodePairs(s) == Some(front)
    ensures DecodePairs(s + [HexDigit(b >> 4), HexDigit(b & 0x0F)]) == Some(front + [b])
  {
    var t := s + [HexDigit(b >> 4), HexDigit(b & 0x0F)];
    NibbleRoundTrip(b);
    assert t[..|t| - 2] == s;
  }

  lemma {:induction false} HexRoundTrip(bytes: seq<Octet>)
    ensures DecodePairs(Hex(bytes)) == Some(bytes)
  {
    if bytes == [] {
    } else {
      var n := |bytes| - 1;
      HexRoundTrip(bytes[..n]);
      PairDecodes(Hex(bytes[..n]), bytes[..n], bytes[n]);
      assert bytes[..n] + [bytes[n]] == bytes;
    }
  }

  const LOWER_DIGITS: string := "0123456789abcdef"
  const UPPER_DIGITS: string := "0123456789ABCDEF"

  /** Every byte is written as its two lower-case digits, the high one first. */
  lemma {:induction false} HexSpells(bytes: seq<Octet>, i: nat)
    requires i < |bytes|
    ensures Hex(bytes)[2 * i] == LOWER_DIGITS[bytes[i] as int / 16]
    ensures Hex(bytes)[2 * i + 1] == LOWER_DIGITS[bytes[i] as int % 16]
  {
    var n := |bytes| - 1;
    if i == n {
      HalvesOf(bytes[n]);
      DigitSpells(bytes[n] >> 4);
      DigitSpells(bytes[n] & 0x0F);
    } else {
      HexSpells(bytes[..n], i);
    }
  }

  lemma HalvesOf(b: Octet)
    ensures (b >> 4) as int == b as int / 16 && (b & 0x0F) as int == b as int % 16
  {
    assert b >> 4 == b / 16 && b & 0x0F == b % 16;
  }

  lemma DigitSpells(n: Octet)
    requires n <= 15
    ensures HexDigit(n) == LOWER_DIGITS[n as int]
  {
    DigitRoundTrip(n);
    assert n as int == 0 || n as int == 1 || n as int == 2 || n as int == 3 || n as int == 4 || n as int == 5
        || n as int == 6 || n as int == 7 || n as int == 8 || n as int == 9 || n as int == 10 || n as int == 11
        || n as int == 12 || n as int == 13 || n as int == 14 || n as int == 15;
  }

  /** A character is read as `n` exactly when it is the digit of `n` in either case. */
  lemma NibbleReads(c: char, n: Octet)
    requires n <= 15
    ensures Nibble(c) == Some(n) <==> c == LOWER_DIGITS[n as int] || c == UPPER_DIGITS[n as int]
  {
    assert n as int == 0 || n as int == 1 || n as int == 2 || n as int == 3 || n as int == 4 || n as int == 5
        || n as int == 6 || n as int == 7 || n as int == 8 || n as int == 9 || n as int == 10 || n as int == 11
        || n as int == 12 || n as int == 13 || n as int == 14 || n as int == 15;
  }

  lemma {:induction false} HexHasNoDots(bytes: seq<Octet>)
    ensures '.' !in Hex(bytes)
  {
    if bytes == [] {
    } else {
      HexHasNoDots(bytes[..|bytes| - 1]);
      assert forall n: Octet :: HexDigit(n) != '.';
    }
  }

  // ---------------------------------------------------------------- comparison

  /** The or-accumulated differences, without early exit. */
  function Difference(a: seq<Octet>, b: seq<Octet>): Octet
    requires |a| == |b|
  {
    if a == [] then 0
    else Difference(a[..|a| - 1], b[..|b| - 1]) | (a[|a| - 1] ^ b[|b| - 1])
  }

  predicate ConstantTimeEqual(a: seq<Octet>, b: seq<Octet>) {
    |a| == |b| && Difference(a, b) == 0
  }

  /** The accumulated difference decides equality. */
  lemma {:induction false} ConstantTimeDecidesEquality(a: seq<Octet>, b: seq<Octet>)
    ensures ConstantTimeEqual(a, b) <==> a == b
  {
    if |a| != |b| || a == [] {
    } else {
      var n := |a| - 1;
      ConstantTimeDecidesEquality(a[..n], b[..n]);
      OrIsZero(Difference(a[..n], b[..n]), a[n], b[n]);
      assert a == a[..n] + [a[n]] && b == b[..n] + [b[n]];
    }
  }

  lemma OrIsZero(d: Octet, x: Octet, y: Octet)
    ensures d | (x ^ y) == 0 <==> d == 0 && x == y
  {
  }

  // ---------------------------------------------------------------- claims

  predicate GoodText(s: string) {
    s != "" && Utf8Length(s) <= MAX_CLAIM_TEXT_BYTES && forall i :: 0 <= i < |s| ==> !IsControl(s[i])
  }

  /** Two's-complement wrap-around of a 64-bit difference. */
  function Wrap(d: int): Time
    requires MIN_TIME - MAX_TIME <= d <= MAX_TIME - MIN_TIME
  {
    if d > MAX_TIME then d - 0x1_0000_0000_0000_0000
    else if d < MIN_TIME then d + 0x1_0000_0000_0000_0000
    else d
  }

  function ValidateClaims(c: Claims): Result<()> {
    if !GoodText(c.owner) || !GoodText(c.session) || !GoodText(c.callId) || !GoodText(c.action) || !GoodText(c.nonce)
    then Err(InvalidClaims)
    else if c.expiresAt <= c.issuedAt || Wrap(c.expiresAt - c.issuedAt) > MAX_LIFETIME_MILLIS
    then Err(InvalidLifetime)
    else Ok(())
  }

  predicate LifetimeOverflows(c: Claims) {
    c.expiresAt - c.issuedAt > MAX_TIME
  }

  /** Claims are accepted exactly with allowed texts and an allowed lifetime; an accepted lifetime is
      bounded exactly when the subtraction did not overflow. */
  lemma LifetimeIsBoundedUnlessOverflow(c: Claims)
    ensures ValidateClaims(c).Ok? <==> AllowedTexts(c) && AllowedLifetime(c)
    ensures ValidateClaims(c).Ok? ==> (c.expiresAt - c.issuedAt <= 300000 <==> !LifetimeOverflows(c))
  {
    AllowedIsGood(c.owner);
    AllowedIsGood(c.session);
    AllowedIsGood(c.callId);
    AllowedIsGood(c.action);
    AllowedIsGood(c.nonce);
  }

  /** Every overflowing lifetime is accepted. */
  lemma OverflowingLifetimeIsAccepted(c: Claims)
    requires GoodText(c.owner) && GoodText(c.session) && GoodText(c.callId) && GoodText(c.action) && GoodText(c.nonce)
    requires LifetimeOverflows(c)
    ensures ValidateClaims(c).Ok? && c.expiresAt - c.issuedAt > MAX_LIFETIME_MILLIS
  {
  }

  /** The longest lifetime that two time stamps can span is accepted. */
  lemma LongestLifetimeIsAccepted() returns (c: Claims)
    ensures ValidateClaims(c).Ok? && |c.digest| == 32 && c.expiresAt - c.issuedAt == MAX_TIME - MIN_TIME
  {
    assert Utf8Length("x") == Utf8Length("") + 1;
    c := Claims("x", "x", "x", "x", seq(32, _ => 0), MIN_TIME, MAX_TIME, "x");
  }

  function SaturatingAdd(a: Time, b: Time): Time {
    if a + b > MAX_TIME then MAX_TIME else if a + b < MIN_TIME then MIN_TIME else a + b
  }

  function ValidateTime(c: Claims, now: Time): Result<()> {
    if now > c.expiresAt then Err(Expired)
    else if c.issuedAt > SaturatingAdd(now, CLOCK_SKEW_MILLIS) then Err(NotYetValid)
    else Ok(())
  }

  predicate Binds(c: Claims, e: Expected) {
    c.owner == e.owner && c.session == e.session && c.callId == e.callId && c.action == e.action && c.digest == e.digest
  }

  // ---------------------------------------------------------------- tokens

  /** The segments between dots. */
  function Split(s: string): (r: seq<string>)
    ensures |r| >= 1
  {
    if s == "" then [""]
    else if s[0] == '.' then [""] + Split(s[1..])
    else
      var rest := Split(s[1..]);
      [[s[0]] + rest[0]] + rest[1..]
  }

  lemma {:induction false} SplitPlain(s: string)
    requires '.' !in s
    ensures Split(s) == [s]
  {
    if s == "" {
    } else {
      SplitPlain(s[1..]);
      assert [s[0]] + s[1..] == s;
    }
  }

  lemma {:induction false} SplitFirst(a: string, rest: string)
    requires '.' !in a
    ensures Split(a + "." + rest) == [a] + Split(rest)
  {
    if a == "" {
      assert "" + "." + rest == "." + rest;
      assert ("." + rest)[1..] == rest;
    } else {
      SplitFirst(a[1..], rest);
      assert (a + "." + rest)[1..] == a[1..] + "." + rest;
      assert [a[0]] + a[1..] == a;
    }
  }

  function Token(payload: seq<Octet>, mac: seq<Octet>): string {
    TOKEN_VERSION + "." + Hex(payload) + "." + Hex(mac)
  }

  /** A sealed token splits into exactly its three parts. */
  lemma TokenSplits(payload: seq<Octet>, mac: seq<Octet>)
    ensures Split(Token(payload, mac)) == [TOKEN_VERSION, Hex(payload), Hex(mac)]
    ensures |Token(payload, mac)| == 4 + 2 * |payload| + 2 * |mac|
  {
    HexHasNoDots(payload);
    HexHasNoDots(mac);
    var tail := Hex(payload) + "." + Hex(mac);
    assert Token(payload, mac) == TOKEN_VERSION + "." + tail;
    SplitFirst(TOKEN_VERSION, tail);
    SplitFirst(Hex(payload), Hex(mac));
    SplitPlain(Hex(mac));
  }

  function Seal(p: Primitives, c: Claims, key: seq<Octet>): Result<string> {
    match ValidateClaims(c)
    case Err(e) => Err(e)
    case Ok(_) =>
      var payload := p.toJson(c);
      if |payload| > MAX_PAYLOAD_BYTES then Err(PayloadTooLarge)
      else Ok(Token(payload, p.hash(key, payload)))
  }

  function Verify(p: Primitives, token: string, key: seq<Octet>, e: Expected, now: Time): Result<Claims> {
    if Utf8Length(token) > MAX_PAYLOAD_BYTES * 2 + 80 then Err(PayloadTooLarge)
    else
      var segments := Split(token);
      if |segments| != 3 || segments[0] != TOKEN_VERSION then Err(InvalidToken)
      else VerifyParts(p, segments[1], segments[2], key, e, now)
  }

  function VerifyParts(p: Primitives, payloadHex: string, macHex: string, key: seq<Octet>, e: Expected,
                       now: Time): Result<Claims> {
    match (DecodeHex(payloadHex, MAX_PAYLOAD_BYTES), DecodeHex(macHex, MAC_BYTES))
    case (Some(payload), Some(mac)) =>
      if |mac| != MAC_BYTES then Err(InvalidToken)
      else if !ConstantTimeEqual(p.hash(key, payload), mac) then Err(InvalidMac)
      else (match p.fromJson(payload)
            case None => Err(InvalidToken)
            case Some(c) => CheckClaims(c, e, now))
    case _ => Err(InvalidToken)
  }

  function CheckClaims(c: Claims, e: Expected, now: Time): Result<Claims> {
    match ValidateClaims(c)
    case Err(error) => Err(error)
    case Ok(_) =>
      match ValidateTime(c, now)
      case Err(error) => Err(error)
      case Ok(_) => if Binds(c, e) then Ok(c) else Err(BindingMismatch)
  }

  lemma {:induction false} PlainLength(s: string)
    requires forall i :: 0 <= i < |s| ==> s[i] as int < 0x80
    ensures Utf8Length(s) == |s|
  {
    if s == "" {
    } else {
      PlainLength(s[..|s| - 1]);
    }
  }

  lemma {:induction false} HexIsPlain(bytes: seq<Octet>)
    ensures forall i :: 0 <= i < |Hex(bytes)| ==> Hex(bytes)[i] as int < 0x80
  {
    if bytes == [] {
    } else {
      HexIsPlain(bytes[..|bytes| - 1]);
      assert forall n: Octet :: HexDigit(n) as int < 0x80;
    }
  }

  /** A sealed token of a payload within bounds always passes the length guard. */
  lemma TokenFitsGuard(payload: seq<Octet>, mac: seq<Octet>)
    requires |payload| <= MAX_PAYLOAD_BYTES && |mac| == MAC_BYTES
    ensures Utf8Length(Token(payload, mac)) <= MAX_PAYLOAD_BYTES * 2 + 80
  {
    TokenSplits(payload, mac);
    HexIsPlain(payload);
    HexIsPlain(mac);
    PlainLength(Token(payload, mac));
  }

  // ---------------------------------------------------------------- what can be sealed

  /** Not empty, at most 512 bytes, and free of control characters. */
  predicate AllowedText(s: string) {
    && |s| >= 1 && Utf8Length(s) <= 512
    && forall i :: 0 <= i < |s| ==> !(s[i] as int <= 31) && !(127 <= s[i] as int <= 159)
  }

  predicate AllowedTexts(c: Claims) {
    AllowedText(c.owner) && AllowedText(c.session) && AllowedText(c.callId) && AllowedText(c.action)
    && AllowedText(c.nonce)
  }

  /** A positive lifetime of at most five minutes, or one beyond the 64-bit range. */
  predicate AllowedLifetime(c: Claims) {
    && c.issuedAt < c.expiresAt
    && (c.expiresAt - c.issuedAt <= 300000 || c.expiresAt - c.issuedAt >= 0x8000_0000_0000_0000)
  }

  predicate Sealable(p: Primitives, c: Claims) {
    AllowedTexts(c) && AllowedLifetime(c) && |p.toJson(c)| <= 4096
  }

  /** Sealing succeeds exactly on sealable claims, and otherwise names the first thing wrong with them. */
  lemma SealSucceedsIff(p: Primitives, c: Claims, key: seq<Octet>)
    ensures Seal(p, c, key).Ok? <==> Sealable(p, c)
    ensures !AllowedTexts(c) ==> Seal(p, c, key) == Err(InvalidClaims)
    ensures AllowedTexts(c) && !AllowedLifetime(c) ==> Seal(p, c, key) == Err(InvalidLifetime)
    ensures AllowedTexts(c) && AllowedLifetime(c) && |p.toJson(c)| > 4096 ==> Seal(p, c, key) == Err(PayloadTooLarge)
  {
    AllowedIsGood(c.owner);
    AllowedIsGood(c.session);
    AllowedIsGood(c.callId);
    AllowedIsGood(c.action);
    AllowedIsGood(c.nonce);
  }

  lemma AllowedIsGood(s: string)
    ensures AllowedText(s) <==> GoodText(s)
  {
  }

  /** What verifying a sealed grant under the same key answers, for every request and every time. */
  function SealedAnswer(c: Claims, e: Expected, now: Time): Result<Claims> {
    if now > c.expiresAt then Err(Expired)
    else if c.issuedAt - now > 30000 then Err(NotYetValid)
    else if e != Expected(c.owner, c.session, c.callId, c.action, c.digest) then Err(BindingMismatch)
    else Ok(c)
  }

  /** Sealable claims can be sealed, and verifying the token under the same key gives them back exactly
      while the grant is unexpired, issued within the skew and bound to the request; otherwise the error
      says which of the three fails first. */
  lemma SealedGrantVerifies(p: Primitives, c: Claims, key: seq<Octet>, e: Expected, now: Time)
    requires Sound(p) && Sealable(p, c)
    ensures Seal(p, c, key).Ok? && Verify(p, Seal(p, c, key).value, key, e, now) == SealedAnswer(c, e, now)
  {
    SealSucceedsIff(p, c, key);
    SealedReachesClaims(p, c, key, e, now);
  }

  lemma PartsReachClaims(p: Primitives, c: Claims, key: seq<Octet>, e: Expected, now: Time)
    requires Sound(p) && |p.toJson(c)| <= MAX_PAYLOAD_BYTES
    ensures VerifyParts(p, Hex(p.toJson(c)), Hex(p.hash(key, p.toJson(c))), key, e, now) == CheckClaims(c, e, now)
  {
    var payload := p.toJson(c);
    var mac := p.hash(key, payload);
    HexRoundTrip(payload);
    HexRoundTrip(mac);
    ConstantTimeDecidesEquality(mac, mac);
  }

  lemma SealedReachesClaims(p: Primitives, c: Claims, key: seq<Octet>, e: Expected, now: Time)
    requires Sound(p) && Seal(p, c, key).Ok?
    ensures Verify(p, Seal(p, c, key).value, key, e, now) == CheckClaims(c, e, now)
  {
    var payload := p.toJson(c);
    var mac := p.hash(key, payload);
    assert |mac| == MAC_BYTES;
    TokenFitsGuard(payload, mac);
    TokenSplits(payload, mac);
    PartsReachClaims(p, c, key, e, now);
  }

  /** A sealed grant never verifies for another request. */
  lemma SealedGrantIsBound(p: Primitives, c: Claims, key: seq<Octet>, e: Expected, now: Time)
    requires Sound(p) && Seal(p, c, key).Ok? && !Binds(c, e)
    ensures Verify(p, Seal(p, c, key).value, key, e, now).Err?
  {
    SealedReachesClaims(p, c, key, e, now);
  }

  /** The token is three segments: the version, a payload, and the keyed hash of that payload, which
      encodes these claims. */
  ghost predicate Carries(p: Primitives, token: string, key: seq<Octet>, c: Claims) {
    var segments := Split(token);
    && Utf8Length(token) <= 8272 && |segments| == 3 && segments[0] == "v1"
    && |segments[1]| % 2 == 0 && |segments[1]| <= 8192 && |segments[2]| == 64
    && Authentic(p, key, segments[1], segments[2], c)
  }

  /** A token is accepted exactly when it carries allowed, timely claims for this very request under
      this key. */
  lemma AcceptedTokenIsAuthentic(p: Primitives, token: string, key: seq<Octet>, e: Expected, now: Time, c: Claims)
    requires Sound(p)
    ensures Verify(p, token, key, e, now) == Ok(c) <==>
      && Carries(p, token, key, c) && AllowedTexts(c) && AllowedLifetime(c)
      && SealedAnswer(c, e, now) == Ok(c)
  {
    LifetimeIsBoundedUnlessOverflow(c);
    var segments := Split(token);
    if |segments| == 3 {
      PartsAccepted(p, segments[1], segments[2], key, e, now, c);
    }
  }

  lemma {:induction false} PairsLength(s: string)
    requires DecodePairs(s).Some?
    ensures |DecodePairs(s).value| == |s| / 2
  {
    if |s| < 2 {
    } else {
      PairsLength(s[..|s| - 2]);
    }
  }

  lemma PartsAccepted(p: Primitives, payloadHex: string, macHex: string, key: seq<Octet>, e: Expected, now: Time,
                      c: Claims)
    requires Sound(p)
    ensures VerifyParts(p, payloadHex, macHex, key, e, now) == Ok(c) <==>
      && |payloadHex| % 2 == 0 && |payloadHex| <= 8192 && |macHex| == 64
      && Authentic(p, key, payloadHex, macHex, c) && CheckClaims(c, e, now) == Ok(c)
  {
    var payload, mac := DecodePairs(payloadHex), DecodePairs(macHex);
    if payload.Some? {
      PairsLength(payloadHex);
    }
    if mac.Some? {
      PairsLength(macHex);
    }
    if payload.Some? && mac.Some? {
      ConstantTimeDecidesEquality(p.hash(key, payload.value), mac.value);
    }
  }

  ghost predicate Authentic(p: Primitives, key: seq<Octet>, payloadHex: string, macHex: string, c: Claims) {
    exists payload :: DecodePairs(payloadHex) == Some(payload) && p.fromJson(payload) == Some(c)
                      && DecodePairs(macHex) == Some(p.hash(key, payload))
  }
}
