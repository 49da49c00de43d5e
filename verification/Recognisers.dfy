/** The graph compiler's hand-written recognisers: timestamps and JSON pointers. */
module Recognisers {
  import opened Ordered
  import opened Text

  // ---------------------------------------------------------------- decimal components

  predicate IsDigit(b: Byte) {
    '0' as int <= b <= '9' as int
  }

  predicate AllDigits(ds: seq<Byte>) {
    forall i :: 0 <= i < |ds| ==> IsDigit(ds[i])
  }

  function Decimal(ds: seq<Byte>): nat
    requires AllDigits(ds)
  {
    if ds == [] then 0 else Decimal(ds[..|ds| - 1]) * 10 + (ds[|ds| - 1] - '0' as int)
  }

  /** `n` in exactly `width` digits. */
  function Pad(n: nat, width: nat): (ds: seq<Byte>)
    ensures |ds| == width && AllDigits(ds)
  {
    if width == 0 then [] else Pad(n / 10, width - 1) + [n % 10 + '0' as int]
  }

  function Power10(width: nat): nat {
    if width == 0 then 1 else 10 * Power10(width - 1)
  }

  lemma {:induction false} PadReads(n: nat, width: nat)
    requires n < Power10(width)
    ensures Decimal(Pad(n, width)) == n
    decreases width
  {
    if width == 0 {
    } else {
      PadReads(n / 10, width - 1);
      assert Pad(n, width)[..width - 1] == Pad(n / 10, width - 1);
    }
  }

  lemma {:induction false} DigitsPad(ds: seq<Byte>)
    requires AllDigits(ds)
    ensures Decimal(ds) < Power10(|ds|) && Pad(Decimal(ds), |ds|) == ds
  {
    if ds == [] {
    } else {
      DigitsPad(ds[..|ds| - 1]);
      assert ds == ds[..|ds| - 1] + [ds[|ds| - 1]];
    }
  }

  /** The number a slice spells, or nothing when it is out of range or holds another byte. */
  function DecimalComponent(bytes: seq<Byte>, start: nat, end: nat): (r: Option<nat>)
    requires start <= end
    ensures r.Some? <==> end <= |bytes| && AllDigits(bytes[start..end])
    ensures r.Some? ==> r.value < Power10(end - start) && bytes[start..end] == Pad(r.value, end - start)
  {
    if end <= |bytes| && AllDigits(bytes[start..end]) then
      DigitsPad(bytes[start..end]);
      Some(Decimal(bytes[start..end]))
    else None
  }

  // ---------------------------------------------------------------- timestamps

  datatype Zone = Utc | Offset(behind: bool, hours: nat, minutes: nat)

  datatype Moment = Moment(year: nat, month: nat, day: nat, hour: nat, minute: nat, second: nat)

  /** The fields of a timestamp; an empty fraction is an absent one. */
  datatype Timestamp = Timestamp(moment: Moment, fraction: seq<Byte>, zone: Zone)

  predicate IsLeapYear(year: nat) {
    year % 4 == 0 && (year % 100 != 0 || year % 400 == 0)
  }

  function DaysInMonth(year: nat, month: nat): nat {
    if month in {1, 3, 5, 7, 8, 10, 12} then 31
    else if month in {4, 6, 9, 11} then 30
    else if month == 2 then (if IsLeapYear(year) then 29 else 28)
    else 0
  }

  /** Field ranges; a leap second is allowed at any minute. */
  predicate ValidMoment(m: Moment) {
    && m.year < 10000 && 1 <= m.month <= 12 && 1 <= m.day <= DaysInMonth(m.year, m.month)
    && m.hour <= 23 && m.minute <= 59 && m.second <= 60
  }

  predicate ValidZone(z: Zone) {
    z.Offset? ==> z.hours <= 23 && z.minutes <= 59
  }

  predicate ValidTimestamp(t: Timestamp) {
    ValidMoment(t.moment) && AllDigits(t.fraction) && ValidZone(t.zone)
  }

  function Code(c: char): Byte
    requires c as int < 256
  {
    c as int
  }

  function PrintMoment(m: Moment): (bytes: seq<Byte>)
    ensures |bytes| == 19
  {
    Pad(m.year, 4) + [Code('-')] + Pad(m.month, 2) + [Code('-')] + Pad(m.day, 2) + [Code('T')]
    + Pad(m.hour, 2) + [Code(':')] + Pad(m.minute, 2) + [Code(':')] + Pad(m.second, 2)
  }

  function PrintFraction(fraction: seq<Byte>): seq<Byte> {
    if fraction == [] then [] else [Code('.')] + fraction
  }

  function PrintZone(z: Zone): seq<Byte> {
    match z
    case Utc => [Code('Z')]
    case Offset(behind, hours, minutes) =>
      [if behind then Code('-') else Code('+')] + Pad(hours, 2) + [Code(':')] + Pad(minutes, 2)
  }

  function PrintTimestamp(t: Timestamp): seq<Byte> {
    PrintMoment(t.moment) + PrintFraction(t.fraction) + PrintZone(t.zone)
  }

  ghost predicate IsTimestamp(bytes: seq<Byte>) {
    exists t :: ValidTimestamp(t) && bytes == PrintTimestamp(t)
  }

  /** The separators of the fixed part. */
  predicate HasSeparators(bytes: seq<Byte>)
    requires |bytes| >= 19
  {
    && bytes[4] == Code('-') && bytes[7] == Code('-') && bytes[10] == Code('T')
    && bytes[13] == Code(':') && bytes[16] == Code(':')
  }

  /** The fixed part is printed from a moment exactly when the separators stand in place and every
      slice is that field's decimal form. */
  lemma MomentSlices(b: seq<Byte>, m: Moment)
    requires |b| == 19
    ensures b == PrintMoment(m) <==>
      && HasSeparators(b)
      && b[0..4] == Pad(m.year, 4) && b[5..7] == Pad(m.month, 2) && b[8..10] == Pad(m.day, 2)
      && b[11..13] == Pad(m.hour, 2) && b[14..16] == Pad(m.minute, 2) && b[17..19] == Pad(m.second, 2)
  {
    assert b == b[0..4] + [b[4]] + b[5..7] + [b[7]] + b[8..10] + [b[10]]
             + b[11..13] + [b[13]] + b[14..16] + [b[16]] + b[17..19];
    var p := PrintMoment(m);
    assert p[0..4] == Pad(m.year, 4) && p[5..7] == Pad(m.month, 2) && p[8..10] == Pad(m.day, 2);
    assert p[11..13] == Pad(m.hour, 2) && p[14..16] == Pad(m.minute, 2) && p[17..19] == Pad(m.second, 2);
  }

  lemma ComponentReads(bytes: seq<Byte>, start: nat, end: nat, n: nat)
    requires start <= end <= |bytes| && bytes[start..end] == Pad(n, end - start) && n < Power10(end - start)
    ensures DecimalComponent(bytes, start, end) == Some(n)
  {
    PadReads(n, end - start);
  }

  /** The moment the first nineteen bytes spell, if they do. */
  function ReadMoment(bytes: seq<Byte>): (r: Option<Moment>)
    requires |bytes| >= 19
  {
    if !HasSeparators(bytes) then None
    else match (DecimalComponent(bytes, 0, 4), DecimalComponent(bytes, 5, 7), DecimalComponent(bytes, 8, 10),
                DecimalComponent(bytes, 11, 13), DecimalComponent(bytes, 14, 16), DecimalComponent(bytes, 17, 19))
         case (Some(year), Some(month), Some(day), Some(hour), Some(minute), Some(second)) =>
           if month == 0 || month > 12 || day == 0 || day > DaysInMonth(year, month)
              || hour > 23 || minute > 59 || second > 60
           then None
           else Some(Moment(year, month, day, hour, minute, second))
         case _ => None
  }

  lemma Powers()
    ensures Power10(4) == 10000 && Power10(2) == 100
  {
    assert Power10(3) == 1000;
  }

  lemma MomentReads(bytes: seq<Byte>, m: Moment)
    requires |bytes| >= 19 && ValidMoment(m) && bytes[..19] == PrintMoment(m)
    ensures ReadMoment(bytes) == Some(m)
  {
    var b := bytes[..19];
    MomentSlices(b, m);
    Powers();
    assert forall i, j :: 0 <= i <= j <= 19 ==> b[i..j] == bytes[i..j];
    ComponentReads(bytes, 0, 4, m.year);
    ComponentReads(bytes, 5, 7, m.month);
    ComponentReads(bytes, 8, 10, m.day);
    ComponentReads(bytes, 11, 13, m.hour);
    ComponentReads(bytes, 14, 16, m.minute);
    ComponentReads(bytes, 17, 19, m.second);
  }

  lemma MomentPrints(bytes: seq<Byte>)
    requires |bytes| >= 19 && ReadMoment(bytes).Some?
    ensures ValidMoment(ReadMoment(bytes).value) && bytes[..19] == PrintMoment(ReadMoment(bytes).value)
  {
    var b := bytes[..19];
    Powers();
    assert forall i, j :: 0 <= i <= j <= 19 ==> b[i..j] == bytes[i..j];
    MomentSlices(b, ReadMoment(bytes).value);
  }

  predicate ComponentAtMost(bytes: seq<Byte>, start: nat, end: nat, max: nat)
    requires start <= end
  {
    var r := DecimalComponent(bytes, start, end);
    r.Some? && r.value <= max
  }

  /** The bytes from `i` on are exactly one zone. */
  predicate AcceptsZone(bytes: seq<Byte>, i: nat) {
    i < |bytes| &&
    if bytes[i] == Code('Z') then i + 1 == |bytes|
    else
      && (bytes[i] == Code('+') || bytes[i] == Code('-'))
      && ComponentAtMost(bytes, i + 1, i + 3, 23)
      && i + 3 < |bytes| && bytes[i + 3] == Code(':')
      && ComponentAtMost(bytes, i + 4, i + 6, 59)
      && i + 6 == |bytes|
  }

  lemma AcceptedZonePrints(bytes: seq<Byte>, i: nat) returns (z: Zone)
    requires AcceptsZone(bytes, i)
    ensures ValidZone(z) && bytes[i..] == PrintZone(z)
  {
    if bytes[i] == Code('Z') {
      z := Utc;
    } else {
      z := Offset(bytes[i] == Code('-'), DecimalComponent(bytes, i + 1, i + 3).value,
                  DecimalComponent(bytes, i + 4, i + 6).value);
      assert bytes[i..] == [bytes[i]] + bytes[i + 1..i + 3] + [bytes[i + 3]] + bytes[i + 4..i + 6];
    }
  }

  lemma PrintedZoneAccepted(bytes: seq<Byte>, i: nat, z: Zone)
    requires i <= |bytes| && ValidZone(z) && bytes[i..] == PrintZone(z)
    ensures AcceptsZone(bytes, i) && bytes[i] != Code('.') && !IsDigit(bytes[i])
  {
    assert bytes[i] == bytes[i..][0];
    if z.Offset? {
      Powers();
      var b := bytes[i..];
      assert b[1..3] == Pad(z.hours, 2) && b[4..6] == Pad(z.minutes, 2);
      assert bytes[i + 1..i + 3] == b[1..3] && bytes[i + 4..i + 6] == b[4..6] && bytes[i + 3] == b[3];
      ComponentReads(bytes, i + 1, i + 3, z.hours);
      ComponentReads(bytes, i + 4, i + 6, z.minutes);
    }
  }

  ghost predicate DigitsBetween(bytes: seq<Byte>, i: nat, j: nat)
    requires i <= j <= |bytes|
  {
    forall k :: i <= k < j ==> IsDigit(bytes[k])
  }

  /** `i` ends the optional fraction that starts at nineteen: it is maximal and not empty. */
  ghost predicate EndsFraction(bytes: seq<Byte>, i: nat) {
    19 < |bytes| &&
    if bytes[19] != Code('.') then i == 19
    else 20 < i <= |bytes| && DigitsBetween(bytes, 20, i) && (i < |bytes| ==> !IsDigit(bytes[i]))
  }

  /** The digits of the optional fraction. */
  function FractionTo(bytes: seq<Byte>, i: nat): seq<Byte>
    requires 19 <= i <= |bytes|
  {
    if i <= 20 then [] else bytes[20..i]
  }

  lemma FractionPrints(bytes: seq<Byte>, i: nat)
    requires EndsFraction(bytes, i)
    ensures AllDigits(FractionTo(bytes, i)) && bytes[19..i] == PrintFraction(FractionTo(bytes, i))
  {
    if i == 19 {
    } else {
      var f := FractionTo(bytes, i);
      forall k | 0 <= k < |f| ensures IsDigit(f[k]) {
        assert f[k] == bytes[20 + k];
      }
      assert bytes[19..i] == [bytes[19]] + f;
    }
  }

  lemma Recognised(bytes: seq<Byte>, i: nat)
    requires EndsFraction(bytes, i) && ReadMoment(bytes).Some? && AcceptsZone(bytes, i)
    ensures IsTimestamp(bytes)
  {
    MomentPrints(bytes);
    FractionPrints(bytes, i);
    var z := AcceptedZonePrints(bytes, i);
    Assembled(bytes, i, Timestamp(ReadMoment(bytes).value, FractionTo(bytes, i), z));
  }

  lemma Assembled(bytes: seq<Byte>, i: nat, t: Timestamp)
    requires 19 <= i <= |bytes| && ValidTimestamp(t)
    requires bytes[..19] == PrintMoment(t.moment) && bytes[19..i] == PrintFraction(t.fraction)
    requires bytes[i..] == PrintZone(t.zone)
    ensures IsTimestamp(bytes)
  {
    assert bytes == bytes[..19] + bytes[19..i] + bytes[i..];
    assert bytes == PrintTimestamp(t);
  }

  lemma PrintedSlices(bytes: seq<Byte>, t: Timestamp, i: nat)
    requires bytes == PrintTimestamp(t) && i == 19 + |PrintFraction(t.fraction)|
    ensures i <= |bytes| && bytes[..19] == PrintMoment(t.moment)
    ensures bytes[19..i] == PrintFraction(t.fraction) && bytes[i..] == PrintZone(t.zone)
  {
  }

  lemma PrintedFractionEnds(bytes: seq<Byte>, fraction: seq<Byte>, i: nat)
    requires AllDigits(fraction) && i == 19 + |PrintFraction(fraction)| < |bytes|
    requires bytes[19..i] == PrintFraction(fraction) && !IsDigit(bytes[i]) && bytes[i] != Code('.')
    ensures EndsFraction(bytes, i)
  {
    var f := bytes[19..i];
    if fraction == [] {
    } else {
      assert bytes[19] == f[0];
      forall k | 20 <= k < i ensures IsDigit(bytes[k]) {
        assert bytes[k] == f[k - 19] == fraction[k - 20];
      }
    }
  }

  /** Printing a valid timestamp determines where its parts stand. */
  lemma PrintedParts(bytes: seq<Byte>, t: Timestamp)
    requires ValidTimestamp(t) && bytes == PrintTimestamp(t)
    ensures |bytes| >= 20 && ReadMoment(bytes) == Some(t.moment)
    ensures EndsFraction(bytes, 19 + |PrintFraction(t.fraction)|)
    ensures AcceptsZone(bytes, 19 + |PrintFraction(t.fraction)|)
  {
    var i := 19 + |PrintFraction(t.fraction)|;
    PrintedSlices(bytes, t, i);
    MomentReads(bytes, t.moment);
    PrintedZoneAccepted(bytes, i, t.zone);
    PrintedFractionEnds(bytes, t.fraction, i);
  }

  lemma FractionEndsOnce(bytes: seq<Byte>, i: nat, j: nat)
    requires EndsFraction(bytes, i) && EndsFraction(bytes, j)
    ensures i == j
  {
  }

  lemma TimestampParts(bytes: seq<Byte>)
    requires IsTimestamp(bytes)
    ensures |bytes| >= 20 && ReadMoment(bytes).Some?
    ensures exists i :: EndsFraction(bytes, i)
    ensures forall i :: EndsFraction(bytes, i) ==> AcceptsZone(bytes, i)
  {
    var t :| ValidTimestamp(t) && bytes == PrintTimestamp(t);
    PrintedParts(bytes, t);
    forall i | EndsFraction(bytes, i) ensures AcceptsZone(bytes, i) {
      FractionEndsOnce(bytes, i, 19 + |PrintFraction(t.fraction)|);
    }
  }

  /** Accepts exactly the printed forms of valid timestamps. */
  method IsRfc3339Timestamp(bytes: seq<Byte>) returns (ok: bool)
    ensures ok <==> IsTimestamp(bytes)
  {
    if IsTimestamp(bytes) {
      TimestampParts(bytes);
    }
    if |bytes| < 20 || ReadMoment(bytes).None? {
      return false;
    }
    var i := 19;
    if bytes[i] == Code('.') {
      i := i + 1;
      while i < |bytes| && IsDigit(bytes[i])
        invariant 20 <= i <= |bytes| && DigitsBetween(bytes, 20, i)
      {
        i := i + 1;
      }
      if i == 20 {
        return false;
      }
    }
    assert EndsFraction(bytes, i);
    ok := AcceptsZone(bytes, i);
    if ok {
      Recognised(bytes, i);
    }
  }

  lemma OffsetSlices(z: Zone)
    requires z.Offset? && ValidZone(z)
    ensures |PrintZone(z)| == 6 && PrintZone(z)[0] == if z.behind then Code('-') else Code('+')
    ensures AllDigits(PrintZone(z)[1..3]) && Decimal(PrintZone(z)[1..3]) == z.hours
    ensures AllDigits(PrintZone(z)[4..6]) && Decimal(PrintZone(z)[4..6]) == z.minutes
  {
    Powers();
    PadReads(z.hours, 2);
    PadReads(z.minutes, 2);
    assert PrintZone(z)[1..3] == Pad(z.hours, 2);
    assert PrintZone(z)[4..6] == Pad(z.minutes, 2);
  }

  lemma ZonePrintsOnce(y: Zone, z: Zone)
    requires ValidZone(y) && ValidZone(z) && PrintZone(y) == PrintZone(z)
    ensures y == z
  {
    if y.Offset? {
      OffsetSlices(y);
    }
    if z.Offset? {
      OffsetSlices(z);
    }
  }

  /** Two valid timestamps are never printed alike. */
  lemma TimestampIsUnambiguous(t: Timestamp, u: Timestamp)
    requires ValidTimestamp(t) && ValidTimestamp(u) && PrintTimestamp(t) == PrintTimestamp(u)
    ensures t == u
  {
    var b := PrintTimestamp(t);
    PrintedParts(b, t);
    PrintedParts(b, u);
    var f, g := PrintFraction(t.fraction), PrintFraction(u.fraction);
    FractionEndsOnce(b, 19 + |f|, 19 + |g|);
    assert f == b[19..19 + |f|] == g;
    assert t.fraction == (if f == [] then [] else f[1..]) == u.fraction;
    assert PrintZone(t.zone) == b[19 + |f|..] == PrintZone(u.zone);
    ZonePrintsOnce(t.zone, u.zone);
  }

  /** The compiler's bound on the timestamp's length comes first. */
  method ValidateTimestamp(bytes: seq<Byte>, maxNameBytes: nat) returns (ok: bool)
    ensures ok <==> |bytes| <= maxNameBytes && IsTimestamp(bytes)
  {
    if |bytes| > maxNameBytes {
      return false;
    }
    ok := IsRfc3339Timestamp(bytes);
  }

  // ---------------------------------------------------------------- JSON pointers

  /** A reference token as it stands in a pointer. */
  function Escape(token: string): string {
    if token == "" then "" else EscapeChar(token[0]) + Escape(token[1..])
  }

  function EscapeChar(c: char): string {
    if c == '~' then "~0" else if c == '/' then "~1" else [c]
  }

  /** The tokens after the first slash. */
  function PrintTokens(tokens: seq<string>): string
    requires tokens != []
  {
    if |tokens| == 1 then Escape(tokens[0]) else Escape(tokens[0]) + "/" + PrintTokens(tokens[1..])
  }

  function PrintPointer(tokens: seq<string>): string {
    if tokens == [] then "" else "/" + PrintTokens(tokens)
  }

  /** Every tilde starts one of the two escapes. */
  predicate WellEscaped(s: string) {
    s == "" || if s[0] != '~' then WellEscaped(s[1..]) else |s| > 1 && s[1] in {'0', '1'} && WellEscaped(s[2..])
  }

  /** The reference tokens of the characters after a slash. */
  function Tokens(s: string): (tokens: seq<string>)
    requires WellEscaped(s)
    ensures tokens != []
  {
    if s == "" then [""]
    else if s[0] == '/' then [""] + Tokens(s[1..])
    else if s[0] != '~' then Extend(s[0], Tokens(s[1..]))
    else Extend(if s[1] == '0' then '~' else '/', Tokens(s[2..]))
  }

  /** One more character in front of the first token. */
  function Extend(c: char, tokens: seq<string>): (r: seq<string>)
    requires tokens != []
    ensures |r| == |tokens| && r[0] == [c] + tokens[0] && r[1..] == tokens[1..]
  {
    [[c] + tokens[0]] + tokens[1..]
  }

  lemma ExtendPrints(c: char, tokens: seq<string>)
    requires tokens != []
    ensures PrintTokens(Extend(c, tokens)) == EscapeChar(c) + PrintTokens(tokens)
  {
    var first := [c] + tokens[0];
    assert first[1..] == tokens[0];
    assert Escape(first) == EscapeChar(c) + Escape(tokens[0]);
  }

  lemma {:induction false} TokensPrint(s: string)
    requires WellEscaped(s)
    ensures PrintTokens(Tokens(s)) == s
    decreases |s|
  {
    if s == "" {
    } else if s[0] == '/' {
      TokensPrint(s[1..]);
      assert ([""] + Tokens(s[1..]))[1..] == Tokens(s[1..]);
      assert s == "/" + s[1..];
    } else if s[0] != '~' {
      TokensPrint(s[1..]);
      ExtendPrints(s[0], Tokens(s[1..]));
      assert s == EscapeChar(s[0]) + s[1..];
    } else {
      var c := if s[1] == '0' then '~' else '/';
      TokensPrint(s[2..]);
      ExtendPrints(c, Tokens(s[2..]));
      assert s == EscapeChar(c) + s[2..];
    }
  }

  lemma EscapedChar(c: char, rest: string)
    requires WellEscaped(rest)
    ensures WellEscaped(EscapeChar(c) + rest) && Tokens(EscapeChar(c) + rest) == Extend(c, Tokens(rest))
  {
    var whole := EscapeChar(c) + rest;
    assert whole[|EscapeChar(c)|..] == rest;
  }

  /** A token in front of what is read first. */
  function Prepend(token: string, tokens: seq<string>): (r: seq<string>)
    requires tokens != []
    ensures |r| == |tokens| && r[0] == token + tokens[0] && r[1..] == tokens[1..]
  {
    [token + tokens[0]] + tokens[1..]
  }

  lemma PrependChar(c: char, token: string, tokens: seq<string>)
    requires tokens != []
    ensures Extend(c, Prepend(token, tokens)) == Prepend([c] + token, tokens)
  {
    assert [c] + (token + tokens[0]) == ([c] + token) + tokens[0];
  }

  lemma {:induction false} EscapedPrefix(token: string, rest: string)
    requires WellEscaped(rest)
    ensures WellEscaped(Escape(token) + rest)
    ensures Tokens(Escape(token) + rest) == Prepend(token, Tokens(rest))
  {
    if token == "" {
      assert Escape(token) + rest == rest;
      assert token + Tokens(rest)[0] == Tokens(rest)[0];
    } else {
      var c, tail := token[0], Escape(token[1..]) + rest;
      EscapedPrefix(token[1..], rest);
      EscapedChar(c, tail);
      assert Escape(token) + rest == EscapeChar(c) + tail;
      PrependChar(c, token[1..], Tokens(rest));
      assert [c] + token[1..] == token;
    }
  }

  lemma SlashOpens(rest: string)
    requires WellEscaped(rest)
    ensures WellEscaped("/" + rest) && Tokens("/" + rest) == [""] + Tokens(rest)
  {
    assert ("/" + rest)[1..] == rest;
  }

  lemma PrependEmpty(token: string, tokens: seq<string>)
    ensures Prepend(token, [""] + tokens) == [token] + tokens
  {
    assert token + "" == token;
    assert ([""] + tokens)[1..] == tokens;
  }

  /** Printed tokens are well escaped and read back. */
  lemma {:induction false} TokensReadBack(tokens: seq<string>)
    requires tokens != []
    ensures WellEscaped(PrintTokens(tokens)) && Tokens(PrintTokens(tokens)) == tokens
  {
    var first := tokens[0];
    if |tokens| == 1 {
      EscapedPrefix(first, "");
      PrependEmpty(first, []);
      assert Escape(first) + "" == PrintTokens(tokens);
      assert [""] + [] == Tokens("") && [first] + [] == tokens;
    } else {
      var rest := PrintTokens(tokens[1..]);
      TokensReadBack(tokens[1..]);
      SlashOpens(rest);
      EscapedPrefix(first, "/" + rest);
      PrependEmpty(first, tokens[1..]);
      assert Escape(first) + ("/" + rest) == PrintTokens(tokens);
      assert [first] + tokens[1..] == tokens;
    }
  }

  /** The escape scan consumes the character after each tilde. */
  method ValidEscapes(pointer: string) returns (ok: bool)
    ensures ok <==> WellEscaped(pointer)
  {
    var i := 0;
    while i < |pointer|
      invariant i <= |pointer| && (WellEscaped(pointer) <==> WellEscaped(pointer[i..]))
    {
      var c := pointer[i];
      i := i + 1;
      if c == '~' {
        if i == |pointer| || !(pointer[i] in {'0', '1'}) {
          return false;
        }
        i := i + 1;
      }
    }
    return true;
  }

  ghost predicate IsPointer(pointer: string) {
    exists tokens :: PrintPointer(tokens) == pointer
  }

  lemma PointerIffEscaped(pointer: string)
    ensures IsPointer(pointer) <==> pointer == "" || (pointer[0] == '/' && WellEscaped(pointer))
  {
    if tokens :| PrintPointer(tokens) == pointer && pointer != "" {
      TokensReadBack(tokens);
      assert pointer[1..] == PrintTokens(tokens);
    }
    if pointer == "" {
      assert PrintPointer([]) == pointer;
    } else if pointer[0] == '/' && WellEscaped(pointer) {
      TokensPrint(pointer[1..]);
      assert PrintPointer(Tokens(pointer[1..])) == "/" + pointer[1..] == pointer;
    }
  }

  predicate Bounded(pointer: string, maximum: nat) {
    Utf8Length(pointer) <= maximum && forall i :: 0 <= i < |pointer| ==> !IsControl(pointer[i])
  }

  /** Accepts exactly the empty pointer and the bounded, control-free printed token lists. */
  method ValidateJsonPointer(pointer: string, maximum: nat) returns (ok: bool)
    ensures ok <==> IsPointer(pointer) && (pointer == "" || Bounded(pointer, maximum))
  {
    PointerIffEscaped(pointer);
    if pointer == "" {
      return true;
    }
    if pointer[0] != '/' || !Bounded(pointer, maximum) {
      return false;
    }
    ok := ValidEscapes(pointer);
  }

  /** A pointer selects one token list. */
  lemma PointerIsUnambiguous(a: seq<string>, b: seq<string>)
    requires PrintPointer(a) == PrintPointer(b)
    ensures a == b
  {
    if a != [] {
      TokensReadBack(a);
      TokensReadBack(b);
      assert PrintPointer(a)[1..] == PrintTokens(a) && PrintPointer(b)[1..] == PrintTokens(b);
    }
  }
}
