/** The `RateLimit` and `RateLimit-Policy` field members, and that a Structured
    Fields parser reads back exactly what was encoded. */
module HttpFields {
  import opened Basics
  import opened Policies

  const MAX_STRUCTURED_FIELD_INTEGER: nat := 999_999_999_999_999
  const MAX_POLICY_NAME_LENGTH: nat := 128
  const NANOS_PER_SECOND: nat := 1_000_000_000

  datatype EncodingError =
    | EmptyPolicyName
    | PolicyNameTooLong(actual: nat, maximum: nat)
    | InvalidPolicyNameCharacter(index: nat, character: char)
    | StructuredFieldIntegerTooLarge(actual: nat, maximum: nat)
    | QuotaPeriodNotWholeSeconds(actual: nat)

  /** Bytes of a character in UTF-8. */
  function Utf8Length(c: char): (n: nat)
    ensures n == 1 <==> c as int <= 0x7F
    ensures n == 2 <==> 0x80 <= c as int <= 0x7FF
    ensures n == 3 <==> 0x800 <= c as int <= 0xFFFF
    ensures n == 4 <==> c as int >= 0x1_0000
  {
    if c as int < 0x80 then 1 else if c as int < 0x800 then 2 else if c as int < 0x1_0000 then 3 else 4
  }

  function ByteLength(s: string): nat { if s == [] then 0 else ByteLength(s[..|s| - 1]) + Utf8Length(s[|s| - 1]) }

  predicate Visible(c: char) { ' ' <= c <= '~' }

  predicate Special(c: char) { c == '"' || c == '\\' }

  predicate AllVisible(s: string) { forall i | 0 <= i < |s| :: Visible(s[i]) }

  function Escaped(s: string): string {
    if s == [] then ""
    else
      var last := s[|s| - 1];
      Escaped(s[..|s| - 1]) + if Special(last) then ['\\', last] else [last]
  }

  /** `error` is the one reason, in the order the encoder looks, that a name is
      not encodable: the first invalid character is named by its byte index. */
  ghost predicate Rejects(error: EncodingError, name: string) {
    match error
    case EmptyPolicyName => name == []
    case PolicyNameTooLong(actual, maximum) =>
      name != [] && actual == ByteLength(name) > maximum == MAX_POLICY_NAME_LENGTH
    case InvalidPolicyNameCharacter(index, c) =>
      && name != [] && ByteLength(name) <= MAX_POLICY_NAME_LENGTH
      && exists i | 0 <= i < |name| ::
         AllVisible(name[..i]) && !Visible(name[i]) && c == name[i] && index == ByteLength(name[..i])
    case _ => false
  }

  predicate Encodable(name: string) { 1 <= ByteLength(name) <= MAX_POLICY_NAME_LENGTH && AllVisible(name) }

  lemma {:induction false} SomeBytes(s: string)
    ensures ByteLength(s) == 0 <==> s == []
  {
  }

  /** Visible names have one byte to a character. */
  lemma {:induction false} VisibleBytes(s: string)
    ensures AllVisible(s) <==> forall i | 0 <= i < |s| :: 0x20 <= s[i] as int <= 0x7E
    ensures AllVisible(s) ==> ByteLength(s) == |s|
  {
    if AllVisible(s) && s != [] { VisibleBytes(s[..|s| - 1]); }
  }

  /** Only the quote and the backslash are escaped, each with a backslash. */
  lemma {:induction false} EscapesOneByOne(s: string, c: char)
    ensures Escaped("") == "" && Escaped(s + [c]) == Escaped(s) + if c == '"' || c == '\\' then ['\\', c] else [c]
  {
    assert (s + [c])[..|s|] == s;
  }

  method EncodePolicyName(name: string) returns (r: Result<string, EncodingError>)
    ensures r.Ok? <==> Encodable(name)
    ensures r.Ok? <==> 1 <= |name| <= 128 && forall i | 0 <= i < |name| :: 0x20 <= name[i] as int <= 0x7E
    ensures r.Ok? ==> r.value == ['"'] + Escaped(name) + ['"']
    ensures r.Err? ==> Rejects(r.error, name)
    ensures r.Err? && r.error.PolicyNameTooLong? ==> r.error.actual > 128 == r.error.maximum
  {
    SomeBytes(name);
    VisibleBytes(name);
    if name == [] { return Err(EmptyPolicyName); }
    if ByteLength(name) > MAX_POLICY_NAME_LENGTH {
      return Err(PolicyNameTooLong(ByteLength(name), MAX_POLICY_NAME_LENGTH));
    }
    var encoded := ['"'];
    var index := 0;
    for i := 0 to |name|
      invariant encoded == ['"'] + Escaped(name[..i]) && index == ByteLength(name[..i]) && AllVisible(name[..i])
    {
      var character := name[i];
      assert name[..i + 1][..i] == name[..i];
      if !(' ' <= character <= '~') { return Err(InvalidPolicyNameCharacter(index, character)); }
      if character == '"' || character == '\\' { encoded := encoded + ['\\']; }
      encoded := encoded + [character];
      index := index + Utf8Length(character);
    }
    assert name[..|name|] == name;
    return Ok(encoded + ['"']);
  }

  /** The rest of a Structured Fields String after its opening quote, with the
      parsed text so far (section 4.2.5 of RFC 9651). */
  function ParseStringRest(input: string, output: string): Option<(string, string)> {
    if input == [] then None
    else if input[0] == '\\' then
      if |input| < 2 || !Special(input[1]) then None else ParseStringRest(input[2..], output + [input[1]])
    else if input[0] == '"' then Some((output, input[1..]))
    else if !Visible(input[0]) then None
    else ParseStringRest(input[1..], output + [input[0]])
  }

  function ParseString(input: string): Option<(string, string)> {
    if input == [] || input[0] != '"' then None else ParseStringRest(input[1..], "")
  }

  /** The parser accepts nothing but escaped visible text and its closing quote. */
  lemma {:induction false} ParsesOnlyEscaped(input: string, output: string) returns (name: string)
    requires ParseStringRest(input, output).Some?
    ensures AllVisible(name) && ParseStringRest(input, output).value.0 == output + name
    ensures input == EscapedFrom(name) + ['"'] + ParseStringRest(input, output).value.1
  {
    if input[0] == '"' {
      name := "";
      assert output + name == output;
    } else {
      var length := if input[0] == '\\' then 2 else 1;
      var c := input[length - 1];
      var rest := ParsesOnlyEscaped(input[length..], output + [c]);
      name := [c] + rest;
      assert name[1..] == rest && output + [c] + rest == output + name;
      assert input == input[..length] + input[length..];
    }
  }

  predicate IsDigit(c: char) { '0' <= c <= '9' }

  function DigitValue(c: char): nat
    requires IsDigit(c)
  {
    c as int - '0' as int
  }

  function DigitChar(d: nat): (c: char)
    requires d < 10
    ensures IsDigit(c) && DigitValue(c) == d
  {
    (d + '0' as int) as char
  }

  /** Decimal text, as formatting prints it. */
  function Decimal(n: nat): (text: string)
    ensures text != [] && forall i | 0 <= i < |text| :: IsDigit(text[i])
  {
    if n < 10 then [DigitChar(n)] else Decimal(n / 10) + [DigitChar(n % 10)]
  }

  /** The leading digits of the input, the number they spell and what follows. */
  function TakeDigits(input: string, value: nat, count: nat): (nat, nat, string) {
    if input != [] && IsDigit(input[0]) then TakeDigits(input[1..], value * 10 + DigitValue(input[0]), count + 1)
    else (value, count, input)
  }

  /** An Integer has one to fifteen digits (section 4.2.4 of RFC 9651). */
  function ParseInteger(input: string): Option<(nat, string)> {
    var (value, count, rest) := TakeDigits(input, 0, 0);
    if count == 0 || count > 15 then None else Some((value, rest))
  }

  function Consume(input: string, prefix: string): Option<string> {
    if prefix <= input then Some(input[|prefix|..]) else None
  }

  datatype Member = Member(name: string, first: nat, second: nat)

  /** A String item with two Integer parameters, such as `"name";r=N;t=S`. */
  function ParseMember(input: string, first: char, second: char): Option<Member> {
    match ParseString(input)
    case None => None
    case Some((name, afterName)) =>
      match ParseParameter(afterName, first)
      case None => None
      case Some((n, afterFirst)) =>
        match ParseParameter(afterFirst, second)
        case None => None
        case Some((s, rest)) => if rest == [] then Some(Member(name, n, s)) else None
  }

  function ParseParameter(input: string, key: char): Option<(nat, string)> {
    match Consume(input, [';', key, '='])
    case None => None
    case Some(rest) => ParseInteger(rest)
  }

  function Print(name: string, first: char, n: nat, second: char, s: nat): string {
    ['"'] + Escaped(name) + ['"'] + PrintParameter(first, n) + PrintParameter(second, s)
  }

  function PrintParameter(key: char, n: nat): string { [';', key, '='] + Decimal(n) }

  /** The parser reads an escaped name back, whatever follows it. */
  lemma {:induction false} ParseEscaped(done: string, name: string, tail: string)
    requires AllVisible(name)
    ensures ParseStringRest(EscapedFrom(name) + ['"'] + tail, done) == Some((done + name, tail))
    decreases |name|
  {
    var input := EscapedFrom(name) + ['"'] + tail;
    if name == [] {
      assert input == ['"'] + tail && done + name == done;
    } else {
      var c, rest := name[0], name[1..];
      var left := EscapedFrom(rest) + ['"'] + tail;
      ParseEscaped(done + [c], rest, tail);
      assert done + [c] + rest == done + name;
      if Special(c) {
        assert input == ['\\', c] + left && input[2..] == left;
      } else {
        assert input == [c] + left && input[1..] == left;
      }
    }
  }

  /** Escaping, unfolded from the front. */
  function EscapedFrom(s: string): string {
    if s == [] then "" else (if Special(s[0]) then ['\\', s[0]] else [s[0]]) + EscapedFrom(s[1..])
  }

  lemma {:induction false} EscapedEitherWay(s: string)
    ensures Escaped(s) == EscapedFrom(s)
  {
    if |s| > 1 {
      var init, last := s[..|s| - 1], s[|s| - 1];
      EscapedEitherWay(init);
      EscapedEitherWay(s[1..]);
      EscapedEitherWay(init[1..]);
      assert s[1..][..|s| - 2] == init[1..];
    } else if |s| == 1 {
      assert s[1..] == [] && s[..0] == [];
    }
  }

  lemma {:induction false} TakeDecimal(n: nat, tail: string, value: nat, count: nat)
    requires tail == [] || !IsDigit(tail[0])
    ensures TakeDigits(Decimal(n) + tail, value, count) ==
            (value * Power10(|Decimal(n)|) + n, count + |Decimal(n)|, tail)
  {
    TakeDigitsOf(Decimal(n), tail, value, count);
    DecimalSpells(n);
  }

  function Power10(k: nat): nat { if k == 0 then 1 else 10 * Power10(k - 1) }

  function Spelled(digits: string): nat
    requires forall i | 0 <= i < |digits| :: IsDigit(digits[i])
  {
    if digits == [] then 0 else Spelled(digits[..|digits| - 1]) * 10 + DigitValue(digits[|digits| - 1])
  }

  lemma {:induction false} DecimalSpells(n: nat)
    ensures Spelled(Decimal(n)) == n
  {
    if n >= 10 {
      DecimalSpells(n / 10);
      assert Decimal(n)[..|Decimal(n)| - 1] == Decimal(n / 10);
    }
  }

  lemma {:induction false} TakeDigitsOf(digits: string, tail: string, value: nat, count: nat)
    requires forall i | 0 <= i < |digits| :: IsDigit(digits[i])
    requires tail == [] || !IsDigit(tail[0])
    ensures TakeDigits(digits + tail, value, count) ==
            (value * Power10(|digits|) + Spelled(digits), count + |digits|, tail)
  {
    if digits == [] {
      assert digits + tail == tail;
    } else {
      var rest := digits[1..];
      assert (digits + tail)[1..] == rest + tail;
      TakeDigitsOf(rest, tail, value * 10 + DigitValue(digits[0]), count + 1);
      SpelledFront(digits);
      ShiftDigit(value, DigitValue(digits[0]), Power10(|rest|));
    }
  }

  lemma {:induction false} ShiftDigit(v: nat, d: nat, k: nat)
    ensures (v * 10 + d) * k == v * (10 * k) + d * k
    ensures (d * k) * 10 == d * (10 * k)
  {
  }

  lemma {:induction false} SpelledFront(digits: string)
    requires digits != [] && forall i | 0 <= i < |digits| :: IsDigit(digits[i])
    ensures Spelled(digits) == DigitValue(digits[0]) * Power10(|digits| - 1) + Spelled(digits[1..])
  {
    if |digits| > 1 {
      var init := digits[..|digits| - 1];
      SpelledFront(init);
      assert digits[1..][..|digits| - 2] == init[1..];
      ShiftDigit(0, DigitValue(digits[0]), Power10(|init| - 1));
    }
  }

  /** An Integer is read exactly when it has one to fifteen digits. */
  lemma {:induction false} IntegerDigits(digits: string, tail: string)
    requires forall i | 0 <= i < |digits| :: IsDigit(digits[i])
    requires tail == [] || !IsDigit(tail[0])
    ensures ParseInteger(digits + tail) == if 1 <= |digits| <= 15 then Some((Spelled(digits), tail)) else None
  {
    TakeDigitsOf(digits, tail, 0, 0);
  }

  /** Fifteen digits are enough for every structured integer. */
  lemma {:induction false} DecimalLength(n: nat, k: nat)
    requires k >= 1 && n < Power10(k)
    ensures |Decimal(n)| <= k
  {
    if n >= 10 { DecimalLength(n / 10, k - 1); }
  }

  lemma {:induction false} ParameterRoundTrip(key: char, n: nat, tail: string)
    requires n <= MAX_STRUCTURED_FIELD_INTEGER && (tail == [] || !IsDigit(tail[0]))
    ensures ParseParameter(PrintParameter(key, n) + tail, key) == Some((n, tail))
  {
    var prefix, input := [';', key, '='], PrintParameter(key, n) + tail;
    assert input == prefix + (Decimal(n) + tail) && input[3..] == Decimal(n) + tail;
    TakeDecimal(n, tail, 0, 0);
    assert Power10(5) == 10_0000;
    assert Power10(10) == 100_0000_0000;
    assert Power10(15) == 1000_0000_0000_0000;
    DecimalLength(n, 15);
  }

  /** Every printed member parses back to its name and its two numbers. */
  lemma {:induction false} PrintRoundTrip(name: string, first: char, n: nat, second: char, s: nat)
    requires AllVisible(name) && n <= MAX_STRUCTURED_FIELD_INTEGER && s <= MAX_STRUCTURED_FIELD_INTEGER
    ensures ParseMember(Print(name, first, n, second, s), first, second) == Some(Member(name, n, s))
  {
    hide ParseStringRest, PrintParameter, ParseParameter, Escaped, EscapedFrom;
    var input := Print(name, first, n, second, s);
    var afterFirst := PrintParameter(second, s) + "";
    var afterName := PrintParameter(first, n) + afterFirst;
    EscapedEitherWay(name);
    ParseEscaped("", name, afterName);
    assert input[1..] == EscapedFrom(name) + ['"'] + afterName;
    assert "" + name == name;
    StartsAtSemicolon(second, s);
    ParameterRoundTrip(first, n, afterFirst);
    ParameterRoundTrip(second, s, "");
  }

  lemma {:induction false} StartsAtSemicolon(key: char, n: nat)
    ensures PrintParameter(key, n) != [] && !IsDigit((PrintParameter(key, n) + "")[0])
  {
  }

  function StructuredInteger(value: nat): Result<nat, EncodingError> {
    if value > MAX_STRUCTURED_FIELD_INTEGER then
      Err(StructuredFieldIntegerTooLarge(value, MAX_STRUCTURED_FIELD_INTEGER))
    else Ok(value)
  }

  /** A delay in nanoseconds as whole seconds, any fraction rounded up. */
  function Seconds(nanos: nat): nat {
    if nanos % NANOS_PER_SECOND == 0 then nanos / NANOS_PER_SECOND else Min(nanos / NANOS_PER_SECOND + 1, U64_MAX)
  }

  /** That is the least number of seconds covering the delay, unless the delay needs
      more than 64 bits of seconds: then it saturates. */
  lemma {:induction false} SecondsCoverDelay(nanos: nat)
    requires nanos / 1_000_000_000 <= 0xFFFF_FFFF_FFFF_FFFF
    ensures if nanos <= 0xFFFF_FFFF_FFFF_FFFF * 1_000_000_000
            then nanos <= Seconds(nanos) * 1_000_000_000 < nanos + 1_000_000_000
            else Seconds(nanos) == 0xFFFF_FFFF_FFFF_FFFF
  {
  }

  lemma {:induction false} UnsaturatedCovers(nanos: nat)
    ensures Seconds(nanos) < U64_MAX ==> nanos <= Seconds(nanos) * NANOS_PER_SECOND < nanos + NANOS_PER_SECOND
  {
  }

  datatype QuotaState = Available(available: nat, replenishesNanos: nat) | Exhausted(retryNanos: nat)

  function ShownAvailable(state: QuotaState): nat { if state.Available? then state.available else 0 }

  function ShownDelay(state: QuotaState): nat { if state.Available? then state.replenishesNanos else state.retryNanos }

  /** One `RateLimit` member. A reader recovers the name, what is available and a
      delay that never ends before the backend's. */
  method ServiceLimit(name: string, state: QuotaState) returns (r: Result<string, EncodingError>)
    ensures r.Ok? <==> Encodable(name) && ShownAvailable(state) <= MAX_STRUCTURED_FIELD_INTEGER
                       && Seconds(ShownDelay(state)) <= MAX_STRUCTURED_FIELD_INTEGER
    ensures r.Ok? ==>
              match state
              case Available(available, nanos) =>
                && available <= 999_999_999_999_999
                && exists t: nat ::
                     && r.value == ['"'] + Escaped(name) + "\";r=" + Decimal(available) + ";t=" + Decimal(t)
                     && nanos <= t * 1_000_000_000 < nanos + 1_000_000_000 && t <= 999_999_999_999_999
              case Exhausted(nanos) =>
                exists t: nat ::
                  && r.value == ['"'] + Escaped(name) + "\";r=0;t=" + Decimal(t)
                  && nanos <= t * 1_000_000_000 < nanos + 1_000_000_000 && t <= 999_999_999_999_999
    ensures r.Err? && Encodable(name) ==>
              var (available, window) := (ShownAvailable(state), Seconds(ShownDelay(state)));
              r.error == StructuredFieldIntegerTooLarge(if available > MAX_STRUCTURED_FIELD_INTEGER then available
                                                        else window,
                                                        MAX_STRUCTURED_FIELD_INTEGER)
    ensures r.Err? && !Encodable(name) ==> Rejects(r.error, name)
    ensures r.Ok? ==>
              exists t: nat ::
                && ParseMember(r.value, 'r', 't') == Some(Member(name, ShownAvailable(state), t))
                && ShownDelay(state) <= t * NANOS_PER_SECOND < ShownDelay(state) + NANOS_PER_SECOND
  {
    hide ParseMember, Print, Seconds, Escaped;
    var encoded := EncodePolicyName(name);
    if encoded.Err? { return Err(encoded.error); }
    var available := StructuredInteger(ShownAvailable(state));
    if available.Err? { return Err(available.error); }
    var window := StructuredInteger(Seconds(ShownDelay(state)));
    if window.Err? { return Err(window.error); }
    UnsaturatedCovers(ShownDelay(state));
    PrintRoundTrip(name, 'r', available.value, 't', window.value);
    Assembled(name, 'r', available.value, 't', window.value);
    MemberText(name, 'r', available.value, 't', window.value);
    assert Decimal(0) == "0";
    return Ok(encoded.value + PrintParameter('r', available.value) + PrintParameter('t', window.value));
  }

  lemma {:induction false} Assembled(name: string, first: char, n: nat, second: char, s: nat)
    ensures Print(name, first, n, second, s) ==
            ['"'] + Escaped(name) + ['"'] + PrintParameter(first, n) + PrintParameter(second, s)
  {
  }

  lemma {:induction false} MemberText(name: string, first: char, n: nat, second: char, s: nat)
    ensures ['"'] + Escaped(name) + ['"'] + PrintParameter(first, n) + PrintParameter(second, s) ==
            ['"'] + Escaped(name) + ['"', ';', first, '='] + Decimal(n) + [';', second, '='] + Decimal(s)
  {
    hide Escaped, Decimal;
  }

  function QuotaOf(p: Policy): nat { if p.FixedWindow? then p.limit else p.quota }

  function PeriodOf(p: Policy): nat { if p.FixedWindow? then p.window else p.period }

  /** One `RateLimit-Policy` member: the quota and its exact whole-second period. */
  method QuotaPolicy(name: string, policy: Policy) returns (r: Result<string, EncodingError>)
    requires ValidPolicy(policy)
    ensures r.Ok? <==>
            Encodable(name) && QuotaOf(policy) <= MAX_STRUCTURED_FIELD_INTEGER && PeriodOf(policy) % 1000 == 0
    ensures r.Err? && Encodable(name) ==>
              r.error == if QuotaOf(policy) > MAX_STRUCTURED_FIELD_INTEGER
                         then StructuredFieldIntegerTooLarge(QuotaOf(policy), MAX_STRUCTURED_FIELD_INTEGER)
                         else QuotaPeriodNotWholeSeconds(PeriodOf(policy))
    ensures r.Err? && !Encodable(name) ==> Rejects(r.error, name)
    ensures r.Ok? ==>
              var (quota, millis) := match policy
                case FixedWindow(limit, window) => (limit, window)
                case Gcra(quota, period, _) => (quota, period);
              && quota <= 999_999_999_999_999 && millis % 1000 == 0
              && r.value == ['"'] + Escaped(name) + "\";q=" + Decimal(quota) + ";w=" + Decimal(millis / 1000)
    ensures r.Ok? ==>
              exists w: nat ::
                ParseMember(r.value, 'q', 'w') == Some(Member(name, QuotaOf(policy), w)) && w * 1000 == PeriodOf(policy)
  {
    hide ParseMember, Print, Escaped;
    var encoded := EncodePolicyName(name);
    if encoded.Err? { return Err(encoded.error); }
    var quota := StructuredInteger(QuotaOf(policy));
    if quota.Err? { return Err(quota.error); }
    if PeriodOf(policy) % 1000 != 0 { return Err(QuotaPeriodNotWholeSeconds(PeriodOf(policy))); }
    var period := StructuredInteger(PeriodOf(policy) / 1000);
    if period.Err? { assert false; }
    PrintRoundTrip(name, 'q', quota.value, 'w', period.value);
    Assembled(name, 'q', quota.value, 'w', period.value);
    MemberText(name, 'q', quota.value, 'w', period.value);
    return Ok(encoded.value + PrintParameter('q', quota.value) + PrintParameter('w', period.value));
  }

  /** Distinct names or numbers never encode to the same member. */
  lemma {:induction false} EncodingIsInjective(a: Member, b: Member, first: char, second: char)
    requires AllVisible(a.name) && a.first <= MAX_STRUCTURED_FIELD_INTEGER && a.second <= MAX_STRUCTURED_FIELD_INTEGER
    requires AllVisible(b.name) && b.first <= MAX_STRUCTURED_FIELD_INTEGER && b.second <= MAX_STRUCTURED_FIELD_INTEGER
    requires Print(a.name, first, a.first, second, a.second) == Print(b.name, first, b.first, second, b.second)
    ensures a == b
  {
    hide ParseMember, Print;
    PrintRoundTrip(a.name, first, a.first, second, a.second);
    PrintRoundTrip(b.name, first, b.first, second, b.second);
  }
}
