/** Two readers of the same duration text: the validator, which accepts what pg_doorman
    reads, and the supervisor's shutdown wait, which parses it with Go's
    `time.ParseDuration`. */
module Duration {
  import opened Clock
  import opened Text
  import opened Wrappers

  const DEFAULT_SHUTDOWN_TIMEOUT: nat := 10 * SECOND
  const SHUTDOWN_WAIT_MARGIN: nat := 5 * SECOND

  predicate IsDigit(c: char) { '0' <= c <= '9' }

  /** Length of the longest prefix of digits. */
  function DigitPrefix(s: string): (n: nat)
    ensures n <= |s| && (forall i | 0 <= i < n :: IsDigit(s[i])) && (n < |s| ==> !IsDigit(s[n]))
  {
    if s != "" && IsDigit(s[0]) then 1 + DigitPrefix(s[1..]) else 0
  }

  /** Length of the longest prefix without digits and dots. */
  function UnitPrefix(s: string): (n: nat)
    ensures n <= |s| && (forall i | 0 <= i < n :: !IsDigit(s[i]) && s[i] != '.')
    ensures n < |s| ==> IsDigit(s[n]) || s[n] == '.'
  {
    if s != "" && !IsDigit(s[0]) && s[0] != '.' then 1 + UnitPrefix(s[1..]) else 0
  }

  predicate AllDigits(s: string) { forall i | 0 <= i < |s| :: IsDigit(s[i]) }

  function DigitValue(c: char): nat
    requires IsDigit(c)
  {
    c as nat - '0' as nat
  }

  function Number(x: nat, digits: string): (n: nat)
    requires AllDigits(digits)
    ensures x <= n
    decreases |digits|
  {
    if digits == "" then x else Number(10 * x + DigitValue(digits[0]), digits[1..])
  }

  // ------------------------------------------------------------------ validator

  datatype Suffix = Bare | Ms | S | M | H | D | Unknown

  function SuffixOf(u: string): Suffix {
    if |u| == 0 then Bare
    else if |u| == 1 then
      if u[0] == 's' then S else if u[0] == 'm' then M else if u[0] == 'h' then H
      else if u[0] == 'd' then D else Unknown
    else if |u| == 2 && u[0] == 'm' && u[1] == 's' then Ms
    else Unknown
  }

  /** `^[0-9]+(ms|s|m|h|d)?$` */
  predicate MatchesPattern(t: string) {
    DigitPrefix(t) > 0 && SuffixOf(t[DigitPrefix(t)..]) != Unknown
  }

  predicate ValidDuration(value: string) {
    value == "" || MatchesPattern(Lower(TrimSpace(value)))
  }

  /** A bare number counts milliseconds. */
  function UnitOf(suffix: Suffix): nat {
    match suffix
    case S => SECOND
    case M => MINUTE
    case H => HOUR
    case D => DAY
    case _ => MILLISECOND
  }

  /** What pg_doorman takes an accepted value to mean, in nanoseconds. */
  function Denoted(value: string): nat {
    var t := Lower(TrimSpace(value));
    Number(0, t[..DigitPrefix(t)]) * UnitOf(SuffixOf(t[DigitPrefix(t)..]))
  }

  // --------------------------------------------------------- time.ParseDuration

  function LeadingInt(x: nat, digits: string): Option<nat>
    requires AllDigits(digits)
    decreases |digits|
  {
    if digits == "" then Some(x)
    else if x > TWO_63 / 10 then None
    else
      var next := 10 * x + DigitValue(digits[0]);
      if next > TWO_63 then None else LeadingInt(next, digits[1..])
  }

  /** Go's unit names: ns, us and its two Greek spellings, ms, s, m, h. */
  function GoUnit(u: string): (unit: Option<nat>)
    ensures unit.Some? ==> unit.value > 0
  {
    if |u| == 1 then
      if u[0] == 's' then Some(SECOND) else if u[0] == 'm' then Some(MINUTE)
      else if u[0] == 'h' then Some(HOUR) else None
    else if |u| == 2 && u[1] == 's' then
      if u[0] == 'n' then Some(NANOSECOND)
      else if u[0] == 'u' || u[0] == '\U{b5}' || u[0] == '\U{3bc}' then Some(MICROSECOND)
      else if u[0] == 'm' then Some(MILLISECOND) else None
    else None
  }

  lemma MulFits(v: nat, unit: nat)
    requires unit > 0
    ensures v > TWO_63 / unit <==> v * unit > TWO_63
  {
    if v > TWO_63 / unit {
      assert v * unit >= (TWO_63 / unit + 1) * unit;
    } else {
      assert v * unit <= TWO_63 / unit * unit;
    }
  }

  function Scaled(v: nat, unit: nat): (x: Option<nat>)
    requires unit > 0
    ensures x == if v * unit <= TWO_63 then Some(v * unit) else None
  {
    MulFits(v, unit);
    if v > TWO_63 / unit then None else Some(v * unit)
  }

  function Accumulated(d: nat, x: nat): (sum: Option<nat>)
    ensures d == 0 && x <= TWO_63 ==> sum == Some(x)
  {
    var sum := (d + x) % TWO_64;
    if sum > TWO_63 then None else Some(sum)
  }

  /** Adds the first number-unit group to d; the text starts with n digits and u unit
      characters. */
  function FirstGroup(s: string, d: nat, n: nat, u: nat): Option<nat>
    requires n + u <= |s| && AllDigits(s[..n])
  {
    if n == 0 || u == 0 then None
    else
      var v := LeadingInt(0, s[..n]);
      var unit := GoUnit(s[n..n + u]);
      var x := if v.None? || unit.None? then None else Scaled(v.value, unit.value);
      if x.None? then None else Accumulated(d, x.value)
  }

  /** The number-unit groups of a text without dots, in uint64 arithmetic. */
  function ParseGroups(s: string, d: nat): Option<nat>
    decreases |s|
  {
    if s == "" then Some(d)
    else
      var n := DigitPrefix(s);
      var u := UnitPrefix(s[n..]);
      var sum := FirstGroup(s, d, n, u);
      if sum.None? then None else ParseGroups(s[n + u..], sum.value)
  }

  /** `dotted` stands for the parser on texts with a decimal point. */
  function ParseDuration(s: string, dotted: string -> Option<int>): Option<int> {
    if '.' in s then dotted(s)
    else
      var signed := s != "" && (s[0] == '-' || s[0] == '+');
      var rest := if signed then s[1..] else s;
      if rest == "0" then Some(0)
      else if rest == "" then None
      else
        var d := ParseGroups(rest, 0);
        if d.None? then None
        else
          var v: int := d.value;
          if signed && s[0] == '-' then Some(-v)
          else if v > TWO_63 - 1 then None
          else Some(v)
  }

  /** `shutdownTimeout` is None when the config cannot be read or parsed. */
  function WaitDelay(shutdownTimeout: Option<string>, dotted: string -> Option<int>): int {
    var parsed := if shutdownTimeout.None? then None else ParseDuration(shutdownTimeout.value, dotted);
    Int64((if parsed.Some? then parsed.value else DEFAULT_SHUTDOWN_TIMEOUT) + SHUTDOWN_WAIT_MARGIN)
  }

  // ------------------------------------------------------------------ agreement

  lemma {:induction false} LeadingIntIsNumber(x: nat, digits: string)
    requires x <= TWO_63 && AllDigits(digits)
    decreases |digits|
    ensures LeadingInt(x, digits) == if Number(x, digits) <= TWO_63 then Some(Number(x, digits)) else None
  {
    if digits != "" {
      var next := 10 * x + DigitValue(digits[0]);
      if x <= TWO_63 / 10 && next <= TWO_63 {
        LeadingIntIsNumber(next, digits[1..]);
      }
    }
  }

  /** The value is digits and one of the suffixes both readers know, nothing else. */
  predicate Plain(value: string) {
    && DigitPrefix(value) > 0
    && var suffix := SuffixOf(value[DigitPrefix(value)..]); suffix.Ms? || suffix.S? || suffix.M? || suffix.H?
  }

  /** A value that is one number and one suffix: the only question is the unit. */
  lemma SingleGroup(value: string, n: nat)
    requires 0 < n == DigitPrefix(value) && UnitPrefix(value[n..]) == |value| - n
    ensures ParseGroups(value, 0) == FirstGroup(value, 0, n, |value| - n)
  {
    assert value[n + (|value| - n)..] == "";
  }

  lemma FirstGroupValue(value: string, n: nat)
    requires 0 < n <= |value| && AllDigits(value[..n])
    ensures var unit := GoUnit(value[n..]); var v := Number(0, value[..n]);
      FirstGroup(value, 0, n, |value| - n) ==
        if n < |value| && unit.Some? && v * unit.value <= TWO_63 then Some(v * unit.value) else None
  {
    LeadingIntIsNumber(0, value[..n]);
    assert value[n..n + (|value| - n)] == value[n..];
    var unit := GoUnit(value[n..]);
    if unit.Some? {
      assert Number(0, value[..n]) <= Number(0, value[..n]) * unit.value;
    }
  }

  /** A lower-case value matching the pattern is its own trimmed, lower-cased form. */
  lemma PatternIsTrimmed(value: string)
    requires MatchesPattern(value)
    ensures TrimSpace(value) == value && Lower(value) == value
    ensures value != "" && ValidDuration(value)
  {
    var k, m := TrimShape(value);
    assert !IsSpace(value[0]) && !IsSpace(value[|value| - 1]);
    var n := DigitPrefix(value);
    forall i | 0 <= i < |value| ensures LowerChar(value[i]) == value[i] {
      assert i >= n ==> value[i] == value[n..][i - n];
    }
    assert Lower(value) == value;
  }

  /** What follows the digits of an accepted value: letters that lower to a suffix, then
      white space. */
  ghost predicate SuffixAndPadding(u: string, core: string) {
    && core <= u && SuffixOf(Lower(core)) != Unknown
    && forall i | |core| <= i < |u| :: IsSpace(u[i])
  }

  lemma CoreChars(u: string, core: string, i: nat)
    requires SuffixAndPadding(u, core) && i < |core|
    ensures |core| <= 2 && LowerChar(u[i]) in {'m', 's', 'h', 'd'}
  {
    assert Lower(core)[i] == LowerChar(u[i]);
  }

  /** Go takes it as one unit, and knows it exactly when it is a plain suffix. */
  lemma GoOnSuffix(u: string, core: string)
    requires SuffixAndPadding(u, core)
    ensures UnitPrefix(u) == |u|
    ensures forall i | 0 <= i < |u| :: u[i] != '.'
    ensures GoUnit(u).Some? <==> SuffixOf(u) == Ms || SuffixOf(u) == S || SuffixOf(u) == M || SuffixOf(u) == H
  {
    forall i | 0 <= i < |u| ensures u[i] != '.' && !IsDigit(u[i]) {
      if i < |core| {
        CoreChars(u, core, i);
      }
    }
    if GoUnit(u).Some? && |u| == 2 {
      assert !IsSpace(u[1]);
      CoreChars(u, core, 0);
    }
  }

  /** An accepted value is white space, digits, and then suffix and padding. */
  lemma AcceptedShape(value: string) returns (k: nat, n: nat, core: string)
    requires value != "" && ValidDuration(value)
    ensures 0 < n && k + n <= |value|
    ensures forall i | 0 <= i < k :: IsSpace(value[i])
    ensures AllDigits(value[k..k + n])
    ensures SuffixAndPadding(value[k + n..], core)
  {
    var m;
    k, m := TrimShape(value);
    var t := Lower(value[k..m]);
    n := DigitPrefix(t);
    core := value[k + n..m];
    assert t[n..] == Lower(core);
    var digits, rest := value[k..k + n], value[k + n..];
    forall i | 0 <= i < |digits| ensures IsDigit(digits[i]) {
      assert t[i] == LowerChar(digits[i]);
    }
    assert forall i | |core| <= i < |rest| :: rest[i] == value[k + n + i];
  }

  /** The nanoseconds of a unit as it may be written, None for any other text. */
  ghost function NanosOf(u: string): Option<nat> {
    if u == "" then Some(1_000_000)
    else if |u| == 1 then
      match LowerChar(u[0])
      case 's' => Some(1_000_000_000)
      case 'm' => Some(60_000_000_000)
      case 'h' => Some(3_600_000_000_000)
      case 'd' => Some(86_400_000_000_000)
      case _ => None
    else if |u| == 2 && LowerChar(u[0]) == 'm' && LowerChar(u[1]) == 's' then Some(1_000_000)
    else None
  }

  /** The text is digits from k on, then a unit up to m, with white space around them. */
  ghost predicate WrittenAs(value: string, k: nat, n: nat, m: nat) {
    && 0 < n && k + n <= m <= |value|
    && AllDigits(value[k..k + n]) && NanosOf(value[k + n..m]).Some?
    && forall i | 0 <= i < k || m <= i < |value| :: IsSpace(value[i])
  }

  lemma WrittenIsTrimmed(value: string, k: nat, n: nat, m: nat)
    requires WrittenAs(value, k, n, m)
    ensures TrimSpace(value) == value[k..m]
  {
    assert IsDigit(value[k..k + n][0]) && value[k..k + n][0] == value[k];
    if m == k + n {
      assert IsDigit(value[k..k + n][n - 1]) && value[k..k + n][n - 1] == value[m - 1];
    } else {
      var u := value[k + n..m];
      assert u[|u| - 1] == value[m - 1];
    }
    TrimExactly(value, k, m);
  }

  /** Such a text is accepted, and denotes its number in that unit. */
  lemma WrittenDenotes(value: string, k: nat, n: nat, m: nat)
    requires WrittenAs(value, k, n, m)
    ensures ValidDuration(value) && Denoted(value) == Number(0, value[k..k + n]) * NanosOf(value[k + n..m]).value
  {
    WrittenIsTrimmed(value, k, n, m);
    var core, u := value[k..m], value[k + n..m];
    var t := Lower(core);
    assert core[..n] == value[k..k + n] && core[n..] == u;
    forall i | 0 <= i < n ensures t[i] == core[i] && IsDigit(t[i]) {
      assert core[i] == core[..n][i];
    }
    if n < |t| { assert t[n] == LowerChar(u[0]); }
    DigitPrefixIs(t, n);
    assert t[..n] == core[..n];
    assert t[n..] == Lower(u);
  }

  /** The accepted texts are exactly these and the empty one. */
  lemma AcceptedExactly(value: string)
    ensures ValidDuration(value) <==> value == "" || exists k, n, m :: WrittenAs(value, k, n, m)
  {
    if value != "" && ValidDuration(value) {
      var k, n, core := AcceptedShape(value);
      var m := k + n + |core|;
      assert value[k + n..m] == core;
      SuffixIsUnit(core);
      forall i | m <= i < |value| ensures IsSpace(value[i]) {
        assert value[i] == value[k + n..][i - k - n];
      }
      assert WrittenAs(value, k, n, m);
    }
    forall k, n, m | WrittenAs(value, k, n, m) ensures ValidDuration(value) {
      WrittenDenotes(value, k, n, m);
    }
  }

  lemma SuffixIsUnit(core: string)
    ensures SuffixOf(Lower(core)) != Unknown <==> NanosOf(core).Some?
  {
    if |core| == 1 { assert Lower(core)[0] == LowerChar(core[0]); }
    if |core| == 2 { assert Lower(core)[0] == LowerChar(core[0]) && Lower(core)[1] == LowerChar(core[1]); }
  }

  lemma DigitPrefixIs(s: string, n: nat)
    requires n <= |s| && AllDigits(s[..n]) && (n < |s| ==> !IsDigit(s[n]))
    ensures DigitPrefix(s) == n
  {
    assert forall i | 0 <= i < n :: s[..n][i] == s[i];
  }

  lemma NoDot(value: string, n: nat)
    requires n <= |value| && AllDigits(value[..n]) && forall i | 0 <= i < |value| - n :: value[n..][i] != '.'
    ensures '.' !in value
  {
    forall i | 0 <= i < |value| ensures value[i] != '.' {
      assert value[i] == if i < n then value[..n][i] else value[n..][i - n];
    }
  }

  /** Without leading white space the value is a single group. */
  lemma UnpaddedGroups(value: string, n: nat, core: string)
    requires 0 < n <= |value| && AllDigits(value[..n]) && SuffixAndPadding(value[n..], core)
    ensures DigitPrefix(value) == n && '.' !in value && IsDigit(value[0])
    ensures GoUnit(value[n..]).Some? <==> Plain(value)
    ensures ParseGroups(value, 0) == FirstGroup(value, 0, n, |value| - n)
  {
    var u := value[n..];
    GoOnSuffix(u, core);
    assert n < |value| ==> u[0] == value[n] && UnitPrefix(u) > 0;
    DigitPrefixIs(value, n);
    NoDot(value, n);
    SingleGroup(value, n);
  }

  lemma UnsignedParse(value: string, dotted: string -> Option<int>)
    requires value != "" && '.' !in value && IsDigit(value[0]) && value != "0"
    ensures ParseDuration(value, dotted) ==
      (var d := ParseGroups(value, 0);
       if d.None? || d.value >= TWO_63 then None else Some(d.value))
  {
  }

  lemma UnpaddedValue(value: string, n: nat, core: string, dotted: string -> Option<int>)
    requires 0 < n <= |value| && AllDigits(value[..n]) && SuffixAndPadding(value[n..], core) && value != "0"
    ensures DigitPrefix(value) == n
    ensures ParseDuration(value, dotted) ==
      (var d := Number(0, value[..n]) * UnitOf(SuffixOf(value[n..]));
       if Plain(value) && d < TWO_63 then Some(d) else None)
  {
    UnpaddedGroups(value, n, core);
    PlainGroup(value, n);
    UnsignedParse(value, dotted);
  }

  lemma UnitsAgree(u: string)
    requires GoUnit(u).Some?
    ensures SuffixOf(u) == Ms || SuffixOf(u) == S || SuffixOf(u) == M || SuffixOf(u) == H ==>
      GoUnit(u) == Some(UnitOf(SuffixOf(u)))
    ensures u != ""
  {
  }

  lemma PlainGroup(value: string, n: nat)
    requires 0 < n == DigitPrefix(value) && AllDigits(value[..n])
    requires GoUnit(value[n..]).Some? <==> Plain(value)
    ensures var d := Number(0, value[..n]) * UnitOf(SuffixOf(value[n..]));
      FirstGroup(value, 0, n, |value| - n) == if Plain(value) && d <= TWO_63 then Some(d) else None
  {
    FirstGroupValue(value, n);
    if Plain(value) { UnitsAgree(value[n..]); }
  }

  /** Main result: Go reads an accepted value exactly when it is the bare "0" or a plain
      value within range, and then as what pg_doorman takes it to mean; every other bare
      number, the suffix d, upper case and padding are not read at all. */
  lemma ReadersCompared(value: string, dotted: string -> Option<int>)
    requires value != "" && ValidDuration(value)
    ensures ParseDuration(value, dotted) ==
      if value == "0" then Some(0)
      else if Plain(value) && Denoted(value) < TWO_63 then Some(Denoted(value))
      else None
  {
    var k, n, core := AcceptedShape(value);
    if k == 0 {
      assert value[0..n] == value[..n];
      if value != "0" {
        UnpaddedValue(value, n, core, dotted);
      }
      if Plain(value) {
        PatternIsTrimmed(value);
      }
    } else {
      PaddedValue(value, k, n, core, dotted);
    }
  }

  lemma PaddedValue(value: string, k: nat, n: nat, core: string, dotted: string -> Option<int>)
    requires 0 < k && k + n <= |value| && forall i | 0 <= i < k :: IsSpace(value[i])
    requires AllDigits(value[k..k + n]) && SuffixAndPadding(value[k + n..], core)
    ensures value != "0" && !Plain(value) && ParseDuration(value, dotted) == None
  {
    assert IsSpace(value[0]) && DigitPrefix(value) == 0;
    PaddedHasNoDot(value, k, n, core);
    assert FirstGroup(value, 0, 0, UnitPrefix(value[0..])) == None;
  }

  lemma PaddedHasNoDot(value: string, k: nat, n: nat, core: string)
    requires k + n <= |value| && forall i | 0 <= i < k :: IsSpace(value[i])
    requires AllDigits(value[k..k + n]) && SuffixAndPadding(value[k + n..], core)
    ensures '.' !in value
  {
    GoOnSuffix(value[k + n..], core);
    forall i | 0 <= i < |value| ensures value[i] != '.' {
      if k <= i < k + n {
        assert value[i] == value[k..k + n][i - k];
      } else if k + n <= i {
        assert value[i] == value[k + n..][i - k - n];
      }
    }
  }

  lemma ZeroDenotesZero()
    ensures Denoted("0") == 0
  {
    assert TrimSpace("0") == "0" && Lower("0") == "0";
    assert Number(0, "0") == Number(0, "0"[1..]);
  }

  /** Main result: the supervisor waits what the accepted timeout denotes plus five seconds
      exactly when Go reads it and the sum fits 64 bits, or when it happens to denote the
      default of ten; what Go does not read, or no config at all, makes it wait fifteen. */
  lemma WaitDelayHonoursTimeout(value: string, dotted: string -> Option<int>)
    requires value != "" && ValidDuration(value)
    ensures WaitDelay(Some(value), dotted) == Denoted(value) + 5 * SECOND <==>
      || value == "0"
      || Denoted(value) == 10 * SECOND
      || (Plain(value) && Denoted(value) + 5 * SECOND < TWO_63)
    ensures value != "0" && !(Plain(value) && Denoted(value) < TWO_63) ==> WaitDelay(Some(value), dotted) == 15 * SECOND
    ensures WaitDelay(None, dotted) == 15 * SECOND && WaitDelay(Some(""), dotted) == 15 * SECOND
  {
    ReadersCompared(value, dotted);
    ZeroDenotesZero();
  }

  /** An accepted timeout near the top of the range overflows into a negative wait, so no
      upgrade request is ever fresh and a stopping pooler is killed at once. */
  lemma HugeTimeoutTurnsNegative(value: string, dotted: string -> Option<int>)
    requires Plain(value) && Denoted(value) < TWO_63 <= Denoted(value) + SHUTDOWN_WAIT_MARGIN
    ensures ValidDuration(value) && WaitDelay(Some(value), dotted) < 0
  {
    PatternIsTrimmed(value);
    ReadersCompared(value, dotted);
    ZeroDenotesZero();
  }

  lemma NumberStep(x: nat, s: string, k: nat)
    requires k < |s| && AllDigits(s[k..])
    ensures IsDigit(s[k]) && AllDigits(s[k + 1..])
    ensures Number(x, s[k..]) == Number(10 * x + DigitValue(s[k]), s[k + 1..])
  {
    assert s[k..][0] == s[k] && s[k..][1..] == s[k + 1..];
  }

  /** Ten digits, read one by one. */
  lemma ReadsAs(s: string, k: nat, x: nat)
    requires k <= |s| == 10 && (forall i | 0 <= i < 9 :: s[i] == "922337203"[i]) && IsDigit(s[9])
    requires AllDigits(s[k..])
    requires match |s| - k
             case 10 => x == 0 case 9 => x == 9 case 8 => x == 92 case 7 => x == 922 case 6 => x == 9_223
             case 5 => x == 92_233 case 4 => x == 922_337 case 3 => x == 9_223_372 case 2 => x == 92_233_720
             case 1 => x == 922_337_203 case _ => x == 9_223_372_030 + DigitValue(s[9])
    ensures Number(x, s[k..]) == 9_223_372_030 + DigitValue(s[9])
    decreases |s| - k
  {
    if k < 10 {
      NumberStep(x, s, k);
      ReadsAs(s, k + 1, 10 * x + DigitValue(s[k]));
    }
  }

  /** A number of seconds at the top of Go's range. */
  lemma TopSeconds(value: string, last: char)
    requires value == "922337203" + [last] + "s" && IsDigit(last)
    ensures DigitPrefix(value) == 10 && SuffixOf(value[10..]) == S
    ensures Number(0, value[..10]) == 9_223_372_030 + DigitValue(last)
  {
    var digits := value[..10];
    assert AllDigits(digits) && digits[0..] == digits && digits[9] == last;
    ReadsAs(digits, 0, 0);
    DigitPrefixIs(value, 10);
    assert |value[10..]| == 1 && value[10..][0] == 's';
  }

  lemma TopSecondsDenote(value: string, last: char)
    requires value == "922337203" + [last] + "s" && IsDigit(last)
    ensures Plain(value) && Denoted(value) == (9_223_372_030 + DigitValue(last)) * SECOND
  {
    TopSeconds(value, last);
    PatternIsTrimmed(value);
  }

  /** The largest whole number of seconds Go reads: accepted, and the wait is negative. */
  lemma LargestTimeoutTurnsNegative(value: string, dotted: string -> Option<int>)
    requires value == "9223372036s"
    ensures ValidDuration(value) && WaitDelay(Some(value), dotted) < 0
  {
    TopSecondsDenote(value, '6');
    PatternIsTrimmed(value);
    HugeTimeoutTurnsNegative(value, dotted);
  }
}
