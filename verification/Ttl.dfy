/** The TTL grammar: day and week components rewritten to hours in front of the standard
    duration parser, with the machine arithmetic both use. */
module Ttl {
  import opened Common

  const MAX_INT64 := 0x7FFF_FFFF_FFFF_FFFF
  const TWO_63 := 0x8000_0000_0000_0000
  const TWO_64 := 0x1_0000_0000_0000_0000

  /** A product of two ints as the machine keeps it. */
  function Wrap64(x: int): int {
    var r := x % TWO_64;
    if r < TWO_63 then r else r - TWO_64
  }

  // ---- Digits ----------------------------------------------------------------------

  predicate IsDigit(c: char) {
    '0' <= c <= '9'
  }

  predicate AllDigits(s: string) {
    forall i | 0 <= i < |s| :: IsDigit(s[i])
  }

  function DigitOf(c: char): (d: int)
    requires IsDigit(c)
    ensures 0 <= d <= 9
  {
    c as int - '0' as int
  }

  /** The number a digit string continues when `x` is what has been read before it. */
  function Value(x: nat, s: string): (n: nat)
    requires AllDigits(s)
    ensures n >= x
    decreases |s|
  {
    if s == "" then x else Value(10 * x + DigitOf(s[0]), s[1..])
  }

  function Decimal(n: nat): (s: string)
    ensures AllDigits(s) && s != ""
  {
    var d := ['0' + (n % 10) as char];
    if n < 10 then d else Decimal(n / 10) + d
  }

  lemma {:induction false} ValueAppend(x: nat, s: string, c: char)
    requires AllDigits(s) && IsDigit(c)
    ensures AllDigits(s + [c]) && Value(x, s + [c]) == 10 * Value(x, s) + DigitOf(c)
    decreases |s|
  {
    if s == "" {
      assert s + [c] == [c];
      assert Value(10 * x + DigitOf(c), [c][1..]) == 10 * x + DigitOf(c);
    } else {
      ValueAppend(10 * x + DigitOf(s[0]), s[1..], c);
      assert (s + [c])[1..] == s[1..] + [c];
    }
  }

  lemma {:induction false} DecimalValue(n: nat)
    ensures Value(0, Decimal(n)) == n
  {
    var c := '0' + (n % 10) as char;
    if n >= 10 {
      DecimalValue(n / 10);
      ValueAppend(0, Decimal(n / 10), c);
    } else {
      ValueAppend(0, "", c);
      assert "" + [c] == [c];
    }
  }

  /** strconv.Itoa. */
  function Itoa(n: int): string {
    if n < 0 then "-" + Decimal(-n) else Decimal(n)
  }

  /** strconv.Atoi on a digit string: a 64-bit int or a range error. */
  function Atoi(s: string): Option<int>
    requires AllDigits(s)
  {
    if Value(0, s) > MAX_INT64 then None else Some(Value(0, s))
  }

  // ---- The rewrite -----------------------------------------------------------------

  predicate IsDayWeek(c: char) {
    c == 'd' || c == 'w'
  }

  function HoursPer(unit: char): int {
    if unit == 'w' then 24 * 7 else 24
  }

  /** The replacement callback: the match unchanged when Atoi fails, hours otherwise. */
  function Expand(digits: string, unit: char): string
    requires AllDigits(digits)
  {
    match Atoi(digits)
    case None => digits + [unit]
    case Some(n) => Itoa(Wrap64(n * HoursPer(unit))) + "h"
  }

  /** Replace every match of (\d+)([dw]), leftmost first, each taking its whole digit run.
      `run` is the digits just read, not yet known to end in a unit. */
  function RewriteFrom(run: string, s: string): string
    requires AllDigits(run)
    decreases |s|
  {
    if s == "" then run
    else if IsDigit(s[0]) then RewriteFrom(run + [s[0]], s[1..])
    else if IsDayWeek(s[0]) && run != "" then Expand(run, s[0]) + RewriteFrom("", s[1..])
    else run + [s[0]] + RewriteFrom("", s[1..])
  }

  function Rewrite(s: string): string {
    RewriteFrom("", s)
  }

  /** A match cannot straddle this point of a string. */
  predicate Boundary(a: string, b: string) {
    a == "" || b == "" || !IsDigit(a[|a| - 1]) || !(IsDigit(b[0]) || IsDayWeek(b[0]))
  }

  lemma ConcatAssoc(a: string, b: string, c: string)
    ensures (a + b) + c == a + (b + c)
  {
  }

  lemma {:induction false} ConcatFrom(run: string, a: string, b: string)
    requires AllDigits(run) && Boundary(run + a, b)
    ensures RewriteFrom(run, a + b) == RewriteFrom(run, a) + Rewrite(b)
    decreases |a|
  {
    if a == "" {
      assert a + b == b && run + a == run;
      if b != "" && run != "" {
        ConcatAssoc(run, [b[0]], RewriteFrom("", b[1..]));
      }
    } else {
      assert (a + b)[0] == a[0] && (a + b)[1..] == a[1..] + b;
      if IsDigit(a[0]) {
        assert run + [a[0]] + a[1..] == run + a;
        ConcatFrom(run + [a[0]], a[1..], b);
      } else {
        assert a[1..] != "" ==> a[1..][|a| - 2] == a[|a| - 1] == (run + a)[|run + a| - 1];
        assert "" + a[1..] == a[1..];
        ConcatFrom("", a[1..], b);
        ConcatAssoc(if IsDayWeek(a[0]) && run != "" then Expand(run, a[0]) else run + [a[0]],
                    RewriteFrom("", a[1..]), Rewrite(b));
      }
    }
  }

  /** The rewrite distributes over concatenation at component boundaries. */
  lemma RewriteConcat(a: string, b: string)
    requires Boundary(a, b)
    ensures Rewrite(a + b) == Rewrite(a) + Rewrite(b)
  {
    assert "" + a == a;
    ConcatFrom("", a, b);
  }

  /** No digit is directly followed by d or w. */
  predicate Standard(s: string) {
    forall i | 0 <= i < |s| - 1 :: !(IsDigit(s[i]) && IsDayWeek(s[i + 1]))
  }

  lemma {:induction false} StandardFrom(run: string, s: string)
    requires AllDigits(run) && Standard(run + s)
    ensures RewriteFrom(run, s) == run + s
    decreases |s|
  {
    if s == "" {
      assert run + s == run;
    } else {
      assert s == [s[0]] + s[1..];
      assert run + [s[0]] + s[1..] == run + s;
      if IsDigit(s[0]) {
        StandardFrom(run + [s[0]], s[1..]);
      } else {
        assert (run + s)[|run|] == s[0];
        assert run != "" ==> (run + s)[|run| - 1] == run[|run| - 1];
        assert forall i | 0 <= i < |s[1..]| :: s[1..][i] == (run + s)[|run| + 1 + i];
        assert "" + s[1..] == s[1..];
        StandardFrom("", s[1..]);
      }
    }
  }

  /** On everything the standard parser could accept, the rewrite does nothing. */
  lemma RewriteStandard(s: string)
    requires Standard(s)
    ensures Rewrite(s) == s
  {
    assert "" + s == s;
    StandardFrom("", s);
  }

  lemma {:induction false} RunOf(run: string, digits: string, rest: string)
    requires AllDigits(run) && AllDigits(digits)
    ensures AllDigits(run + digits) && RewriteFrom(run, digits + rest) == RewriteFrom(run + digits, rest)
    decreases |digits|
  {
    if digits == "" {
      assert digits + rest == rest && run + digits == run;
    } else {
      assert (digits + rest)[0] == digits[0] && (digits + rest)[1..] == digits[1..] + rest;
      RunOf(run + [digits[0]], digits[1..], rest);
      assert run + [digits[0]] + digits[1..] == run + digits;
    }
  }

  lemma RewriteComponent(digits: string, unit: char)
    requires digits != "" && AllDigits(digits) && IsDayWeek(unit)
    ensures Rewrite(digits + [unit]) == Expand(digits, unit)
  {
    RunOf("", digits, [unit]);
    assert "" + digits == digits && [unit][1..] == "";
    assert RewriteFrom(digits, [unit]) == Expand(digits, unit) + RewriteFrom("", "");
  }

  lemma ExpandFixed(digits: string, unit: char)
    requires digits != "" && AllDigits(digits) && IsDayWeek(unit)
    ensures var e := Expand(digits, unit); e != "" && !IsDigit(e[|e| - 1]) && Rewrite(e) == e
  {
    if Atoi(digits).None? {
      RewriteComponent(digits, unit);
    } else {
      var n := Wrap64(Atoi(digits).value * HoursPer(unit));
      assert Standard(Itoa(n) + "h");
      RewriteStandard(Itoa(n) + "h");
    }
  }

  lemma {:induction false} IdempotentFrom(run: string, s: string)
    requires AllDigits(run)
    ensures Rewrite(RewriteFrom(run, s)) == RewriteFrom(run, s)
    decreases |s|
  {
    if s == "" {
      RewriteStandard(run);
    } else if IsDigit(s[0]) {
      IdempotentFrom(run + [s[0]], s[1..]);
    } else {
      IdempotentFrom("", s[1..]);
      if IsDayWeek(s[0]) && run != "" {
        ExpandFixed(run, s[0]);
        RewriteConcat(Expand(run, s[0]), RewriteFrom("", s[1..]));
      } else {
        RewriteStandard(run + [s[0]]);
        RewriteConcat(run + [s[0]], RewriteFrom("", s[1..]));
      }
    }
  }

  /** Rewriting again changes nothing, neither what became hours nor what Atoi refused. */
  lemma RewriteIdempotent(s: string)
    ensures Rewrite(Rewrite(s)) == Rewrite(s)
  {
    IdempotentFrom("", s);
  }

  lemma OneDigit(c: char)
    requires IsDigit(c)
    ensures Value(0, [c]) == DigitOf(c)
  {
    assert [c][1..] == "";
    assert Value(DigitOf(c), "") == DigitOf(c);
  }

  /** Why components have to be integers: the rewrite takes the digits after a point too. */
  lemma FractionalDay()
    ensures Rewrite("1.5d") == "1.120h"
  {
    RewriteStandard("1.");
    OneDigit('5');
    assert Decimal(1) == "1";
    assert Decimal(12) == Decimal(1) + "2";
    assert Decimal(120) == Decimal(12) + "0";
    assert Expand("5", 'd') == "120h";
    RewriteComponent("5", 'd');
    RewriteConcat("1.", "5d");
  }

  // ---- The standard duration parser ------------------------------------------------

  /** How many digits the string begins with. */
  function DigitRun(s: string): (k: nat)
    ensures k <= |s| && AllDigits(s[..k]) && (k < |s| ==> !IsDigit(s[k]))
  {
    if s == "" || !IsDigit(s[0]) then 0
    else
      var k := DigitRun(s[1..]);
      assert forall i | 1 <= i < k + 1 :: s[i] == s[1..][i - 1];
      k + 1
  }


  lemma {:induction false} DigitRunIs(s: string, k: nat)
    requires k <= |s| && AllDigits(s[..k]) && (k < |s| ==> !IsDigit(s[k]))
    ensures DigitRun(s) == k
    decreases |s|
  {
    if k != 0 {
      assert s[..k][0] == s[0];
      assert s[1..][..k - 1] == s[..k][1..];
      DigitRunIs(s[1..], k - 1);
    }
  }

  datatype Parsed = Ok(ns: int) | Bad

  /** Nanoseconds per unit, by the name after the digits; both micro signs are accepted. */
  function UnitNs(unit: string): (ns: Option<nat>)
    ensures ns.Some? ==> ns.value > 0
  {
    if |unit| == 1 then
      match unit[0]
      case 'h' => Some(3_600_000_000_000)
      case 'm' => Some(60_000_000_000)
      case 's' => Some(1_000_000_000)
      case _ => None
    else if |unit| == 2 && unit[1] == 's' then
      match unit[0]
      case 'm' => Some(1_000_000)
      case 'u' => Some(1_000)
      case '\U{00B5}' => Some(1_000)
      case '\U{03BC}' => Some(1_000)
      case 'n' => Some(1)
      case _ => None
    else None
  }

  /** Reading an integer with the overflow checks of the parser. */
  function LeadingInt(x: nat, s: string): Option<nat>
    requires AllDigits(s)
    decreases |s|
  {
    if s == "" then Some(x)
    else if x > TWO_63 / 10 then None
    else
      var y := 10 * x + DigitOf(s[0]);
      if y > TWO_63 then None else LeadingInt(y, s[1..])
  }

  /** How many characters belong to the unit. */
  function UnitRun(s: string): (k: nat)
    ensures k <= |s|
  {
    if s == "" || IsDigit(s[0]) || s[0] == '.' then 0 else 1 + UnitRun(s[1..])
  }

  /** The digits after a point as a numerator and a number of places; digits past what 63 bits
      hold add no precision. */
  function LeadingFraction(x: nat, places: nat, s: string): (nat, nat)
    requires AllDigits(s)
    decreases |s|
  {
    if s == "" || x > MAX_INT64 / 10 then (x, places)
    else
      var y := 10 * x + DigitOf(s[0]);
      if y > TWO_63 then (x, places) else LeadingFraction(y, places + 1, s[1..])
  }

  /** The floating-point step: nanoseconds for a numerator, its places and a unit. Nothing
      below depends on how it rounds. */
  type Rounding = (nat, nat, nat) -> nat

  /** The two halves of a number before its unit: whole digits, and digits after a point. */
  function FractionRun(rest: string): (m: nat)
    ensures m <= |rest| && (rest != "" && rest[0] == '.' ==> 1 <= m)
    ensures m > 0 ==> rest[0] == '.' && AllDigits(rest[1..m])
    ensures rest != "" && rest[0] != '.' ==> m == 0
  {
    if rest == "" || rest[0] != '.' then 0
    else
      assert rest[1..][..DigitRun(rest[1..])] == rest[1..1 + DigitRun(rest[1..])];
      1 + DigitRun(rest[1..])
  }

  /** One component and what follows it: digits on at least one side of an optional point,
      then a known unit; value and sum within 2^63. */
  function ParseComponent(frac: Rounding, s: string): (r: Option<(nat, string)>)
    ensures r.Some? ==> |r.value.1| < |s|
  {
    var k := DigitRun(s);
    var m := FractionRun(s[k..]);
    var rest := s[k..][m..];
    var i := UnitRun(rest);
    if (k == 0 && m <= 1) || i == 0 then None
    else
      match (LeadingInt(0, s[..k]), UnitNs(rest[..i]))
      case (Some(v), Some(u)) =>
        if v > TWO_63 / u then None
        else
          var ns := WithFraction(frac, v * u, if m == 0 then "" else s[k..][1..m], u);
          if ns > TWO_63 then None else Some((ns, rest[i..]))
      case _ => None
  }

  /** A fraction above zero is added to the whole part, in an unsigned 64-bit number. */
  function WithFraction(frac: Rounding, whole: nat, digits: string, unit: nat): nat
    requires AllDigits(digits)
  {
    var f := LeadingFraction(0, 0, digits);
    if f.0 > 0 then (whole + frac(f.0, f.1, unit)) % TWO_64 else whole
  }

  function Reader(frac: Rounding): string -> Option<(nat, string)> {
    s => ParseComponent(frac, s)
  }

  /** The component loop over a component reader; `d` is the sum so far, an unsigned 64-bit
      number that wraps before it is checked. Every component takes something off the string. */
  function ParseLoop(next: string -> Option<(nat, string)>, s: string, d: nat): Option<nat>
    decreases |s|
  {
    if s == "" then Some(d)
    else
      match next(s)
      case None => None
      case Some((ns, rest)) =>
        var sum := (d + ns) % TWO_64;
        if sum > TWO_63 || |rest| >= |s| then None else ParseLoop(next, rest, sum)
  }

  /** time.ParseDuration. */
  function ParseDuration(frac: Rounding, s: string): Parsed {
    var t := if s != "" && (s[0] == '-' || s[0] == '+') then s[1..] else s;
    if t == "0" then Ok(0)
    else if t == "" then Bad
    else
      match ParseLoop(Reader(frac), t, 0)
      case None => Bad
      case Some(d) =>
        var ns: int := d;
        if s[0] == '-' then Ok(-ns) else if ns > MAX_INT64 then Bad else Ok(ns)
  }

  // ---- ParseTTL --------------------------------------------------------------------

  predicate IsSpace(c: char) {
    var n := c as int;
    9 <= n <= 13 || n == 0x20 || n == 0x85 || n == 0xA0 || n == 0x1680 || 0x2000 <= n <= 0x200A
    || n == 0x2028 || n == 0x2029 || n == 0x202F || n == 0x205F || n == 0x3000
  }

  /** strings.TrimSpace. */
  function TrimSpace(s: string): string
    decreases |s|
  {
    if s == "" then ""
    else if IsSpace(s[0]) then TrimSpace(s[1..])
    else if IsSpace(s[|s| - 1]) then TrimSpace(s[..|s| - 1])
    else s
  }

  function ParseTTL(frac: Rounding, s: string): Parsed {
    var t := TrimSpace(s);
    if t == "" then Bad else Positive(ParseDuration(frac, Rewrite(t)))
  }

  function Positive(r: Parsed): Parsed {
    if r.Ok? && r.ns > 0 then r else Bad
  }

  /** The extension is conservative, fractions included: where no digit is directly followed
      by d or w, the result is the standard parser's, less the non-positive ones. */
  lemma ParseTTLConservative(frac: Rounding, s: string)
    requires Standard(TrimSpace(s)) && TrimSpace(s) != ""
    ensures ParseTTL(frac, s) == Positive(ParseDuration(frac, TrimSpace(s)))
  {
    RewriteStandard(TrimSpace(s));
  }

  lemma ParseDurationRange(frac: Rounding, s: string)
    ensures ParseDuration(frac, s).Ok? ==> ParseDuration(frac, s).ns <= MAX_INT64
  {
    hide ParseLoop, Reader;
  }

  /** Whatever it accepts is positive and fits a Duration. */
  lemma ParseTTLRange(frac: Rounding, s: string)
    requires ParseTTL(frac, s).Ok?
    ensures 0 < ParseTTL(frac, s).ns <= MAX_INT64
  {
    hide ParseDuration, Rewrite, TrimSpace;
    ParseDurationRange(frac, Rewrite(TrimSpace(s)));
  }

  /** What becomes of a fraction of a day: one and a half are accepted as one hour and twelve
      hundredths of one, the floating-point step being exact here. */
  lemma FractionalDayParses(frac: Rounding)
    requires frac(120, 3, 3_600_000_000_000) == 432_000_000_000
    ensures ParseTTL(frac, "1.5d") == Ok(4_032_000_000_000)
  {
    FractionalDay();
    assert Value(0, "120") == 120 by {
      assert "120"[1..] == "20" && "20"[1..] == "0" && "0"[1..] == "";
      assert Value(12, "0") == Value(120, "") && Value(1, "20") == Value(12, "0");
    }
    assert Decimal(1) == "1" && "1" + ("." + ("120" + "h")) == "1.120h";
    hide Rewrite, ParseDuration, TrimSpace, Value, Decimal;
    NothingToTrim("1.5d");
    FractionParses(frac, 1, "120", "h");
  }

  lemma NothingToTrim(s: string)
    requires s != "" && !IsSpace(s[0]) && !IsSpace(s[|s| - 1])
    ensures TrimSpace(s) == s
  {
  }

  // ---- Printed lists ---------------------------------------------------------------

  datatype Component = Component(n: nat, unit: char)

  predicate Units(cs: seq<Component>, allowed: string) {
    forall c | c in cs :: c.unit in allowed
  }

  function PrintOne(c: Component): string {
    Decimal(c.n) + [c.unit]
  }

  function Print(cs: seq<Component>): string {
    if cs == [] then "" else PrintOne(cs[0]) + Print(cs[1..])
  }

  function NsPer(unit: char): (ns: nat)
    ensures ns > 0
  {
    match unit
    case 'w' => 604_800_000_000_000
    case 'd' => 86_400_000_000_000
    case 'h' => 3_600_000_000_000
    case 'm' => 60_000_000_000
    case _ => 1_000_000_000
  }

  function Ns(c: Component): nat {
    c.n * NsPer(c.unit)
  }

  function Sum(cs: seq<Component>): nat {
    if cs == [] then 0 else Ns(cs[0]) + Sum(cs[1..])
  }

  /** Atoi takes the count, and the number of hours has not wrapped below zero. */
  predicate Taken(c: Component) {
    IsDayWeek(c.unit) ==> c.n <= MAX_INT64 && Wrap64(c.n * HoursPer(c.unit)) >= 0
  }

  predicate AllTaken(cs: seq<Component>) {
    forall c | c in cs :: Taken(c)
  }

  /** What the rewrite makes of a component, wrapping included. */
  function InHours(c: Component): Component
    requires Taken(c)
  {
    if IsDayWeek(c.unit) then Component(Wrap64(c.n * HoursPer(c.unit)), 'h') else c
  }

  function Hours(cs: seq<Component>): (r: seq<Component>)
    requires AllTaken(cs)
    ensures |r| == |cs|
  {
    if cs == [] then [] else [InHours(cs[0])] + Hours(cs[1..])
  }

  lemma DigitsThenUnitStandard(digits: string, unit: char)
    requires AllDigits(digits) && !IsDayWeek(unit)
    ensures Standard(digits + [unit])
  {
  }

  lemma RewriteOne(c: Component)
    requires c.unit in "wdhms" && Taken(c)
    ensures Rewrite(PrintOne(c)) == PrintOne(InHours(c))
  {
    if IsDayWeek(c.unit) {
      DecimalValue(c.n);
      RewriteComponent(Decimal(c.n), c.unit);
    } else {
      DigitsThenUnitStandard(Decimal(c.n), c.unit);
      RewriteStandard(PrintOne(c));
    }
  }

  lemma RewriteHead(cs: seq<Component>)
    requires cs != [] && Units(cs, "wdhms")
    ensures Rewrite(Print(cs)) == Rewrite(PrintOne(cs[0])) + Rewrite(Print(cs[1..]))
  {
    var head := PrintOne(cs[0]);
    assert cs[0] in cs;
    assert head[|head| - 1] == cs[0].unit && !IsDigit(cs[0].unit);
    RewriteConcat(head, Print(cs[1..]));
  }

  lemma {:induction false} RewritePrint(cs: seq<Component>)
    requires Units(cs, "wdhms") && AllTaken(cs)
    ensures Rewrite(Print(cs)) == Print(Hours(cs))
  {
    if cs != [] {
      RewriteHead(cs);
      RewriteOne(cs[0]);
      RewritePrint(cs[1..]);
      assert Hours(cs)[1..] == Hours(cs[1..]);
    }
  }

  lemma {:induction false} HoursUnits(cs: seq<Component>)
    requires Units(cs, "wdhms") && AllTaken(cs)
    ensures Units(Hours(cs), "hms")
  {
    if cs != [] {
      assert cs[0] in cs;
      HoursUnits(cs[1..]);
      assert forall c | c in Hours(cs) :: c == InHours(cs[0]) || c in Hours(cs[1..]);
    }
  }

  lemma {:induction false} LeadingIntExact(x: nat, s: string)
    requires AllDigits(s) && x <= TWO_63
    ensures LeadingInt(x, s) == if Value(x, s) > TWO_63 then None else Some(Value(x, s))
    decreases |s|
  {
    if s != "" && x <= TWO_63 / 10 && 10 * x + DigitOf(s[0]) <= TWO_63 {
      LeadingIntExact(10 * x + DigitOf(s[0]), s[1..]);
    }
  }

  lemma OverflowCheck(v: nat, u: nat)
    requires u > 0
    ensures v > TWO_63 / u <==> v * u > TWO_63
  {
    if v <= TWO_63 / u {
      assert v * u <= TWO_63 / u * u;
    } else {
      assert v * u >= (TWO_63 / u + 1) * u;
    }
  }

  lemma UnitOne(unit: char, more: string)
    requires unit in "hms" && (more != "" ==> IsDigit(more[0]))
    ensures UnitRun([unit] + more) == 1 && UnitNs([unit]) == Some(NsPer(unit))
  {
    assert ([unit] + more)[1..] == more;
  }

  lemma ParseOne(frac: Rounding, c: Component, more: string)
    requires c.unit in "hms" && (more != "" ==> IsDigit(more[0]))
    ensures Reader(frac)(PrintOne(c) + more) == if Ns(c) > TWO_63 then None else Some((Ns(c), more))
  {
    var digits := Decimal(c.n);
    var s := PrintOne(c) + more;
    var k := |digits|;
    assert s[..k] == digits && s[k] == c.unit && s[k..] == [c.unit] + more;
    DigitRunIs(s, k);
    DecimalValue(c.n);
    LeadingIntExact(0, digits);
    UnitOne(c.unit, more);
    assert ([c.unit] + more)[..1] == [c.unit] && ([c.unit] + more)[1..] == more;
    OverflowCheck(c.n, NsPer(c.unit));
    assert c.n <= Ns(c);
  }

  lemma PrintStartsWithDigit(cs: seq<Component>)
    ensures Print(cs) != "" ==> IsDigit(Print(cs)[0])
  {
    if cs != [] {
      assert Print(cs)[0] == Decimal(cs[0].n)[0];
    }
  }

  /** Parsing `s` on top of any `d` adds `total`, or overflows. */
  predicate Adds(next: string -> Option<(nat, string)>, s: string, total: nat) {
    forall d: nat | d <= TWO_63 ::
      ParseLoop(next, s, d) == if d + total > TWO_63 then None else Some(d + total)
  }

  lemma AddsNothing(next: string -> Option<(nat, string)>)
    ensures Adds(next, "", 0)
  {
  }

  lemma AddsOne(next: string -> Option<(nat, string)>, s: string, x: nat, more: string, y: nat)
    requires |more| < |s| && next(s) == if x > TWO_63 then None else Some((x, more))
    requires x != TWO_63
    requires Adds(next, more, y)
    ensures Adds(next, s, x + y)
  {
  }

  /** No multiple of a whole second is 2^63 nanoseconds, so the unsigned sum cannot wrap. */
  lemma NotTwo63(c: Component)
    ensures Ns(c) != TWO_63
  {
    match c.unit
    case 'w' => assert c.n * 604_800_000_000_000 != TWO_63;
    case 'd' => assert c.n * 86_400_000_000_000 != TWO_63;
    case 'h' => assert c.n * 3_600_000_000_000 != TWO_63;
    case 'm' => assert c.n * 60_000_000_000 != TWO_63;
    case _ => assert c.n * 1_000_000_000 != TWO_63;
  }

  lemma {:induction false} ParsePrint(frac: Rounding, cs: seq<Component>)
    requires Units(cs, "hms")
    ensures Adds(Reader(frac), Print(cs), Sum(cs))
  {
    hide Reader, Adds, IsDayWeek;
    if cs == [] {
      AddsNothing(Reader(frac));
    } else {
      assert cs[0] in cs;
      ParsePrint(frac, cs[1..]);
      PrintStartsWithDigit(cs[1..]);
      ParseOne(frac, cs[0], Print(cs[1..]));
      NotTwo63(cs[0]);
      AddsOne(Reader(frac), Print(cs), Ns(cs[0]), Print(cs[1..]), Sum(cs[1..]));
    }
  }

  /** A string of digits and units has no spaces to trim and no point or sign. */
  predicate PlainText(s: string) {
    && |s| >= 2 && IsDigit(s[0]) && s[|s| - 1] in "wdhms"
    && forall i | 0 <= i < |s| :: IsDigit(s[i]) || s[i] in "wdhms"
  }

  /** A printed list is made of digits and units, begins with a digit and ends in a unit. */
  lemma {:induction false} PrintShape(cs: seq<Component>)
    requires cs != [] && Units(cs, "wdhms")
    ensures PlainText(Print(cs))
  {
    var head := PrintOne(cs[0]);
    if cs[1..] != [] {
      PrintShape(cs[1..]);
    }
  }

  lemma PlainUnsigned(s: string)
    requires PlainText(s)
    ensures TrimSpace(s) == s && s != "" && s != "0" && s[0] != '-' && s[0] != '+'
  {
    assert forall c | c in "wdhms" :: !IsSpace(c);
  }

  lemma PlainTextParses(frac: Rounding, s: string)
    requires PlainText(s)
    ensures TrimSpace(s) == s
    ensures ParseDuration(frac, s) == match ParseLoop(Reader(frac), s, 0)
                                case None => Bad
                                case Some(d) => if d > MAX_INT64 then Bad else Ok(d)
  {
    PlainUnsigned(s);
  }

  // ---- Counts the rewrite does not take --------------------------------------------

  /** The loop gives up on `s`, whatever came before. */
  ghost predicate Fails(next: string -> Option<(nat, string)>, s: string) {
    s != "" && forall d: nat :: ParseLoop(next, s, d) == None
  }

  lemma FailsAtOnce(next: string -> Option<(nat, string)>, s: string)
    requires s != "" && next(s) == None
    ensures Fails(next, s)
  {
  }

  lemma FailsLater(next: string -> Option<(nat, string)>, s: string, more: string)
    requires s != "" && (next(s) == None || (next(s).Some? && next(s).value.1 == more)) && Fails(next, more)
    ensures Fails(next, s)
  {
  }

  /** Digits followed by something that is no unit. */
  lemma NoUnit(frac: Rounding, digits: string, rest: string)
    requires AllDigits(digits) && rest != "" && !IsDigit(rest[0]) && rest[0] != '.'
    requires UnitNs(rest[..UnitRun(rest)]) == None
    ensures Reader(frac)(digits + rest) == None
  {
    var s := digits + rest;
    assert s[..|digits|] == digits && s[|digits|] == rest[0] && s[|digits|..] == rest;
    DigitRunIs(s, |digits|);
  }

  /** A day or week unit left in place is no unit to the parser. */
  lemma DayWeekNoUnit(unit: char, more: string)
    requires IsDayWeek(unit)
    ensures var rest := [unit] + more; UnitNs(rest[..UnitRun(rest)]) == None
  {
    var rest := [unit] + more;
    assert UnitRun(rest) >= 1 && rest[..UnitRun(rest)][0] == unit;
  }

  /** A hyphen runs on from the unit before it. */
  lemma HyphenNoUnit(unit: char, more: string)
    requires unit in "hms" && more != "" && more[0] == '-'
    ensures var rest := [unit] + more; UnitNs(rest[..UnitRun(rest)]) == None
  {
    var rest := [unit] + more;
    assert rest[1..] == more && UnitRun(more) >= 1 && UnitRun(rest) >= 2;
    assert rest[..UnitRun(rest)][1] == '-';
  }

  /** A rewritten component begins with a digit, or with a hyphen if its hours wrapped below
      zero, and has no point. */
  lemma RewrittenOne(c: Component)
    requires c.unit in "wdhms"
    ensures var r := Rewrite(PrintOne(c));
            && r != "" && (IsDigit(r[0]) || r[0] == '-')
            && (Taken(c) ==> IsDigit(r[0]))
            && (!Taken(c) && r[0] != '-' ==> r == PrintOne(c) && IsDayWeek(c.unit))
  {
    DecimalValue(c.n);
    if IsDayWeek(c.unit) {
      RewriteComponent(Decimal(c.n), c.unit);
    } else {
      RewriteOne(c);
    }
  }

  lemma {:induction false} RewrittenStarts(cs: seq<Component>)
    requires Units(cs, "wdhms")
    ensures var r := Rewrite(Print(cs)); r != "" ==> IsDigit(r[0]) || r[0] == '-'
  {
    if cs != [] {
      assert cs[0] in cs;
      RewriteHead(cs);
      RewrittenOne(cs[0]);
      RewrittenStarts(cs[1..]);
    }
  }

  /** The loop reads a component that does not end in a unit. */
  lemma BadUnitFails(frac: Rounding, c: Component, more: string)
    requires IsDayWeek(c.unit) || (c.unit in "hms" && more != "" && more[0] == '-')
    ensures Fails(Reader(frac), PrintOne(c) + more)
  {
    if IsDayWeek(c.unit) {
      DayWeekNoUnit(c.unit, more);
    } else {
      HyphenNoUnit(c.unit, more);
    }
    NoUnit(frac, Decimal(c.n), [c.unit] + more);
    assert PrintOne(c) + more == Decimal(c.n) + ([c.unit] + more);
    FailsAtOnce(Reader(frac), PrintOne(c) + more);
  }

  lemma GoodUnitFails(frac: Rounding, c: Component, more: string)
    requires c.unit in "hms" && more != "" && (more[0] == '-' || (IsDigit(more[0]) && Fails(Reader(frac), more)))
    ensures Fails(Reader(frac), PrintOne(c) + more)
  {
    if more[0] == '-' {
      BadUnitFails(frac, c, more);
    } else {
      ParseOne(frac, c, more);
      FailsLater(Reader(frac), PrintOne(c) + more, more);
    }
  }

  /** One count that is not taken spoils the string, wherever it stands. */
  lemma {:induction false} SpoiledFails(frac: Rounding, cs: seq<Component>)
    requires Units(cs, "wdhms") && !AllTaken(cs)
    ensures var r := Rewrite(Print(cs)); r != "" && (r[0] == '-' || Fails(Reader(frac), r))
  {
    var c, head, more := cs[0], Rewrite(PrintOne(cs[0])), Rewrite(Print(cs[1..]));
    assert c in cs && forall d | d in cs :: d == c || d in cs[1..];
    RewriteHead(cs);
    RewrittenOne(c);
    hide Rewrite, Print, PrintOne, Fails;
    if !Taken(c) {
      if head[0] != '-' {
        BadUnitFails(frac, c, more);
      }
    } else {
      SpoiledFails(frac, cs[1..]);
      RewrittenStarts(cs[1..]);
      RewriteOne(c);
      assert InHours(c).unit in "hms";
      GoodUnitFails(frac, InHours(c), more);
    }
  }

  lemma TakenParses(frac: Rounding, cs: seq<Component>)
    requires cs != [] && Units(cs, "wdhms") && AllTaken(cs)
    ensures ParseTTL(frac, Print(cs)) == if 0 < Sum(Hours(cs)) <= MAX_INT64 then Ok(Sum(Hours(cs))) else Bad
  {
    PrintShape(cs);
    PlainTextParses(frac, Print(cs));
    RewritePrint(cs);
    HoursUnits(cs);
    assert Units(Hours(cs), "wdhms");
    PrintShape(Hours(cs));
    PlainTextParses(frac, Print(Hours(cs)));
    ParsePrint(frac, Hours(cs));
  }

  lemma SpoiledParses(frac: Rounding, s: string)
    requires s != "" && (s[0] == '-' || (IsDigit(s[0]) && Fails(Reader(frac), s)))
    ensures ParseDuration(frac, s) == Bad || (ParseDuration(frac, s).Ok? && ParseDuration(frac, s).ns <= 0)
  {
    hide Reader;
  }

  /** What the parser makes of a printed list, for every list: the sum of its components as
      the machine turned them into hours, if every count was taken and the sum is positive
      and fits a Duration; an error otherwise. */
  lemma ParseTTLExact(frac: Rounding, cs: seq<Component>)
    requires cs != [] && Units(cs, "wdhms")
    ensures ParseTTL(frac, Print(cs))
            == if AllTaken(cs) && 0 < Sum(Hours(cs)) <= MAX_INT64 then Ok(Sum(Hours(cs))) else Bad
  {
    if AllTaken(cs) {
      TakenParses(frac, cs);
    } else {
      PrintShape(cs);
      PlainTextParses(frac, Print(cs));
      RewrittenStarts(cs);
      SpoiledFails(frac, cs);
      hide Rewrite, Print, PlainText, Fails;
      SpoiledParses(frac, Rewrite(Print(cs)));
    }
  }

  // ---- Round trip ------------------------------------------------------------------

  /** The component's hours fit the machine's int. */
  predicate NoWrap(c: Component) {
    IsDayWeek(c.unit) ==> c.n * HoursPer(c.unit) <= MAX_INT64
  }

  /** What a printed list should parse to. */
  function Intended(cs: seq<Component>): Parsed {
    if 0 < Sum(cs) <= MAX_INT64 then Ok(Sum(cs)) else Bad
  }

  lemma HourNs(c: Component)
    requires NoWrap(c)
    ensures Taken(c) && Ns(InHours(c)) == Ns(c)
  {
    assert c.n <= c.n * HoursPer(c.unit);
    if IsDayWeek(c.unit) {
      assert Wrap64(c.n * HoursPer(c.unit)) == c.n * HoursPer(c.unit);
    }
    if c.unit == 'w' {
      assert 168 * 3_600_000_000_000 == NsPer('w');
    } else if c.unit == 'd' {
      assert 24 * 3_600_000_000_000 == NsPer('d');
    }
  }

  lemma {:induction false} HoursSum(cs: seq<Component>)
    requires forall c | c in cs :: NoWrap(c)
    ensures AllTaken(cs) && Sum(Hours(cs)) == Sum(cs)
  {
    if cs != [] {
      assert cs[0] in cs;
      HourNs(cs[0]);
      HoursSum(cs[1..]);
      assert forall c | c in cs :: c == cs[0] || c in cs[1..];
      assert Hours(cs)[1..] == Hours(cs[1..]);
    }
  }

  lemma {:induction false} SumAtLeast(cs: seq<Component>, c: Component)
    requires c in cs
    ensures Sum(cs) >= Ns(c)
  {
    if c != cs[0] {
      SumAtLeast(cs[1..], c);
    }
  }

  /** A count that wraps is past what a Duration holds. */
  lemma WrapIsTooLong(c: Component)
    requires !NoWrap(c)
    ensures Ns(c) > MAX_INT64
  {
    assert c.unit == 'w' ==> 604_800_000_000_000 == 168 * 3_600_000_000_000;
    assert c.unit == 'd' ==> 86_400_000_000_000 == 24 * 3_600_000_000_000;
    assert Ns(c) == c.n * HoursPer(c.unit) * 3_600_000_000_000;
  }

  /** Some count wrapped, and what it wrapped to still makes a duration. */
  predicate Misread(cs: seq<Component>) {
    && (exists c | c in cs :: !NoWrap(c))
    && AllTaken(cs) && 0 < Sum(Hours(cs)) <= MAX_INT64
  }

  /** The round trip, exactly: printing a non-empty list of components and parsing it gives
      its sum if that is positive and fits a Duration and an error otherwise, unless a day or
      week count wraps and the list is misread. */
  lemma ParseTTLRoundTrip(frac: Rounding, cs: seq<Component>)
    requires cs != [] && Units(cs, "wdhms")
    ensures ParseTTL(frac, Print(cs)) == Intended(cs) <==> !Misread(cs)
  {
    ParseTTLExact(frac, cs);
    if forall c | c in cs :: NoWrap(c) {
      HoursSum(cs);
    } else {
      var c :| c in cs && !NoWrap(c);
      WrapIsTooLong(c);
      SumAtLeast(cs, c);
    }
  }

  /** One day or week component: a count beyond int64 is refused, and a product that wraps is
      accepted as whatever positive number of hours it wrapped to. */
  lemma OneDayOrWeek(frac: Rounding, n: nat, unit: char)
    requires IsDayWeek(unit)
    ensures var hours := Wrap64(n * HoursPer(unit));
            ParseTTL(frac, PrintOne(Component(n, unit)))
            == if n <= MAX_INT64 && 0 < hours && Ns(Component(hours, 'h')) <= MAX_INT64
               then Ok(Ns(Component(hours, 'h'))) else Bad
  {
    hide ParseTTL, Print, PrintOne, Hours, Sum;
    var c := Component(n, unit);
    PrintSingle(c);
    assert Units([c], "wdhms");
    ParseTTLExact(frac, [c]);
    if Taken(c) {
      SumSingle(c);
    } else {
      assert c in [c];
    }
  }

  lemma PrintSingle(c: Component)
    ensures Print([c]) == PrintOne(c)
  {
    assert Print([c]) == PrintOne(c) + Print([]);
  }

  lemma SumSingle(c: Component)
    requires Taken(c)
    ensures AllTaken([c]) && Sum(Hours([c])) == Ns(InHours(c))
  {
    assert Hours([c]) == [InHours(c)];
    assert Sum([InHours(c)]) == Ns(InHours(c)) + Sum([]);
  }

  /** For instance: 768614336404564651 days are accepted as eight hours. */
  lemma WrappedDays(frac: Rounding, n: nat)
    requires n == 768_614_336_404_564_651
    ensures ParseTTL(frac, PrintOne(Component(n, 'd'))) == Ok(28_800_000_000_000)
  {
    assert n * 24 == TWO_64 + 8;
    assert Wrap64(n * HoursPer('d')) == 8;
    OneDayOrWeek(frac, n, 'd');
  }

  // ---- Units, signs, fractions and spaces, in literals -----------------------------

  /** The units there are, and no others. */
  lemma UnitTable(unit: string)
    ensures UnitNs("h") == Some(3_600_000_000_000) && UnitNs("m") == Some(60_000_000_000)
    ensures UnitNs("s") == Some(1_000_000_000) && UnitNs("ms") == Some(1_000_000)
    ensures UnitNs("us") == Some(1_000) && UnitNs("\U{00B5}s") == Some(1_000)
    ensures UnitNs("\U{03BC}s") == Some(1_000) && UnitNs("ns") == Some(1)
    ensures UnitNs(unit).Some? ==> unit in {"h", "m", "s", "ms", "us", "\U{00B5}s", "\U{03BC}s", "ns"}
  {
    if UnitNs(unit).Some? {
      if |unit| == 1 {
        assert unit == [unit[0]];
      } else {
        assert unit == [unit[0], unit[1]];
      }
    }
  }

  /** Nothing in it is a digit or a point. */
  predicate Wordy(s: string) {
    forall i | 0 <= i < |s| :: !IsDigit(s[i]) && s[i] != '.'
  }

  lemma {:induction false} WordyRun(s: string)
    requires Wordy(s)
    ensures UnitRun(s) == |s|
    decreases |s|
  {
    if s != "" {
      WordyRun(s[1..]);
    }
  }

  lemma UnitWordy(unit: string)
    requires UnitNs(unit).Some?
    ensures Wordy(unit) && unit != ""
  {
    UnitTable(unit);
  }

  lemma ReadsOne(frac: Rounding, n: nat, unit: string)
    requires UnitNs(unit).Some?
    ensures var ns := n * UnitNs(unit).value;
            Reader(frac)(Decimal(n) + unit) == if ns > TWO_63 then None else Some((ns, ""))
  {
    var digits := Decimal(n);
    var s := digits + unit;
    UnitWordy(unit);
    assert s[..|digits|] == digits && s[|digits|..] == unit && s[|digits|] == unit[0];
    DigitRunIs(s, |digits|);
    DecimalValue(n);
    LeadingIntExact(0, digits);
    WordyRun(unit);
    assert unit[..|unit|] == unit && unit[|unit|..] == "" && unit[0..] == unit;
    OverflowCheck(n, UnitNs(unit).value);
    NotBelow(n, UnitNs(unit).value);
  }

  lemma NotBelow(n: nat, k: nat)
    requires k > 0
    ensures n <= n * k
  {
  }

  lemma OneComponent(frac: Rounding, s: string, ns: nat)
    requires |s| >= 2 && IsDigit(s[0])
    requires Reader(frac)(s) == if ns > TWO_63 then None else Some((ns, ""))
    ensures ParseDuration(frac, s) == if ns <= MAX_INT64 then Ok(ns) else Bad
  {
    hide Reader;
    assert ns <= TWO_63 ==> ParseLoop(Reader(frac), s, 0) == ParseLoop(Reader(frac), "", ns);
  }

  /** One count and one unit of the standard parser. */
  lemma OneUnit(frac: Rounding, n: nat, unit: string)
    requires UnitNs(unit).Some?
    ensures var ns := n * UnitNs(unit).value;
            ParseDuration(frac, Decimal(n) + unit) == if ns <= MAX_INT64 then Ok(ns) else Bad
  {
    hide ParseDuration, Reader, Decimal, UnitNs;
    ReadsOne(frac, n, unit);
    UnitWordy(unit);
    var s := Decimal(n) + unit;
    assert s[0] == Decimal(n)[0];
    OneComponent(frac, s, n * UnitNs(unit).value);
  }

  /** Weeks, days, hours, minutes and seconds, one at a time, in nanoseconds, for every count
      whose weeks fit a duration. */
  lemma EachUnit(frac: Rounding, n: nat)
    requires 0 < n && n * 604_800_000_000_000 <= 9_223_372_036_854_775_807
    ensures ParseTTL(frac, Decimal(n) + "w") == Ok(n * 604_800_000_000_000)
    ensures ParseTTL(frac, Decimal(n) + "d") == Ok(n * 86_400_000_000_000)
    ensures ParseTTL(frac, Decimal(n) + "h") == Ok(n * 3_600_000_000_000)
    ensures ParseTTL(frac, Decimal(n) + "m") == Ok(n * 60_000_000_000)
    ensures ParseTTL(frac, Decimal(n) + "s") == Ok(n * 1_000_000_000)
  {
    hide ParseTTL, Decimal;
    UnitParses(frac, Component(n, 'w'));
    UnitParses(frac, Component(n, 'd'));
    UnitParses(frac, Component(n, 'h'));
    UnitParses(frac, Component(n, 'm'));
    UnitParses(frac, Component(n, 's'));
  }

  lemma UnitParses(frac: Rounding, c: Component)
    requires c.unit in "wdhms" && NoWrap(c) && 0 < Ns(c) <= MAX_INT64
    ensures ParseTTL(frac, Decimal(c.n) + [c.unit]) == Ok(Ns(c))
  {
    hide ParseTTL, Hours, Sum, Print;
    HoursSum([c]);
    ParseTTLExact(frac, [c]);
    PrintSingle(c);
    OneInSum(c);
  }

  lemma OneInSum(c: Component)
    ensures Sum([c]) == Ns(c)
  {
    assert Sum([c]) == Ns(c) + Sum([]);
  }

  /** A hyphen in front is refused. */
  lemma NegativeRefused(frac: Rounding, s: string)
    requires s == "" || !IsSpace(s[|s| - 1])
    ensures ParseTTL(frac, "-" + s) == Bad
  {
    hide Reader, Rewrite, ParseDuration;
    var t := "-" + s;
    assert s != "" ==> t[|t| - 1] == s[|s| - 1];
    NothingToTrim(t);
    HyphenKept(s);
    SpoiledParses(frac, Rewrite(t));
  }

  lemma HyphenKept(s: string)
    ensures Rewrite("-" + s) != "" && Rewrite("-" + s)[0] == '-'
  {
    assert ("-" + s)[1..] == s;
  }

  lemma {:induction false} FractionValue(x: nat, places: nat, s: string)
    requires AllDigits(s) && Value(x, s) <= MAX_INT64
    ensures LeadingFraction(x, places, s) == (Value(x, s), places + |s|)
    decreases |s|
  {
    if s != "" {
      assert Value(10 * x + DigitOf(s[0]), s[1..]) >= 10 * x + DigitOf(s[0]);
      FractionValue(10 * x + DigitOf(s[0]), places + 1, s[1..]);
    }
  }

  lemma DigitsThen(digits: string, rest: string)
    requires AllDigits(digits) && (rest != "" ==> !IsDigit(rest[0]))
    ensures var s := digits + rest;
            DigitRun(s) == |digits| && s[..|digits|] == digits && s[|digits|..] == rest
  {
    var s := digits + rest;
    assert s[..|digits|] == digits && s[|digits|..] == rest;
    DigitRunIs(s, |digits|);
  }

  lemma PointThen(digits: string, unit: string)
    requires AllDigits(digits) && Wordy(unit) && unit != ""
    ensures var rest := "." + (digits + unit);
            && FractionRun(rest) == 1 + |digits|
            && rest[1..1 + |digits|] == digits && rest[1 + |digits|..] == unit
  {
    var rest := "." + (digits + unit);
    DigitsThen(digits, unit);
    assert rest[1..] == digits + unit;
    assert rest[1..1 + |digits|] == rest[1..][..|digits|];
    assert rest[1 + |digits|..] == rest[1..][|digits|..];
    hide DigitRun;
  }

  /** Where the parts of a count with a fraction are. */
  lemma FractionShape(n: nat, digits: string, unit: string)
    requires AllDigits(digits) && Wordy(unit) && unit != ""
    ensures var whole := Decimal(n);
            var s := whole + ("." + (digits + unit));
            var rest := s[|whole|..];
            && DigitRun(s) == |whole| && s[..|whole|] == whole
            && FractionRun(rest) == 1 + |digits| && rest[1..1 + |digits|] == digits && rest[1 + |digits|..] == unit
            && UnitRun(unit) == |unit|
  {
    hide Decimal, DigitRun, FractionRun, UnitRun;
    var rest := "." + (digits + unit);
    PointThen(digits, unit);
    assert rest[0] == '.';
    DigitsThen(Decimal(n), rest);
    WordyRun(unit);
  }

  lemma WithPoint(frac: Rounding, s: string, whole: string, digits: string, unit: string, v: nat, u: nat)
    requires AllDigits(digits) && AllDigits(whole) && whole != "" && |whole| <= |s| && unit != ""
    requires DigitRun(s) == |whole| && s[..|whole|] == whole && FractionRun(s[|whole|..]) == 1 + |digits|
    requires s[|whole|..][1..1 + |digits|] == digits && s[|whole|..][1 + |digits|..] == unit
    requires UnitRun(unit) == |unit| && UnitNs(unit) == Some(u) && u > 0
    requires LeadingInt(0, whole) == Some(v) && v <= TWO_63 / u
    ensures Reader(frac)(s) == var ns := WithFraction(frac, v * u, digits, u);
                               if ns > TWO_63 then None else Some((ns, ""))
  {
    hide DigitRun, FractionRun, UnitRun, UnitNs, LeadingInt, WithFraction;
    assert unit[..|unit|] == unit && unit[|unit|..] == "";
  }

  lemma Fraction(frac: Rounding, whole: nat, digits: string, u: nat)
    requires AllDigits(digits) && 0 < Value(0, digits) <= MAX_INT64
    requires whole + frac(Value(0, digits), |digits|, u) <= MAX_INT64
    ensures WithFraction(frac, whole, digits, u) == whole + frac(Value(0, digits), |digits|, u)
  {
    hide LeadingFraction, Value;
    FractionValue(0, 0, digits);
  }

  /** A count with a fraction: the whole units, and what the floating-point step makes of the
      digits after the point, their number of places and the unit. */
  lemma FractionReads(frac: Rounding, n: nat, digits: string, unit: string)
    requires UnitNs(unit).Some? && AllDigits(digits) && 0 < Value(0, digits) <= MAX_INT64
    requires n * UnitNs(unit).value + frac(Value(0, digits), |digits|, UnitNs(unit).value) <= MAX_INT64
    ensures Reader(frac)(Decimal(n) + ("." + (digits + unit)))
            == Some((n * UnitNs(unit).value + frac(Value(0, digits), |digits|, UnitNs(unit).value), ""))
  {
    hide DigitRun, FractionRun, UnitRun, UnitNs, LeadingInt, LeadingFraction, Decimal, Reader, WithFraction, Value;
    var u := UnitNs(unit).value;
    var s := Decimal(n) + ("." + (digits + unit));
    UnitWordy(unit);
    FractionShape(n, digits, unit);
    DecimalValue(n);
    LeadingIntExact(0, Decimal(n));
    OverflowCheck(n, u);
    NotBelow(n, u);
    WithPoint(frac, s, Decimal(n), digits, unit, n, u);
    Fraction(frac, n * u, digits, u);
  }

  lemma FractionParses(frac: Rounding, n: nat, digits: string, unit: string)
    requires UnitNs(unit).Some? && AllDigits(digits) && 0 < Value(0, digits) <= MAX_INT64
    requires n * UnitNs(unit).value + frac(Value(0, digits), |digits|, UnitNs(unit).value) <= MAX_INT64
    ensures ParseDuration(frac, Decimal(n) + ("." + (digits + unit)))
            == Ok(n * UnitNs(unit).value + frac(Value(0, digits), |digits|, UnitNs(unit).value))
  {
    hide ParseDuration, Reader, Decimal, UnitNs, Value;
    FractionReads(frac, n, digits, unit);
    UnitWordy(unit);
    var s := Decimal(n) + ("." + (digits + unit));
    assert s[0] == Decimal(n)[0];
    OneComponent(frac, s, n * UnitNs(unit).value + frac(Value(0, digits), |digits|, UnitNs(unit).value));
  }

  predicate Blank(s: string) {
    forall i | 0 <= i < |s| :: IsSpace(s[i])
  }

  /** The white space that is trimmed, by code point. */
  lemma SpaceTable(c: char)
    ensures var n := c as int;
            IsSpace(c) <==> n in {0x09, 0x0A, 0x0B, 0x0C, 0x0D, 0x20, 0x85, 0xA0, 0x1680,
                                  0x2000, 0x2001, 0x2002, 0x2003, 0x2004, 0x2005, 0x2006, 0x2007, 0x2008, 0x2009,
                                  0x200A, 0x2028, 0x2029, 0x202F, 0x205F, 0x3000}
  {
  }

  lemma {:induction false} TrimsFront(pre: string, t: string)
    requires Blank(pre)
    ensures TrimSpace(pre + t) == TrimSpace(t)
    decreases |pre|
  {
    if pre == "" {
      assert pre + t == t;
    } else {
      assert (pre + t)[0] == pre[0] && (pre + t)[1..] == pre[1..] + t;
      TrimsFront(pre[1..], t);
    }
  }

  lemma {:induction false} TrimsBack(t: string, post: string)
    requires Blank(post) && t != "" && !IsSpace(t[0]) && !IsSpace(t[|t| - 1])
    ensures TrimSpace(t + post) == t
    decreases |post|
  {
    if post == "" {
      assert t + post == t;
    } else {
      var s := t + post;
      assert s[0] == t[0] && s[|s| - 1] == post[|post| - 1] && s[..|s| - 1] == t + post[..|post| - 1];
      TrimsBack(t, post[..|post| - 1]);
    }
  }

  /** White space around a TTL is ignored, and white space alone is no TTL. */
  lemma PaddingIgnored(frac: Rounding, pre: string, t: string, post: string)
    requires Blank(pre) && Blank(post) && t != "" && !IsSpace(t[0]) && !IsSpace(t[|t| - 1])
    ensures TrimSpace(pre + (t + post)) == t
    ensures ParseTTL(frac, pre + (t + post)) == ParseTTL(frac, t)
    ensures ParseTTL(frac, pre) == Bad
  {
    TrimsFront(pre, t + post);
    TrimsBack(t, post);
    NothingToTrim(t);
    TrimsFront(pre, "");
    assert pre + "" == pre;
    hide ParseDuration, Rewrite;
  }
}
