/** The LLQL front end (server/src/query/llql.rs): a query submitted as the first text term
    with an `llql:` or `llql-json:` prefix is decoded (the JSON layer is foreign and given
    as a parameter) and converted to the typed query tree; AND/OR lists fold to the left,
    and windows are durations with an explicit `ms`, `s`, `m` or `h` suffix. */
module Llql {
  import opened Wrappers
  import opened Text
  import opened Decimal
  import opened Time
  import opened Errors
  import opened Sorting
  import Ast

  datatype Selector = All | Modality(modality: string) | StreamId(streamId: string)

  datatype LValue = String(s: string) | Int(i: int) | Float(bits: bv64) | Bool(b: bool)

  /** `LlqlExpr`: AND/OR carry a list of terms; times and windows are still text. */
  datatype Expr =
    | And(terms: seq<Expr>)
    | Or(terms: seq<Expr>)
    | Not(term: Expr)
    | Eq(field: string, value: LValue)
    | Contains(field: string, text: string)
    | TimeRange(start: string, end: string)
    | Within(stream: Selector, condition: Expr, window: string)
    | During(stream: Selector, condition: Expr, window: string)
    | Overlaps(stream: Selector, condition: Expr, window: string)

  datatype LlqlQuery = LlqlQuery(target: Selector, filter: Expr)

  /** chrono's RFC 3339 parser followed by the conversion to UTC: the instant, or the
      parser's own error text. */
  type Rfc3339Parser = string -> Result<Instant, string>

  /** serde_json decoding of the query body: the decoded query, or the decoder's error text. */
  type JsonParser = string -> Result<LlqlQuery, string>

  function SelectorToAst(s: Selector): Ast.StreamSelector {
    match s
    case All => Ast.All
    case Modality(m) => Ast.Modality(m)
    case StreamId(id) => Ast.StreamId(id)
  }

  function ValueToAst(v: LValue): Ast.Value {
    match v
    case String(s) => Ast.String(s)
    case Int(i) => Ast.Int(i)
    case Float(f) => Ast.Float(f)
    case Bool(b) => Ast.Bool(b)
  }

  /** `parse_rfc3339_utc`: the trimmed text is parsed; a failure names the untrimmed text. */
  function ParseRfc3339Utc(s: string, parse: Rfc3339Parser): (r: Result<Instant, string>)
    ensures parse(Trim(s)).Ok? ==> r == parse(Trim(s))
    ensures parse(Trim(s)).Err? ==>
              r == Err("invalid rfc3339 datetime '" + s + "': " + parse(Trim(s)).error)
  {
    match parse(Trim(s))
    case Ok(t) => Ok(t)
    case Err(e) => Err("invalid rfc3339 datetime '" + s + "': " + e)
  }

  // ---------------------------------------------------------------- durations

  datatype Unit = Ms | S | M | H

  function Suffix(u: Unit): string {
    match u
    case Ms => "ms"
    case S => "s"
    case M => "m"
    case H => "h"
  }

  /** The number text and the unit of a trimmed duration: `ms` is tried before `s`, then
      `m`, then `h`. */
  function SplitUnit(t: string): Option<(string, Unit)> {
    if EndsWith(t, "ms") then Some((t[..|t| - 2], Ms))
    else if EndsWith(t, "s") then Some((t[..|t| - 1], S))
    else if EndsWith(t, "m") then Some((t[..|t| - 1], M))
    else if EndsWith(t, "h") then Some((t[..|t| - 1], H))
    else None
  }

  /** The split is exact: the number text followed by the unit's suffix is the whole text. */
  lemma SplitUnitRejoins(t: string)
    ensures SplitUnit(t).Some? ==> SplitUnit(t).value.0 + Suffix(SplitUnit(t).value.1) == t
  {
    if EndsWith(t, "ms") {
      assert t[..|t| - 2] + t[|t| - 2..] == t;
    } else if EndsWith(t, "s") || EndsWith(t, "m") || EndsWith(t, "h") {
      assert t[..|t| - 1] + t[|t| - 1..] == t;
    }
  }

  function UnitSpan(n: int, u: Unit): Span {
    match u
    case Ms => Millis(n)
    case S => Seconds(n)
    case M => Minutes(n)
    case H => Hours(n)
  }

  /** The largest count chrono's `Duration` constructor for the unit takes without
      panicking: `seconds` allows whole seconds up to `i64::MAX` milliseconds, `minutes`
      and `hours` multiply into seconds first, and `milliseconds` takes every `i64`. */
  function MaxCount(u: Unit): nat {
    match u
    case Ms => I64_MAX
    case S => I64_MAX / 1000
    case M => I64_MAX / 1000 / 60
    case H => I64_MAX / 1000 / 3600
  }

  /** `parse_duration`. */
  function ParseDuration(s: string): (r: Result<Span, string>)
    ensures r.Ok? ==> r.value >= 0
  {
    var t := Trim(s);
    if t == [] then Err("duration cannot be empty")
    else
      match SplitUnit(t)
      case None => Err("invalid duration '" + t + "': expected suffix ms|s|m|h")
      case Some((num, unit)) =>
        match ParseI64(Trim(num))
        case None =>
          Err("invalid duration '" + t + "': failed to parse integer '" + Trim(num) + "': " +
              IntErrorMessage(ParseI64Error(Trim(num))))
        case Some(n) =>
          if n < 0 then Err("invalid duration '" + t + "': must be non-negative")
          else Ok(UnitSpan(n, unit))
  }

  /** An empty or all-white-space window is rejected, and so is one without a unit. */
  lemma ParseDurationRejects(s: string)
    ensures Trim(s) == [] ==> ParseDuration(s) == Err("duration cannot be empty")
    ensures SplitUnit(Trim(s)).None? ==> ParseDuration(s).Err?
  {
  }

  /** A text that starts and ends with a digit is its own trim. */
  lemma TrimDigitEdges(s: string)
    requires |s| >= 1 && IsAsciiDigit(s[0]) && IsAsciiDigit(s[|s| - 1])
    ensures Trim(s) == s
  {
    TrimNoEdges(s);
  }

  /** A number text that ends in a digit splits off exactly the suffix appended to it. */
  lemma SplitUnitOf(d: string, u: Unit)
    requires |d| >= 1 && IsAsciiDigit(d[|d| - 1])
    ensures SplitUnit(d + Suffix(u)) == Some((d, u))
  {
    var t := d + Suffix(u);
    match u
    case Ms =>
      assert t[|t| - 2..] == "ms" && t[..|t| - 2] == d;
    case S =>
      assert t[|t| - 2] == d[|d| - 1];
      assert t[|t| - 1..] == "s" && t[..|t| - 1] == d;
    case M =>
      assert t[|t| - 1..] == "m" && t[..|t| - 1] == d;
    case H =>
      assert t[|t| - 1..] == "h" && t[..|t| - 1] == d;
  }

  /** A text with a unit suffix and no white space at its ends parses as its number text
      read as an `i64`, when that is non-negative and within chrono's bound. */
  lemma ParseDurationSplit(t: string, d: string, u: Unit, n: int)
    requires t == d + Suffix(u) && Trim(t) == t && t != []
    requires SplitUnit(t) == Some((d, u)) && Trim(d) == d && ParseI64(d) == Some(n) && 0 <= n <= MaxCount(u)
    ensures ParseDuration(t) == Ok(UnitSpan(n, u))
  {
  }

  /** Every count chrono takes for the unit, written in decimal with the unit's suffix,
      parses to that many units; in particular `ms` is read as milliseconds, not as
      minutes. */
  lemma ParseDurationOfUnits(n: nat, u: Unit)
    requires n <= MaxCount(u)
    ensures ParseDuration(NatToString(n) + Suffix(u)) == Ok(UnitSpan(n, u))
  {
    var d := NatToString(n);
    var t := d + Suffix(u);
    assert IsAsciiDigit(t[0]) by { assert t[0] == d[0]; }
    assert !IsWhitespace(t[|t| - 1]) by { assert t[|t| - 1] in "msh"; }
    TrimNoEdges(t);
    SplitUnitOf(d, u);
    TrimDigitEdges(d);
    IntToStringRoundTrip(n, I64_MIN, I64_MAX);
    ParseDurationSplit(t, d, u, n);
  }

  /** The documented examples: "250ms", "30s", "5m" and "1h" parse to their spans, and a
      number with no unit is rejected. */
  lemma ParseDurationExamples()
    ensures ParseDuration("250ms") == Ok(Millis(250))
    ensures ParseDuration("30s") == Ok(Seconds(30))
    ensures ParseDuration("5m") == Ok(Minutes(5))
    ensures ParseDuration("1h") == Ok(Hours(1))
    ensures ParseDuration("10").Err?
  {
    DurationMillisExample();
    DurationSecondsExample();
    DurationMinutesExample();
    DurationHoursExample();
    DurationNoUnitExample();
  }

  lemma DurationNoUnitExample()
    ensures ParseDuration("10").Err?
  {
    TrimDigitEdges("10");
    assert SplitUnit("10").None?;
  }

  lemma DurationMillisExample()
    ensures ParseDuration("250ms") == Ok(Millis(250))
  {
    assert NatToString(250) + Suffix(Ms) == "250ms" by {
      assert NatToString(25) == "25";
    }
    DurationText(250, Ms, "250ms");
  }

  lemma DurationSecondsExample()
    ensures ParseDuration("30s") == Ok(Seconds(30))
  {
    assert NatToString(30) + Suffix(S) == "30s" by {
      assert NatToString(30) == NatToString(3) + [DigitChar(0)];
    }
    DurationText(30, S, "30s");
  }

  lemma DurationMinutesExample()
    ensures ParseDuration("5m") == Ok(Minutes(5))
  {
    assert NatToString(5) + Suffix(M) == "5m";
    DurationText(5, M, "5m");
  }

  lemma DurationHoursExample()
    ensures ParseDuration("1h") == Ok(Hours(1))
  {
    assert NatToString(1) + Suffix(H) == "1h";
    DurationText(1, H, "1h");
  }

  lemma DurationText(n: nat, u: Unit, s: string)
    requires n <= MaxCount(u) && NatToString(n) + Suffix(u) == s
    ensures ParseDuration(s) == Ok(UnitSpan(n, u))
  {
    ParseDurationOfUnits(n, u);
  }

  /** A count that is no integer is rejected with the text of Rust's integer parse error. */
  lemma ParseDurationNotInteger()
    ensures ParseDuration("xs") ==
      Err("invalid duration '" + "xs" + "': failed to parse integer '" + "x" + "': " +
          "invalid digit found in string")
  {
    ParseIntErrorOfNumbers(0);
    assert Trim("xs") == "xs" by { TrimNoEdges("xs"); }
    assert !EndsWith("xs", "ms") by { assert "xs"[0..] != "ms"; }
    assert EndsWith("xs", "s") && "xs"[..1] == "x";
    assert Trim("x") == "x" by { TrimNoEdges("x"); }
    assert ParseI64("x").None? by { ParseIntErrorIff("x", I64_MIN, I64_MAX); }
    assert ParseI64Error("x") == InvalidDigit;
  }

  /** A count past the `i64` range is rejected as too large. */
  lemma ParseDurationTooLarge(n: nat)
    requires n > I64_MAX
    ensures ParseDuration(NatToString(n) + "h") ==
      Err("invalid duration '" + (NatToString(n) + "h") + "': failed to parse integer '" + NatToString(n) +
          "': " + "number too large to fit in target type")
  {
    var d := NatToString(n);
    OverflowText(n);
    assert ParseI64(d).None? && ParseI64Error(d) == PosOverflow by {
      ParseIntErrorOfNumbers(n);
      ParseIntErrorIff(d, I64_MIN, I64_MAX);
    }
    NumberTextError(d, H);
    assert d + Suffix(H) == d + "h";
  }

  lemma OverflowText(n: nat)
    ensures |NatToString(n)| >= 1 && AllDigits(NatToString(n))
  {
    NatToStringValue(n);
  }

  /** Digits that are no `i64`, with a unit suffix, are rejected with the parse error's text. */
  lemma NumberTextError(d: string, u: Unit)
    requires |d| >= 1 && AllDigits(d) && ParseI64(d).None?
    ensures ParseDuration(d + Suffix(u)) ==
      Err("invalid duration '" + (d + Suffix(u)) + "': failed to parse integer '" + d + "': " +
          IntErrorMessage(ParseI64Error(d)))
  {
    NumberTextSplits(d, u);
  }

  /** A number text with a unit suffix is its own trim and splits back into the two. */
  lemma NumberTextSplits(d: string, u: Unit)
    requires |d| >= 1 && AllDigits(d)
    ensures Trim(d + Suffix(u)) == d + Suffix(u) && SplitUnit(d + Suffix(u)) == Some((d, u))
    ensures Trim(d) == d
  {
    var t := d + Suffix(u);
    assert IsAsciiDigit(t[0]) by { assert t[0] == d[0]; }
    assert !IsWhitespace(t[|t| - 1]) by { assert t[|t| - 1] in "msh"; }
    TrimNoEdges(t);
    SplitUnitOf(d, u);
    TrimDigitEdges(d);
  }

  /** A negative count is rejected even though it is a valid integer. */
  lemma {:induction false} ParseDurationNegative(n: nat, u: Unit)
    requires 0 < n <= I64_MAX
    ensures ParseDuration("-" + NatToString(n) + Suffix(u)).Err?
  {
    NatToStringValue(n);
    NegativeDigitsRejected(NatToString(n), u);
  }

  /** The same for any digits, leading zeros allowed, of a positive value. */
  lemma {:induction false} NegativeDigitsRejected(d: string, u: Unit)
    requires |d| >= 1 && AllDigits(d) && 0 < DigitsValue(d) <= I64_MAX
    ensures ParseDuration("-" + d + Suffix(u)).Err?
  {
    NegativeTextTrimmed(d, u);
    NegativeTextSplits(d, u);
    NegativeCountText(d);
    NegativeCountRejected("-" + d + Suffix(u), "-" + d, u, -(DigitsValue(d) as int));
  }

  lemma NegativeTextTrimmed(d: string, u: Unit)
    requires |d| >= 1
    ensures "-" + d + Suffix(u) != [] && Trim("-" + d + Suffix(u)) == "-" + d + Suffix(u)
  {
    var t := "-" + d + Suffix(u);
    assert !IsWhitespace(t[0]) by { assert t[0] == '-'; }
    assert !IsWhitespace(t[|t| - 1]) by { assert t[|t| - 1] in "msh"; }
    TrimNoEdges(t);
  }

  lemma NegativeTextSplits(d: string, u: Unit)
    requires |d| >= 1 && AllDigits(d)
    ensures SplitUnit("-" + d + Suffix(u)) == Some(("-" + d, u))
  {
    var m := "-" + d;
    assert m[|m| - 1] == d[|d| - 1];
    SplitUnitOf(m, u);
  }

  lemma NegativeCountText(d: string)
    requires |d| >= 1 && AllDigits(d) && DigitsValue(d) <= I64_MAX
    ensures Trim("-" + d) == "-" + d && ParseI64("-" + d) == Some(-(DigitsValue(d) as int))
  {
    var m := "-" + d;
    assert m[|m| - 1] == d[|d| - 1];
    assert !IsWhitespace(m[0]) && !IsWhitespace(m[|m| - 1]);
    TrimNoEdges(m);
    ParseNegativeDigits(d, I64_MIN, I64_MAX);
  }

  lemma NegativeCountRejected(t: string, num: string, u: Unit, v: int)
    requires t != [] && Trim(t) == t && SplitUnit(t) == Some((num, u))
    requires Trim(num) == num && ParseI64(num) == Some(v) && v < 0
    ensures ParseDuration(t).Err?
  {
  }

  // ---------------------------------------------------------------- conversion

  /** `LlqlExpr::try_into_ast`: an empty AND/OR is the whole time line, a non-empty one is
      the left fold of its converted terms; a window is parsed after its predicate. */
  function Convert(e: Expr, parse: Rfc3339Parser): Result<Ast.Expression, string>
    decreases e
  {
    match e
    case And(terms) =>
      if terms == [] then Ok(Ast.TimeRange(MIN_UTC, MAX_UTC))
      else FoldResults(seq(|terms|, i requires 0 <= i < |terms| => Convert(terms[i], parse)), true)
    case Or(terms) =>
      if terms == [] then Ok(Ast.TimeRange(MIN_UTC, MAX_UTC))
      else FoldResults(seq(|terms|, i requires 0 <= i < |terms| => Convert(terms[i], parse)), false)
    case Not(t) =>
      var inner := Convert(t, parse);
      if inner.Err? then Err(inner.error) else Ok(Ast.Not(inner.value))
    case Eq(f, v) => Ok(Ast.Eq(f, ValueToAst(v)))
    case Contains(f, text) => Ok(Ast.Contains(f, text))
    case TimeRange(s, t) =>
      var start := ParseRfc3339Utc(s, parse);
      if start.Err? then Err(start.error)
      else
        var end := ParseRfc3339Utc(t, parse);
        if end.Err? then Err(end.error) else Ok(Ast.TimeRange(start.value, end.value))
    case Within(st, p, w) => Windowed(WithinOp, st, Convert(p, parse), ParseDuration(w))
    case During(st, p, w) => Windowed(DuringOp, st, Convert(p, parse), ParseDuration(w))
    case Overlaps(st, p, w) => Windowed(OverlapsOp, st, Convert(p, parse), ParseDuration(w))
  }

  datatype WindowOp = WithinOp | DuringOp | OverlapsOp

  /** A windowed term from its converted predicate and its parsed window: the predicate's
      error comes first, then the window's. */
  function Windowed(op: WindowOp, st: Selector, pr: Result<Ast.Expression, string>, d: Result<Span, string>)
    : Result<Ast.Expression, string>
  {
    if pr.Err? then Err(pr.error)
    else if d.Err? then Err(d.error)
    else
      Ok(match op
         case WithinOp => Ast.Within(SelectorToAst(st), pr.value, d.value)
         case DuringOp => Ast.During(SelectorToAst(st), pr.value, d.value)
         case OverlapsOp => Ast.Overlaps(SelectorToAst(st), pr.value, d.value))
  }

  function Junction(isAnd: bool, l: Ast.Expression, r: Ast.Expression): Ast.Expression {
    if isAnd then Ast.And(l, r) else Ast.Or(l, r)
  }

  /** The left fold of converted terms, first to last; an earlier term's error wins. */
  function FoldResults(rs: seq<Result<Ast.Expression, string>>, isAnd: bool): Result<Ast.Expression, string>
    requires rs != []
  {
    if |rs| == 1 then rs[0]
    else
      var acc := FoldResults(rs[..|rs| - 1], isAnd);
      if acc.Err? then acc
      else if Last(rs).Err? then Err(Last(rs).error)
      else Ok(Junction(isAnd, acc.value, Last(rs).value))
  }

  /** An error among the first `k` terms is the error of the whole fold. */
  lemma {:induction false} FoldErrStays(rs: seq<Result<Ast.Expression, string>>, k: nat, isAnd: bool)
    requires 1 <= k <= |rs| && FoldResults(rs[..k], isAnd).Err?
    ensures FoldResults(rs, isAnd) == FoldResults(rs[..k], isAnd)
    decreases |rs|
  {
    if k < |rs| {
      assert rs[..|rs| - 1][..k] == rs[..k];
      FoldErrStays(rs[..|rs| - 1], k, isAnd);
    } else {
      assert rs[..k] == rs;
    }
  }

  /** The terms of an AND/OR list, converted. */
  /** One more term folded onto an accumulated success. */
  lemma FoldStep(rs: seq<Result<Ast.Expression, string>>, i: nat, isAnd: bool,
                 acc: Ast.Expression, t: Result<Ast.Expression, string>)
    requires 1 <= i < |rs| && rs[i] == t && FoldResults(rs[..i], isAnd) == Ok(acc)
    ensures t.Err? ==> FoldResults(rs[..i + 1], isAnd) == Err(t.error)
    ensures t.Ok? ==> FoldResults(rs[..i + 1], isAnd) == Ok(Junction(isAnd, acc, t.value))
  {
    assert rs[..i + 1][..i] == rs[..i];
  }

  function Converted(e: Expr, parse: Rfc3339Parser): (rs: seq<Result<Ast.Expression, string>>)
    requires e.And? || e.Or?
    ensures |rs| == |e.terms|
  {
    seq(|e.terms|, i requires 0 <= i < |e.terms| => Convert(e.terms[i], parse))
  }

  /** `try_into_ast`, with the AND/OR lists folded by a loop over an accumulator. */
  method TryIntoAst(e: Expr, parse: Rfc3339Parser) returns (r: Result<Ast.Expression, string>)
    ensures r == Convert(e, parse)
    decreases e, 2
  {
    match e
    case And(terms) =>
      if terms == [] {
        r := Ok(Ast.TimeRange(MIN_UTC, MAX_UTC));
      } else {
        r := FoldTerms(e, parse);
      }
    case Or(terms) =>
      if terms == [] {
        r := Ok(Ast.TimeRange(MIN_UTC, MAX_UTC));
      } else {
        r := FoldTerms(e, parse);
      }
    case Not(t) =>
      var inner := TryIntoAst(t, parse);
      r := if inner.Err? then Err(inner.error) else Ok(Ast.Not(inner.value));
    case Eq(f, v) =>
      r := Ok(Ast.Eq(f, ValueToAst(v)));
    case Contains(f, text) =>
      r := Ok(Ast.Contains(f, text));
    case TimeRange(s, t) =>
      var start := ParseRfc3339Utc(s, parse);
      if start.Err? {
        return Err(start.error);
      }
      var end := ParseRfc3339Utc(t, parse);
      r := if end.Err? then Err(end.error) else Ok(Ast.TimeRange(start.value, end.value));
    case Within(_, _, _) =>
      r := WindowTerm(e, WithinOp, parse);
    case During(_, _, _) =>
      r := WindowTerm(e, DuringOp, parse);
    case Overlaps(_, _, _) =>
      r := WindowTerm(e, OverlapsOp, parse);
  }

  /** A windowed term: its predicate is converted first and its error returned; then the
      window is parsed. */
  method WindowTerm(e: Expr, op: WindowOp, parse: Rfc3339Parser) returns (r: Result<Ast.Expression, string>)
    requires e.Within? || e.During? || e.Overlaps?
    ensures r == Windowed(op, e.stream, Convert(e.condition, parse), ParseDuration(e.window))
    decreases e, 0
  {
    var pr := TryIntoAst(e.condition, parse);
    if pr.Err? {
      return Err(pr.error);
    }
    var d := ParseDuration(e.window);
    if d.Err? {
      return Err(d.error);
    }
    r := Windowed(op, e.stream, pr, d);
  }

  /** The accumulator loop of a non-empty AND/OR list: convert the first term, then join
      each further term onto the accumulator, stopping at the first error. */
  method FoldTerms(e: Expr, parse: Rfc3339Parser) returns (r: Result<Ast.Expression, string>)
    requires (e.And? || e.Or?) && e.terms != []
    ensures r == FoldResults(Converted(e, parse), e.And?)
    decreases e, 1
  {
    ghost var rs := Converted(e, parse);
    var first := TryIntoAst(e.terms[0], parse);
    assert rs[..1] == [first];
    if first.Err? {
      FoldErrStays(rs, 1, e.And?);
      return Err(first.error);
    }
    r := FoldRest(e, parse, first.value);
  }

  /** The loop over the remaining terms, from the first term's conversion onward. */
  method FoldRest(e: Expr, parse: Rfc3339Parser, first: Ast.Expression) returns (r: Result<Ast.Expression, string>)
    requires (e.And? || e.Or?) && e.terms != []
    requires FoldResults(Converted(e, parse)[..1], e.And?) == Ok(first)
    ensures r == FoldResults(Converted(e, parse), e.And?)
    decreases e, 0
  {
    ghost var rs := Converted(e, parse);
    var acc := first;
    var i := 1;
    while i < |e.terms|
      invariant 1 <= i <= |e.terms|
      invariant FoldResults(rs[..i], e.And?) == Ok(acc)
    {
      var t := TryIntoAst(e.terms[i], parse);
      FoldStep(rs, i, e.And?, acc, t);
      if t.Err? {
        FoldErrStays(rs, i + 1, e.And?);
        return Err(t.error);
      }
      acc := Junction(e.And?, acc, t.value);
      i := i + 1;
    }
    assert rs[..i] == rs;
    return Ok(acc);
  }

  /** The `n` operands of a left-leaning chain of ANDs (or ORs), first to last. */
  function Operands(x: Ast.Expression, n: nat, isAnd: bool): Option<seq<Ast.Expression>>
    requires n >= 1
    decreases n
  {
    if n == 1 then Some([x])
    else if (isAnd && x.And?) || (!isAnd && x.Or?) then
      var l := Operands(x.left, n - 1, isAnd);
      if l.None? then None else Some(l.value + [x.right])
    else None
  }

  /** The values of a list of successful results. */
  function Values(rs: seq<Result<Ast.Expression, string>>): (xs: seq<Ast.Expression>)
    requires forall i :: 0 <= i < |rs| ==> rs[i].Ok?
    ensures |xs| == |rs|
  {
    if rs == [] then [] else Values(rs[..|rs| - 1]) + [Last(rs).value]
  }

  /** The fold succeeds exactly when every term converts, and then it is the left-leaning
      chain whose operands are the converted terms in list order. */
  lemma {:induction false} FoldOperands(rs: seq<Result<Ast.Expression, string>>, isAnd: bool)
    requires rs != []
    ensures FoldResults(rs, isAnd).Ok? <==> forall i :: 0 <= i < |rs| ==> rs[i].Ok?
    ensures FoldResults(rs, isAnd).Ok? ==>
              Operands(FoldResults(rs, isAnd).value, |rs|, isAnd) == Some(Values(rs))
    decreases |rs|
  {
    if |rs| == 1 {
      assert rs[..0] == [] && Last(rs) == rs[0];
      if rs[0].Ok? {
        assert Values(rs) == Values([]) + [rs[0].value];
        assert Values(rs) == [rs[0].value];
        assert FoldResults(rs, isAnd) == rs[0];
        assert Operands(rs[0].value, 1, isAnd) == Some([rs[0].value]);
      }
    } else {
      var front := rs[..|rs| - 1];
      FoldOperands(front, isAnd);
      assert forall i :: 0 <= i < |front| ==> front[i] == rs[i];
      if FoldResults(rs, isAnd).Ok? {
        var acc := FoldResults(front, isAnd).value;
        var x := FoldResults(rs, isAnd).value;
        assert x == Junction(isAnd, acc, Last(rs).value);
        assert x.left == acc && x.right == Last(rs).value;
        assert Operands(x, |rs|, isAnd) == Some(Values(front) + [Last(rs).value]);
      }
    }
  }

  /** A failing fold reports the error of the first term that fails. */
  lemma {:induction false} FoldFirstError(rs: seq<Result<Ast.Expression, string>>, isAnd: bool)
    requires rs != [] && FoldResults(rs, isAnd).Err?
    ensures exists k :: 0 <= k < |rs| && rs[k].Err? && FoldResults(rs, isAnd).error == rs[k].error &&
              forall j :: 0 <= j < k ==> rs[j].Ok?
    decreases |rs|
  {
    if |rs| == 1 {
      assert rs[0].Err? && FoldResults(rs, isAnd).error == rs[0].error;
    } else {
      var front := rs[..|rs| - 1];
      if FoldResults(front, isAnd).Err? {
        FoldFirstError(front, isAnd);
        var k :| 0 <= k < |front| && front[k].Err? && FoldResults(front, isAnd).error == front[k].error &&
                 forall j :: 0 <= j < k ==> front[j].Ok?;
        assert rs[k] == front[k];
        assert forall j :: 0 <= j < k ==> rs[j] == front[j];
      } else {
        FoldOkAll(front, isAnd);
        var k := |rs| - 1;
        assert rs[k].Err? && FoldResults(rs, isAnd).error == rs[k].error;
        assert forall j :: 0 <= j < k ==> rs[j] == front[j];
      }
    }
  }

  /** A fold that succeeds had every term succeed. */
  lemma {:induction false} FoldOkAll(rs: seq<Result<Ast.Expression, string>>, isAnd: bool)
    requires rs != []
    ensures FoldResults(rs, isAnd).Ok? ==> forall i :: 0 <= i < |rs| ==> rs[i].Ok?
    decreases |rs|
  {
    if |rs| > 1 && FoldResults(rs, isAnd).Ok? {
      var front := rs[..|rs| - 1];
      FoldOkAll(front, isAnd);
      assert forall i :: 0 <= i < |front| ==> rs[i] == front[i];
    }
  }

  /** For an AND/OR list: the conversion is the fold of its converted terms. */
  lemma ConvertJunction(e: Expr, parse: Rfc3339Parser)
    requires (e.And? || e.Or?) && e.terms != []
    ensures Convert(e, parse) == FoldResults(Converted(e, parse), e.And?)
  {
  }

  function ConvertQuery(q: LlqlQuery, parse: Rfc3339Parser): Result<Ast.Query, string> {
    var f := Convert(q.filter, parse);
    if f.Err? then Err(f.error) else Ok(Ast.Query(SelectorToAst(q.target), f.value))
  }

  /** The query body after an LLQL prefix, if the first term (leading white space trimmed)
      has one. */
  function LlqlBody(terms: seq<string>): Option<string> {
    if terms == [] then None
    else
      var s := TrimStart(terms[0]);
      if StartsWith(s, "llql-json:") then Some(s[10..])
      else if StartsWith(s, "llql:") then Some(s[5..])
      else None
  }

  /** `try_parse_llql`. */
  function TryParseLlql(textTerms: seq<string>, json: JsonParser, parse: Rfc3339Parser)
    : (r: Result<Option<Ast.Query>, LifelogError>)
    ensures r.Err? ==> r.error.Validation? && r.error.field == "query.text"
  {
    match LlqlBody(textTerms)
    case None => Ok(None)
    case Some(body) =>
      match json(Trim(body))
      case Err(e) => Err(Validation("query.text", "failed to parse llql json: " + e))
      case Ok(q) =>
        match ConvertQuery(q, parse)
        case Err(reason) => Err(Validation("query.text", reason))
        case Ok(a) => Ok(Some(a))
  }

  /** Text that is not LLQL is left to the plain text search: the result is `Ok(None)`
      exactly when there are no terms or the first has neither prefix. */
  lemma TryParseLlqlNone(textTerms: seq<string>, json: JsonParser, parse: Rfc3339Parser)
    ensures TryParseLlql(textTerms, json, parse) == Ok(None) <==>
              textTerms == [] ||
              (!StartsWith(TrimStart(textTerms[0]), "llql-json:") &&
               !StartsWith(TrimStart(textTerms[0]), "llql:"))
  {
  }

  /** The prefix chosen: `llql-json:` and `llql:` both hand the rest, trimmed, to the
      decoder, and a decoded query converts as `Convert` says. */
  lemma TryParseLlqlDecodes(body: string, prefix: string, json: JsonParser, parse: Rfc3339Parser)
    requires prefix == "llql:" || prefix == "llql-json:"
    requires json(Trim(body)).Ok?
    ensures var q := json(Trim(body)).value;
            TryParseLlql([prefix + body], json, parse) ==
              (if Convert(q.filter, parse).Ok?
               then Ok(Some(Ast.Query(SelectorToAst(q.target), Convert(q.filter, parse).value)))
               else Err(Validation("query.text", Convert(q.filter, parse).error)))
  {
    LlqlBodyOf(body, prefix);
  }

  /** Either prefix at the very start of the first term leaves exactly the rest. */
  lemma LlqlBodyOf(body: string, prefix: string)
    requires prefix == "llql:" || prefix == "llql-json:"
    ensures LlqlBody([prefix + body]) == Some(body)
  {
    var s := prefix + body;
    assert TrimStart(s) == s;
    if prefix == "llql:" {
      assert s[..5] == "llql:" && s[5..] == body;
      assert !StartsWith(s, "llql-json:") by {
        assert |s| < 10 || s[4] != "llql-json:"[4];
      }
    } else {
      assert s[..10] == "llql-json:" && s[10..] == body;
    }
  }
}
