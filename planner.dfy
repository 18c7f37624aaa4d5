/** The single-statement planner (server/src/query/planner.rs): a query over one table
    compiles its filter expression to a SurrealQL condition; querying ALL streams is not
    supported. The planner predates the OVERLAPS operator of the AST and has no case for
    it, so it is modelled on the expressions it handles. */
module Planner {
  import opened Wrappers
  import opened Text
  import opened Decimal
  import opened Time
  import Ast
  import SearchQuery

  datatype ExecutionPlan = SimpleQuery(sql: string) | Unsupported(reason: string)

  /** chrono's `to_rfc3339`, and `f64::to_string` on the value's bits. */
  type Rfc3339 = Instant -> string
  type FloatText = bv64 -> string

  /** The expressions the planner has a case for: everything but OVERLAPS, whose operands
      it compiles. WITHIN and DURING compile to a constant and their operands are unread. */
  predicate Handled(e: Ast.Expression) {
    match e
    case And(l, r) => Handled(l) && Handled(r)
    case Or(l, r) => Handled(l) && Handled(r)
    case Not(inner) => Handled(inner)
    case Overlaps(_, _, _) => false
    case _ => true
  }

  /** `quote_string` as written: single quotes are escaped, backslashes are not. */
  function QuoteString(s: string): string {
    "'" + Replace(s, "'", "\\'") + "'"
  }

  /** The quoting the planner needs, which `quote_string` falls short of: backslashes and
      single quotes both escaped, as the plain search path does it. */
  function Quote(s: string): string {
    "'" + SearchQuery.Sanitize(s) + "'"
  }

  /** `compile_value`. */
  function CompileValue(v: Ast.Value, ftoa: FloatText): string {
    match v
    case String(s) => QuoteString(s)
    case Int(i) => IntToString(i)
    case Float(f) => ftoa(f)
    case Bool(b) => if b then "true" else "false"
  }

  /** `compile_expression`. */
  function CompileExpression(e: Ast.Expression, rfc: Rfc3339, ftoa: FloatText): string
    requires Handled(e)
  {
    match e
    case And(l, r) => "(" + CompileExpression(l, rfc, ftoa) + ") AND (" + CompileExpression(r, rfc, ftoa) + ")"
    case Or(l, r) => "(" + CompileExpression(l, rfc, ftoa) + ") OR (" + CompileExpression(r, rfc, ftoa) + ")"
    case Not(inner) => "!(" + CompileExpression(inner, rfc, ftoa) + ")"
    case Eq(field, value) => field + " = " + CompileValue(value, ftoa)
    case Contains(field, text) => field + " ~ " + QuoteString(text)
    case TimeRange(start, end) => "timestamp >= '" + rfc(start) + "' AND timestamp < '" + rfc(end) + "'"
    case Within(_, _, _) => "false /* WITHIN operator requires multi-stage planning */"
    case During(_, _, _) => "false /* DURING operator requires multi-stage planning */"
  }

  function PlanPrefix(): string { "SELECT uuid FROM `" }

  /** `plan`: the target's name is the table, used verbatim. */
  function Plan(q: Ast.Query, rfc: Rfc3339, ftoa: FloatText): ExecutionPlan
    requires Handled(q.filter)
  {
    match q.target
    case All => Unsupported("Querying ALL not supported")
    case Modality(m) => SimpleQuery(PlanPrefix() + m + "`" + Where(q.filter, rfc, ftoa))
    case StreamId(id) => SimpleQuery(PlanPrefix() + id + "`" + Where(q.filter, rfc, ftoa))
  }

  function Where(e: Ast.Expression, rfc: Rfc3339, ftoa: FloatText): string
    requires Handled(e)
  {
    " WHERE " + CompileExpression(e, rfc, ftoa) + ";"
  }

  function TargetName(t: Ast.StreamSelector): Option<string> {
    match t
    case All => None
    case Modality(m) => Some(m)
    case StreamId(id) => Some(id)
  }

  /** A plan is unsupported exactly when the target is ALL; otherwise the statement
      selects from the target's table (recoverable whenever the name has no backquote)
      and ends with the compiled filter and a semicolon. */
  lemma PlanShape(q: Ast.Query, rfc: Rfc3339, ftoa: FloatText)
    requires Handled(q.filter)
    ensures Plan(q, rfc, ftoa).Unsupported? <==> q.target.All?
    ensures Plan(q, rfc, ftoa).SimpleQuery? ==>
              EndsWith(Plan(q, rfc, ftoa).sql, Where(q.filter, rfc, ftoa)) &&
              ('`' !in TargetName(q.target).value ==>
                 SearchQuery.Quoted(Plan(q, rfc, ftoa).sql, PlanPrefix()) == TargetName(q.target))
  {
    if !q.target.All? {
      var t := TargetName(q.target).value;
      var w := Where(q.filter, rfc, ftoa);
      var sql := Plan(q, rfc, ftoa).sql;
      assert sql == PlanPrefix() + t + "`" + w;
      assert sql[|sql| - |w|..] == w;
      if '`' !in t {
        SearchQuery.QuotedOf(PlanPrefix(), t, w);
      }
    }
  }

  // ------------------------------------------------------------ reading a plan back

  /** The field names the parser reads back: ASCII letters, digits, `_` and `.`. */
  predicate IsFieldChar(c: char) {
    IsAsciiAlphanumeric(c) || c == '_' || c == '.'
  }

  predicate IsField(f: string) {
    f != [] && forall i :: 0 <= i < |f| ==> IsFieldChar(f[i])
  }

  /** A value whose compiled text reads back: not a float, and a string without a
      backslash, the only texts `quote_string` quotes faithfully. */
  predicate ReadableValue(v: Ast.Value) {
    !v.Float? && (v.String? ==> '\\' !in v.s)
  }

  /** The fragment that reads back unambiguously: conjunctions, disjunctions, negations,
      equalities with string, integer and boolean values, and text containment, over
      field names and texts without a backslash. Float text, times and the WITHIN/DURING
      placeholders are opaque. */
  predicate Readable(e: Ast.Expression) {
    match e
    case And(l, r) => Readable(l) && Readable(r)
    case Or(l, r) => Readable(l) && Readable(r)
    case Not(inner) => Readable(inner)
    case Eq(field, value) => IsField(field) && ReadableValue(value)
    case Contains(field, text) => IsField(field) && '\\' !in text
    case _ => false
  }

  lemma {:induction false} ReadableHandled(e: Ast.Expression)
    requires Readable(e)
    ensures Handled(e)
  {
    match e
    case And(l, r) => ReadableHandled(l); ReadableHandled(r);
    case Or(l, r) => ReadableHandled(l); ReadableHandled(r);
    case Not(inner) => ReadableHandled(inner);
    case _ =>
  }

  /** The longest prefix of field characters. */
  function FieldRun(t: string): (f: string)
    ensures |f| <= |t| && t[..|f|] == f
    decreases |t|
  {
    if t != [] && IsFieldChar(t[0]) then [t[0]] + FieldRun(t[1..]) else []
  }

  /** The longest prefix of ASCII digits. */
  function DigitRun(t: string): (d: string)
    ensures |d| <= |t| && t[..|d|] == d && AllDigits(d)
    decreases |t|
  {
    if t != [] && IsAsciiDigit(t[0]) then [t[0]] + DigitRun(t[1..]) else []
  }

  /** A decimal integer with an optional minus sign. */
  function ReadInt(t: string): Option<(int, string)> {
    if StartsWith(t, "-") then
      match ReadUnsigned(t[1..])
      case None => None
      case Some((n, rest)) => Some((-(n as int), rest))
    else
      match ReadUnsigned(t)
      case None => None
      case Some((n, rest)) => Some((n as int, rest))
  }

  function ReadUnsigned(t: string): Option<(nat, string)> {
    var d := DigitRun(t);
    if d == [] then None else Some((DigitsValue(d), t[|d|..]))
  }

  function ReadValue(t: string): Option<(Ast.Value, string)> {
    if StartsWith(t, "'") then
      match SearchQuery.ReadLiteral(t[1..])
      case None => None
      case Some((s, rest)) => Some((Ast.String(s), rest))
    else if StartsWith(t, "true") then Some((Ast.Bool(true), t[4..]))
    else if StartsWith(t, "false") then Some((Ast.Bool(false), t[5..]))
    else
      match ReadInt(t)
      case None => None
      case Some((i, rest)) => Some((Ast.Int(i), rest))
  }

  /** A comparison: a field name, then ` = ` and a value or ` ~ ` and a quoted text. */
  function ReadComparison(t: string): Option<(Ast.Expression, string)> {
    var f := FieldRun(t);
    var after := t[|f|..];
    if f == [] then None
    else if StartsWith(after, " = ") then
      match ReadValue(after[3..])
      case None => None
      case Some((v, rest)) => Some((Ast.Eq(f, v), rest))
    else if StartsWith(after, " ~ '") then
      match SearchQuery.ReadLiteral(after[4..])
      case None => None
      case Some((s, rest)) => Some((Ast.Contains(f, s), rest))
    else None
  }

  /** Reads one compiled expression from the front of `t`, returning what follows it. */
  function ReadExpression(t: string): (r: Option<(Ast.Expression, string)>)
    ensures r.Some? ==> |r.value.1| < |t|
    decreases |t|, 1
  {
    if StartsWith(t, "(") then
      match ReadExpression(t[1..])
      case None => None
      case Some((l, r1)) => ReadJunction(l, r1)
    else if StartsWith(t, "!(") then
      match ReadExpression(t[2..])
      case None => None
      case Some((inner, r1)) =>
        if !StartsWith(r1, ")") then None else Some((Ast.Not(inner), r1[1..]))
    else
      match ReadComparison(t)
      case None => None
      case Some((e, rest)) => if |rest| < |t| then Some((e, rest)) else None
  }

  /** After a parenthesised left operand: `) AND (` or `) OR (`, the right operand and the
      closing parenthesis. */
  function ReadJunction(l: Ast.Expression, r1: string): (r: Option<(Ast.Expression, string)>)
    ensures r.Some? ==> |r.value.1| < |r1|
    decreases |r1|, 0
  {
    var isAnd := StartsWith(r1, ") AND (");
    if !isAnd && !StartsWith(r1, ") OR (") then None
    else
      match ReadExpression(r1[if isAnd then 7 else 6..])
      case None => None
      case Some((r, r2)) =>
        if !StartsWith(r2, ")") then None
        else Some((if isAnd then Ast.And(l, r) else Ast.Or(l, r), r2[1..]))
  }

  /** What may follow a compiled expression inside a larger one. */
  predicate Boundary(rest: string) {
    rest == [] || rest[0] == ')'
  }

  lemma Prefixed(p: string, s: string)
    ensures StartsWith(p + s, p) && (p + s)[|p|..] == s
  {
    assert (p + s)[..|p|] == p;
  }

  lemma {:induction false} FieldRunOf(f: string, rest: string)
    requires forall i :: 0 <= i < |f| ==> IsFieldChar(f[i])
    requires rest == [] || !IsFieldChar(rest[0])
    ensures FieldRun(f + rest) == f
    decreases |f|
  {
    if f != [] {
      FieldRunOf(f[1..], rest);
      assert (f + rest)[1..] == f[1..] + rest;
    } else {
      assert f + rest == rest;
    }
  }

  lemma {:induction false} DigitRunOf(d: string, rest: string)
    requires AllDigits(d)
    requires rest == [] || !IsAsciiDigit(rest[0])
    ensures DigitRun(d + rest) == d
    decreases |d|
  {
    if d != [] {
      DigitRunOf(d[1..], rest);
      assert (d + rest)[1..] == d[1..] + rest;
    } else {
      assert d + rest == rest;
    }
  }

  /** A run of digits reads back as its value, up to the first non-digit. */
  lemma ReadUnsignedOf(d: string, rest: string)
    requires d != [] && AllDigits(d)
    requires rest == [] || !IsAsciiDigit(rest[0])
    ensures ReadUnsigned(d + rest) == Some((DigitsValue(d), rest))
  {
    DigitRunOf(d, rest);
    assert (d + rest)[|d|..] == rest;
  }

  /** Text starting with a digit has no sign. */
  lemma ReadIntUnsigned(t: string)
    requires t != [] && IsAsciiDigit(t[0])
    ensures ReadInt(t) == match ReadUnsigned(t) case None => None case Some((n, rest)) => Some((n as int, rest))
  {
    assert t[..1] != "-" by { assert t[..1][0] == t[0]; }
  }

  lemma ReadDigitsOf(d: string, rest: string)
    requires d != [] && AllDigits(d)
    requires rest == [] || !IsAsciiDigit(rest[0])
    ensures ReadInt(d + rest) == Some((DigitsValue(d) as int, rest))
  {
    ReadUnsignedOf(d, rest);
    assert (d + rest)[0] == d[0];
    ReadIntUnsigned(d + rest);
  }

  lemma ReadIntSigned(t: string, m: nat, rest: string)
    requires t != [] && t[0] == '-' && ReadUnsigned(t[1..]) == Some((m, rest))
    ensures ReadInt(t) == Some((-(m as int), rest))
  {
    assert t[..1] == "-";
  }

  lemma ReadIntOf(n: int, rest: string)
    requires rest == [] || !IsAsciiDigit(rest[0])
    ensures ReadInt(IntToString(n) + rest) == Some((n, rest))
  {
    if n < 0 {
      ReadNegativeOf(n, rest);
    } else {
      ReadNatOf(n, rest);
    }
  }

  lemma {:induction false} ReadNegativeOf(n: int, rest: string)
    requires n < 0 && (rest == [] || !IsAsciiDigit(rest[0]))
    ensures ReadInt(IntToString(n) + rest) == Some((n, rest))
  {
    var d := NatToString(-n);
    assert IntToString(n) + rest == "-" + (d + rest) by { NegativeText(n, rest); }
    assert ReadUnsigned(d + rest) == Some((-n, rest)) by {
      NatToStringValue(-n);
      ReadUnsignedOf(d, rest);
    }
    ReadIntMinus(IntToString(n) + rest, d + rest, -n, rest);
  }

  lemma ReadIntMinus(t: string, u: string, m: nat, rest: string)
    requires t == "-" + u && ReadUnsigned(u) == Some((m, rest))
    ensures ReadInt(t) == Some((-(m as int), rest))
  {
    assert t[1..] == u;
    ReadIntSigned(t, m, rest);
  }

  lemma NegativeText(n: int, rest: string)
    requires n < 0
    ensures IntToString(n) + rest == "-" + (NatToString(-n) + rest)
  {
  }

  lemma ReadNatOf(n: nat, rest: string)
    requires rest == [] || !IsAsciiDigit(rest[0])
    ensures ReadInt(IntToString(n) + rest) == Some((n, rest))
  {
    NatToStringValue(n);
    ReadDigitsOf(NatToString(n), rest);
  }

  lemma ReadStringOf(s: string, rest: string)
    requires '\\' !in s
    ensures ReadValue(QuoteString(s) + rest) == Some((Ast.String(s), rest))
  {
    var body := QuoteString(s)[1..] + rest;
    assert QuoteString(s) + rest == "'" + body;
    Prefixed("'", body);
    QuoteStringNoBackslash(s, rest);
  }

  /** Text starting with a sign or a digit is read as an integer. */
  lemma ReadValueNumber(t: string)
    requires t != [] && (t[0] == '-' || IsAsciiDigit(t[0]))
    ensures ReadValue(t) == match ReadInt(t) case None => None case Some((i, rest)) => Some((Ast.Int(i), rest))
  {
    assert !StartsWith(t, "'") && !StartsWith(t, "true") && !StartsWith(t, "false") by {
      assert t[..1] != "'" && t[..1] != "t" && t[..1] != "f";
    }
  }

  lemma ReadIntValueOf(i: int, rest: string)
    requires Boundary(rest)
    ensures ReadValue(IntToString(i) + rest) == Some((Ast.Int(i), rest))
  {
    var t := IntToString(i) + rest;
    ReadIntOf(i, rest);
    assert t[0] == IntToString(i)[0];
    ReadValueNumber(t);
  }

  lemma ReadBoolOf(b: bool, rest: string)
    ensures ReadValue((if b then "true" else "false") + rest) == Some((Ast.Bool(b), rest))
  {
    var w := if b then "true" else "false";
    var t := w + rest;
    Prefixed(w, rest);
    assert t[0] == w[0] && w[0] != '\'';
    if !b {
      assert !StartsWith(t, "true");
    }
  }

  lemma ReadValueOf(v: Ast.Value, ftoa: FloatText, rest: string)
    requires ReadableValue(v) && Boundary(rest)
    ensures ReadValue(CompileValue(v, ftoa) + rest) == Some((v, rest))
  {
    match v
    case String(s) => ReadStringOf(s, rest);
    case Int(i) => ReadIntValueOf(i, rest);
    case Bool(b) => ReadBoolOf(b, rest);
  }

  lemma {:induction false} ReadEqOf(field: string, v: Ast.Value, ftoa: FloatText, rest: string)
    requires IsField(field) && ReadableValue(v) && Boundary(rest)
    ensures ReadComparison(field + " = " + CompileValue(v, ftoa) + rest) == Some((Ast.Eq(field, v), rest))
  {
    ReadValueOf(v, ftoa, rest);
    ReadEqFrom(field, CompileValue(v, ftoa), v, rest);
  }

  lemma {:induction false} ReadEqFrom(field: string, c: string, v: Ast.Value, rest: string)
    requires IsField(field) && ReadValue(c + rest) == Some((v, rest))
    ensures ReadComparison(field + " = " + c + rest) == Some((Ast.Eq(field, v), rest))
  {
    var val := c + rest;
    var after := " = " + val;
    var t := field + " = " + c + rest;
    assert t == field + after;
    assert FieldRun(t) == field by { FieldRunOf(field, after); }
    assert StartsWith(after, " = ") && after[3..] == val by { Prefixed(" = ", val); }
    ReadEqShape(t, field, after, v, rest);
  }

  lemma ReadEqShape(t: string, f: string, after: string, v: Ast.Value, rest: string)
    requires t == f + after && f != [] && FieldRun(t) == f
    requires StartsWith(after, " = ") && ReadValue(after[3..]) == Some((v, rest))
    ensures ReadComparison(t) == Some((Ast.Eq(f, v), rest))
  {
    assert t[|f|..] == after;
  }

  lemma ReadContainsOf(field: string, text: string, rest: string)
    requires IsField(field) && '\\' !in text && Boundary(rest)
    ensures ReadComparison(field + " ~ " + QuoteString(text) + rest) == Some((Ast.Contains(field, text), rest))
  {
    var lit := QuoteString(text)[1..] + rest;
    var after := " ~ '" + lit;
    assert field + " ~ " + QuoteString(text) + rest == field + after;
    FieldRunOf(field, after);
    Prefixed(field, after);
    Prefixed(" ~ '", lit);
    assert !StartsWith(after, " = ") by { assert after[1] == '~'; }
    QuoteStringNoBackslash(text, rest);
  }

  /** A readable filter compiles to text that reads back as the same filter, and reading
      stops exactly where the compiled text ends: the planner's output is unambiguous, so
      no two readable filters compile to the same condition. */
  lemma {:induction false} CompileReadsBack(e: Ast.Expression, rfc: Rfc3339, ftoa: FloatText, rest: string)
    requires Readable(e) && Boundary(rest)
    ensures Handled(e)
    ensures ReadExpression(CompileExpression(e, rfc, ftoa) + rest) == Some((e, rest))
    decreases e, 1
  {
    ReadableHandled(e);
    match e
    case And(l, r) => JunctionReadsBack(e, l, r, true, rfc, ftoa, rest);
    case Or(l, r) => JunctionReadsBack(e, l, r, false, rfc, ftoa, rest);
    case Not(inner) =>
      ReadableHandled(inner);
      var c := CompileExpression(inner, rfc, ftoa);
      CompileReadsBack(inner, rfc, ftoa, ")" + rest);
      NotStep(c, rest);
      Prefixed(")", rest);
    case Eq(field, v) =>
      ReadEqOf(field, v, ftoa, rest);
      LeafStep(field, CompileExpression(e, rfc, ftoa), rest);
    case Contains(field, text) =>
      ReadContainsOf(field, text, rest);
      LeafStep(field, CompileExpression(e, rfc, ftoa), rest);
  }

  lemma NotStep(c: string, rest: string)
    ensures StartsWith("!(" + c + ")" + rest, "!(") && !StartsWith("!(" + c + ")" + rest, "(")
    ensures ("!(" + c + ")" + rest)[2..] == c + (")" + rest)
  {
    assert "!(" + c + ")" + rest == "!(" + (c + (")" + rest));
    Prefixed("!(", c + (")" + rest));
    assert ("!(" + c + ")" + rest)[0] == '!';
  }

  /** A comparison starts with a field character, so it is read as a leaf. */
  lemma LeafStep(field: string, c: string, rest: string)
    requires IsField(field) && StartsWith(c, field)
    ensures !StartsWith(c + rest, "(") && !StartsWith(c + rest, "!(")
  {
    assert (c + rest)[0] == field[0];
  }

  function Separator(isAnd: bool): string {
    if isAnd then ") AND (" else ") OR ("
  }

  lemma JunctionReadsBack(e: Ast.Expression, l: Ast.Expression, r: Ast.Expression, isAnd: bool,
                          rfc: Rfc3339, ftoa: FloatText, rest: string)
    requires e == (if isAnd then Ast.And(l, r) else Ast.Or(l, r))
    requires Readable(e) && Boundary(rest)
    ensures Handled(e)
    ensures ReadExpression(CompileExpression(e, rfc, ftoa) + rest) == Some((e, rest))
    decreases e, 0
  {
    ReadableHandled(e);
    var lc := CompileExpression(l, rfc, ftoa);
    var rc := CompileExpression(r, rfc, ftoa);
    JunctionText(e, l, r, isAnd, rfc, ftoa, rest);
    CompileReadsBack(l, rfc, ftoa, Separator(isAnd) + (rc + (")" + rest)));
    CompileReadsBack(r, rfc, ftoa, ")" + rest);
    JunctionRead(l, r, lc, rc, isAnd, rest);
  }

  lemma JunctionText(e: Ast.Expression, l: Ast.Expression, r: Ast.Expression, isAnd: bool,
                     rfc: Rfc3339, ftoa: FloatText, rest: string)
    requires e == (if isAnd then Ast.And(l, r) else Ast.Or(l, r)) && Handled(e)
    ensures CompileExpression(e, rfc, ftoa) + rest ==
              "(" + (CompileExpression(l, rfc, ftoa) + (Separator(isAnd) + (CompileExpression(r, rfc, ftoa) + (")" + rest))))
  {
    var lc := CompileExpression(l, rfc, ftoa);
    var rc := CompileExpression(r, rfc, ftoa);
    assert CompileExpression(e, rfc, ftoa) == "(" + lc + Separator(isAnd) + rc + ")";
    Regroup("(", lc, Separator(isAnd), rc, ")", rest);
  }

  lemma Regroup(a: string, b: string, c: string, d: string, e: string, f: string)
    ensures a + b + c + d + e + f == a + (b + (c + (d + (e + f))))
  {
  }

  lemma JunctionRead(l: Ast.Expression, r: Ast.Expression, lc: string, rc: string, isAnd: bool, rest: string)
    requires ReadExpression(lc + (Separator(isAnd) + (rc + (")" + rest)))) ==
               Some((l, Separator(isAnd) + (rc + (")" + rest))))
    requires ReadExpression(rc + (")" + rest)) == Some((r, ")" + rest))
    ensures ReadExpression("(" + (lc + (Separator(isAnd) + (rc + (")" + rest))))) ==
              Some((if isAnd then Ast.And(l, r) else Ast.Or(l, r), rest))
  {
    var r1 := Separator(isAnd) + (rc + (")" + rest));
    Prefixed("(", lc + r1);
    SeparatorRead(l, r, rc, isAnd, rest);
  }

  lemma {:induction false} SeparatorRead(l: Ast.Expression, r: Ast.Expression, rc: string, isAnd: bool, rest: string)
    requires ReadExpression(rc + (")" + rest)) == Some((r, ")" + rest))
    ensures ReadJunction(l, Separator(isAnd) + (rc + (")" + rest))) ==
              Some((if isAnd then Ast.And(l, r) else Ast.Or(l, r), rest))
  {
    var body := rc + (")" + rest);
    var r1 := Separator(isAnd) + body;
    assert StartsWith(r1, Separator(isAnd)) && r1[|Separator(isAnd)|..] == body by {
      Prefixed(Separator(isAnd), body);
    }
    assert isAnd || !StartsWith(r1, ") AND (") by {
      if !isAnd { assert r1[2] == 'O'; }
    }
    assert StartsWith(")" + rest, ")") && (")" + rest)[1..] == rest by { Prefixed(")", rest); }
    JunctionShape(l, r1, isAnd, body, r, ")" + rest, rest);
  }

  lemma JunctionShape(l: Ast.Expression, r1: string, isAnd: bool, body: string, r: Ast.Expression, r2: string, rest: string)
    requires StartsWith(r1, Separator(isAnd)) && r1[|Separator(isAnd)|..] == body
    requires isAnd || !StartsWith(r1, ") AND (")
    requires ReadExpression(body) == Some((r, r2)) && StartsWith(r2, ")") && r2[1..] == rest
    ensures ReadJunction(l, r1) == Some((if isAnd then Ast.And(l, r) else Ast.Or(l, r), rest))
  {
  }

  // ------------------------------------------------------------ quoting as written

  /** Without a backslash in the text, escaping only the quotes is enough. */
  lemma {:induction false} QuoteStringEscapes(s: string)
    requires '\\' !in s
    ensures Replace(s, "'", "\\'") == SearchQuery.Escaped(s)
    decreases |s|
  {
    if s != [] {
      QuoteStringEscapes(s[1..]);
      SearchQuery.ReplaceCons(s[0], s[1..], '\'', "\\'");
      assert [s[0]] + s[1..] == s;
    }
  }

  /** `quote_string` as written reads back correctly for text without a backslash. */
  lemma QuoteStringNoBackslash(s: string, rest: string)
    requires '\\' !in s
    ensures SearchQuery.ReadLiteral(QuoteString(s)[1..] + rest) == Some((s, rest))
  {
    QuoteStringEscapes(s);
    SearchQuery.EscapedReads(s, rest);
    assert QuoteString(s)[1..] + rest == SearchQuery.Escaped(s) + "'" + rest;
  }

  /** The text `\'` quoted as written becomes `'\\''`: the backslash escapes the backslash
      that was meant to escape the quote, the literal closes after one character, and the
      last quote is left over in the statement. */
  lemma QuoteStringBreaksOut()
    ensures QuoteString("\\'") == "'\\\\''"
    ensures SearchQuery.ReadLiteral(QuoteString("\\'")[1..]) == Some(("\\", "'"))
  {
    SearchQuery.ReplaceCons('\\', "'", '\'', "\\'");
    SearchQuery.ReplaceCons('\'', [], '\'', "\\'");
    assert Replace([], "'", "\\'") == [];
    assert Replace("\\'", "'", "\\'") == "\\\\'";
    var t := "\\\\''";
    assert QuoteString("\\'")[1..] == t;
    assert SearchQuery.ReadLiteral("''") == Some(([], "'"));
    assert t[0] == '\\' && t[1] == '\\' && t[2..] == "''";
    assert SearchQuery.ReadLiteral(t[2..]) == Some(([], "'"));
    assert [t[1]] + [] == "\\";
  }

  /** The same break-out in a compiled filter: containment of the text `\'` compiles to a
      condition that reads back as containment of a lone backslash followed by a stray
      quote, so the statement no longer means the filter. */
  lemma ContainsBreaksOut(rfc: Rfc3339, ftoa: FloatText)
    ensures CompileExpression(Ast.Contains("f", "\\'"), rfc, ftoa) == "f ~ '\\\\''"
    ensures ReadExpression(CompileExpression(Ast.Contains("f", "\\'"), rfc, ftoa)) == Some((Ast.Contains("f", "\\"), "'"))
  {
    QuoteStringBreaksOut();
    var t := "f ~ '\\\\''";
    var after := " ~ '\\\\''";
    assert t == "f" + after;
    FieldRunOf("f", after);
    assert !StartsWith(after, " = ") by { assert after[1] == '~'; }
    assert StartsWith(after, " ~ '") && after[4..] == QuoteString("\\'")[1..];
    LeafStep("f", t, []);
    assert t + [] == t;
  }

  /** The corrected quoting reads back as the text for every text, and the literal ends
      where the quoted text does. */
  lemma QuoteReadsBack(s: string, rest: string)
    ensures SearchQuery.ReadLiteral(Quote(s)[1..] + rest) == Some((s, rest))
  {
    SearchQuery.SanitizeReadsBack(s, rest);
    assert Quote(s)[1..] + rest == SearchQuery.Sanitize(s) + "'" + rest;
  }
}
