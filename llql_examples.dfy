/** The documented LLQL example (server/src/query/llql.rs): a JSON body that selects Audio
    recordings made while a YouTube page was open and while "3Blue1Brown" was on screen. */
module LlqlExamples {
  import opened Wrappers
  import opened Time
  import opened Llql
  import Text
  import Ast

  function Canonical(window: string): LlqlQuery {
    LlqlQuery(Modality("Audio"),
      And([During(Modality("Browser"), Contains("url", "youtube"), window),
           During(Modality("Ocr"), Contains("text", "3Blue1Brown"), window)]))
  }

  function CanonicalAst(window: Span): Ast.Query {
    Ast.Query(Ast.Modality("Audio"),
      Ast.And(Ast.During(Ast.Modality("Browser"), Ast.Contains("url", "youtube"), window),
              Ast.During(Ast.Modality("Ocr"), Ast.Contains("text", "3Blue1Brown"), window)))
  }

  /** Submitted with the `llql:` prefix and a "30s" window, the canonical query becomes an
      AND of the two DURING terms over the Audio target. */
  lemma CanonicalExample(body: string, json: JsonParser, parse: Rfc3339Parser)
    requires json(Text.Trim(body)) == Ok(Canonical("30s"))
    ensures TryParseLlql(["llql:" + body], json, parse) == Ok(Some(CanonicalAst(Seconds(30))))
  {
    DurationSecondsExample();
    CanonicalWindow(body, "30s", Seconds(30), json, parse);
  }

  /** The same for any window that parses. */
  lemma CanonicalWindow(body: string, w: string, d: Span, json: JsonParser, parse: Rfc3339Parser)
    requires json(Text.Trim(body)) == Ok(Canonical(w)) && ParseDuration(w) == Ok(d)
    ensures TryParseLlql(["llql:" + body], json, parse) == Ok(Some(CanonicalAst(d)))
  {
    var f := Canonical(w).filter;
    ConvertDuring(f.terms[0], d, parse);
    ConvertDuring(f.terms[1], d, parse);
    assert Converted(f, parse) ==
           [Ok(CanonicalAst(d).filter.left), Ok(CanonicalAst(d).filter.right)];
    assert FoldResults(Converted(f, parse), true) == Ok(CanonicalAst(d).filter);
    TryParseLlqlDecodes(body, "llql:", json, parse);
  }

  /** A DURING term over a text-contains predicate, whose window parses. */
  lemma ConvertDuring(e: Expr, d: Span, parse: Rfc3339Parser)
    requires e.During? && e.condition.Contains? && ParseDuration(e.window) == Ok(d)
    ensures Convert(e, parse) ==
              Ok(Ast.During(SelectorToAst(e.stream), Ast.Contains(e.condition.field, e.condition.text), d))
  {
    ConvertDuringTerm(e, parse);
    ConvertContainsTerm(e.condition, parse);
  }

  lemma ConvertDuringTerm(e: Expr, parse: Rfc3339Parser)
    requires e.During?
    ensures Convert(e, parse) == Windowed(DuringOp, e.stream, Convert(e.condition, parse), ParseDuration(e.window))
  {
  }

  lemma ConvertContainsTerm(e: Expr, parse: Rfc3339Parser)
    requires e.Contains?
    ensures Convert(e, parse) == Ok(Ast.Contains(e.field, e.text))
  {
  }
}
