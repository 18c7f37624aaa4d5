/** The typed query tree (server/src/query/ast.rs) shared by the LLQL front end and the
    planner. Instants and durations are integer nanoseconds; an `f64` is carried as its
    bit pattern, since only its foreign `to_string` ever looks at it. */
module Ast {
  import opened Time

  datatype StreamSelector = All | Modality(modality: string) | StreamId(streamId: string)

  datatype Value = String(s: string) | Int(i: int) | Float(bits: bv64) | Bool(b: bool)

  datatype Expression =
    | And(left: Expression, right: Expression)
    | Or(left: Expression, right: Expression)
    | Not(inner: Expression)
    | Eq(field: string, value: Value)
    | Contains(field: string, text: string)
    | TimeRange(start: Instant, end: Instant)
    | Within(stream: StreamSelector, condition: Expression, window: Span)
    | During(stream: StreamSelector, condition: Expression, window: Span)
    | Overlaps(stream: StreamSelector, condition: Expression, window: Span)

  datatype Query = Query(target: StreamSelector, filter: Expression)
}
