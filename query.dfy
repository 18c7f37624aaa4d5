/** The plain search path of the server (server/src/query.rs): each searched origin's table
    is queried with a SurrealQL statement built from the request's time ranges and text
    terms, the returned ids are parsed into frame keys, and the keys are post-filtered by
    the requested return origins. The database is a parameter: it maps a statement to the
    list of id strings it returns, or to its error text. */
module SearchQuery {
  import opened Wrappers
  import opened Text
  import opened Sorting
  import opened Time
  import opened Origin
  import opened Uuid
  import opened Errors

  datatype Timerange = Timerange(start: Option<ProtoTimestamp>, end: Option<ProtoTimestamp>)

  /** The fields of the `Query` request that the search reads (the embeddings are unused). */
  datatype Query = Query(searchOrigins: seq<string>, returnOrigins: seq<string>,
                         timeRanges: seq<Timerange>, text: seq<string>)

  /** chrono's `to_rfc3339`. */
  type Rfc3339 = Instant -> string

  /** The database: a statement's returned id strings, or the error text. */
  type Database = string -> Result<seq<string>, string>

  // ---------------------------------------------------------------- escaping

  /** How one character is written inside a single-quoted SurrealQL literal. */
  function EscapeChar(c: char): string {
    if c == '\\' then "\\\\" else if c == '\'' then "\\'" else [c]
  }

  function Escaped(s: string): string
    decreases |s|
  {
    if s == [] then [] else EscapeChar(s[0]) + Escaped(s[1..])
  }

  /** `sanitize_surql_string`: backslashes doubled first, then quotes escaped. */
  function Sanitize(s: string): string {
    Replace(Replace(s, "\\", "\\\\"), "'", "\\'")
  }

  /** How SurrealQL reads a single-quoted literal from the text after its opening quote: a
      backslash takes the next character literally, and an unescaped quote ends it. The
      result is the literal's value and the text after the closing quote, or None when the
      literal is never closed. */
  function ReadLiteral(t: string): Option<(string, string)>
    decreases |t|
  {
    if t == [] then None
    else if t[0] == '\'' then Some(([], t[1..]))
    else if t[0] == '\\' then
      if |t| < 2 then None
      else
        match ReadLiteral(t[2..])
        case None => None
        case Some((v, rest)) => Some(([t[1]] + v, rest))
    else
      match ReadLiteral(t[1..])
      case None => None
      case Some((v, rest)) => Some(([t[0]] + v, rest))
  }

  /** Replacing a single character rewrites the first character on its own. */
  lemma ReplaceCons(x: char, t: string, c: char, rep: string)
    ensures Replace([x] + t, [c], rep) == (if x == c then rep else [x]) + Replace(t, [c], rep)
  {
    assert ([x] + t)[..1] == [x] && ([x] + t)[1..] == t;
  }

  lemma SanitizeCons(x: char, t: string)
    ensures Sanitize([x] + t) == EscapeChar(x) + Sanitize(t)
  {
    var inner := Replace(t, "\\", "\\\\");
    var e1 := if x == '\\' then "\\\\" else [x];
    ReplaceCons(x, t, '\\', "\\\\");
    ReplaceCharAppend(e1, inner, '\'', "\\'");
    if x == '\\' {
      ReplaceCons('\\', "\\", '\'', "\\'");
      ReplaceCons('\\', [], '\'', "\\'");
    } else {
      ReplaceCons(x, [], '\'', "\\'");
    }
  }

  /** The two chained replacements escape each character on its own. */
  lemma {:induction false} SanitizeEscapes(s: string)
    ensures Sanitize(s) == Escaped(s)
    decreases |s|
  {
    if s != [] {
      SanitizeEscapes(s[1..]);
      SanitizeCons(s[0], s[1..]);
      assert [s[0]] + s[1..] == s;
    }
  }

  /** An escaped character is read back as that character, whatever follows it. */
  lemma ReadEscapeChar(c: char, tail: string, v: string, rest: string)
    requires ReadLiteral(tail) == Some((v, rest))
    ensures ReadLiteral(EscapeChar(c) + tail) == Some(([c] + v, rest))
  {
    var t := EscapeChar(c) + tail;
    if c == '\\' || c == '\'' {
      assert t[0] == '\\' && t[1] == c && t[2..] == tail;
    } else {
      assert t[0] == c && t[1..] == tail;
    }
  }

  lemma {:induction false} EscapedReads(s: string, rest: string)
    ensures ReadLiteral(Escaped(s) + "'" + rest) == Some((s, rest))
    decreases |s|
  {
    if s == [] {
      assert Escaped(s) + "'" + rest == "'" + rest;
    } else {
      var tail := Escaped(s[1..]) + "'" + rest;
      EscapedReads(s[1..], rest);
      ReadEscapeChar(s[0], tail, s[1..], rest);
      assert Escaped(s) + "'" + rest == EscapeChar(s[0]) + tail;
      assert [s[0]] + s[1..] == s;
    }
  }

  /** A sanitised term placed between quotes reads back as exactly the term, and the
      literal ends at the closing quote, so the text after it is untouched. */
  lemma SanitizeReadsBack(s: string, rest: string)
    ensures ReadLiteral(Sanitize(s) + "'" + rest) == Some((s, rest))
  {
    SanitizeEscapes(s);
    EscapedReads(s, rest);
  }

  // ---------------------------------------------------------------- clauses

  /** `text_search_fields`, by modality name. */
  function TextSearchFields(modality: string): (fs: seq<string>)
    ensures modality == "Browser" ==> fs == ["url", "title"]
    ensures modality == "Ocr" ==> fs == ["text"]
    ensures modality != "Browser" && modality != "Ocr" ==> fs == []
  {
    if modality == "Browser" then ["url", "title"]
    else if modality == "Ocr" then ["text"]
    else []
  }

  /** `proto_ts_to_chrono`: `nanos as u32`, then `from_timestamp`. */
  function ProtoInstant(ts: ProtoTimestamp): Option<Instant> {
    FromTimestamp(ts.seconds, I32ToU32(ts.nanos))
  }

  function Bound(ts: Option<ProtoTimestamp>): Option<Instant> {
    if ts.None? then None else ProtoInstant(ts.value)
  }

  function Lower(a: string): string { "timestamp >= '" + a + "'" }

  function Upper(b: string): string { "timestamp <= '" + b + "'" }

  /** One range's clause: both bounds inclusive; a range with neither usable bound has none. */
  function RangeClause(tr: Timerange, rfc: Rfc3339): Option<string> {
    match (Bound(tr.start), Bound(tr.end))
    case (Some(s), Some(e)) => Some("(" + Lower(rfc(s)) + " AND " + Upper(rfc(e)) + ")")
    case (Some(s), None) => Some("(" + Lower(rfc(s)) + ")")
    case (None, Some(e)) => Some("(" + Upper(rfc(e)) + ")")
    case (None, None) => None
  }

  /** The `filter_map` of the ranges to their clauses, in order. */
  function RangeClauses(ranges: seq<Timerange>, rfc: Rfc3339): seq<string>
    decreases |ranges|
  {
    if ranges == [] then []
    else
      (match RangeClause(ranges[0], rfc) case Some(c) => [c] case None => []) +
      RangeClauses(ranges[1..], rfc)
  }

  /** `build_time_clause`. */
  function BuildTimeClause(ranges: seq<Timerange>, rfc: Rfc3339): string {
    if ranges == [] then "true"
    else
      var clauses := RangeClauses(ranges, rfc);
      if clauses == [] then "true" else "(" + Join(clauses, " OR ") + ")"
  }

  lemma {:induction false} RangeClausesEmpty(ranges: seq<Timerange>, rfc: Rfc3339)
    ensures RangeClauses(ranges, rfc) == [] <==>
              forall i :: 0 <= i < |ranges| ==> RangeClause(ranges[i], rfc).None?
    decreases |ranges|
  {
    if ranges != [] {
      RangeClausesEmpty(ranges[1..], rfc);
      assert forall i :: 1 <= i < |ranges| ==> ranges[i] == ranges[1..][i - 1];
    }
  }

  /** The time clause is the trivial "true" exactly when no range has a usable bound
      (in particular when there are no ranges); otherwise it is the OR of the clauses of
      the usable ranges, each of which lets through the instants between its bounds. */
  lemma TimeClauseTrue(ranges: seq<Timerange>, rfc: Rfc3339)
    ensures BuildTimeClause(ranges, rfc) == "true" <==>
              forall i :: 0 <= i < |ranges| ==> RangeClause(ranges[i], rfc).None?
    ensures BuildTimeClause(ranges, rfc) != "true" ==>
              BuildTimeClause(ranges, rfc) == "(" + Join(RangeClauses(ranges, rfc), " OR ") + ")"
  {
    RangeClausesEmpty(ranges, rfc);
    if RangeClauses(ranges, rfc) != [] {
      assert BuildTimeClause(ranges, rfc)[0] == '(';
    }
  }

  /** A range clause exists exactly when one of its ends converts; a range with both ends
      compares inclusively on both sides. */
  lemma RangeClauseUsable(tr: Timerange, rfc: Rfc3339)
    ensures RangeClause(tr, rfc).Some? <==> Bound(tr.start).Some? || Bound(tr.end).Some?
    ensures Bound(tr.start).Some? && Bound(tr.end).Some? ==>
              Contains(RangeClause(tr, rfc).value, Lower(rfc(Bound(tr.start).value))) &&
              Contains(RangeClause(tr, rfc).value, Upper(rfc(Bound(tr.end).value)))
  {
    if Bound(tr.start).Some? && Bound(tr.end).Some? {
      BothBounds(rfc(Bound(tr.start).value), rfc(Bound(tr.end).value));
    }
  }

  lemma BothBounds(a: string, b: string)
    ensures Contains("(" + Lower(a) + " AND " + Upper(b) + ")", Lower(a))
    ensures Contains("(" + Lower(a) + " AND " + Upper(b) + ")", Upper(b))
  {
    var x, y := Lower(a), Upper(b);
    ContainsAt("(", x, " AND " + y + ")");
    assert "(" + x + (" AND " + y + ")") == "(" + x + " AND " + y + ")";
    ContainsAt("(" + x + " AND ", y, ")");
  }

  /** A nanosecond field of -1 becomes 4294967295 as `u32`, which no instant accepts: such
      a bound is dropped rather than read as one nanosecond before the second. */
  lemma NegativeNanosDropped(secs: int)
    ensures ProtoInstant(ProtoTimestamp(secs, -1)).None?
  {
  }

  /** The check of one term against one field, case-insensitive on both sides. */
  function FieldCheck(field: string, term: string): string {
    "string::contains(string::lowercase(" + field + "), string::lowercase('" + Sanitize(term) + "'))"
  }

  function TermClause(term: string, fields: seq<string>): string {
    "(" + Join(Map(fields, f => FieldCheck(f, term)), " OR ") + ")"
  }

  /** `build_text_clause`. */
  function BuildTextClause(terms: seq<string>, modality: string): string {
    if terms == [] then "true"
    else
      var fields := TextSearchFields(modality);
      if fields == [] then "false"
      else "(" + Join(Map(terms, t => TermClause(t, fields)), " OR ") + ")"
  }

  /** No terms: "true"; terms but a modality without text fields: "false"; otherwise the
      clause checks every term against every field, so a record matches when any term
      occurs in any of its fields. */
  lemma TextClauseChecks(terms: seq<string>, modality: string)
    ensures BuildTextClause(terms, modality) == "true" <==> terms == []
    ensures BuildTextClause(terms, modality) == "false" <==>
              terms != [] && TextSearchFields(modality) == []
    ensures forall i, j :: 0 <= i < |terms| && 0 <= j < |TextSearchFields(modality)| ==>
              Contains(BuildTextClause(terms, modality), FieldCheck(TextSearchFields(modality)[j], terms[i]))
  {
    var fields := TextSearchFields(modality);
    if terms != [] && fields != [] {
      var clause := BuildTextClause(terms, modality);
      assert clause[0] == '(';
      forall i, j | 0 <= i < |terms| && 0 <= j < |fields|
        ensures Contains(clause, FieldCheck(fields[j], terms[i]))
      {
        var checks := Map(fields, f => FieldCheck(f, terms[i]));
        var clauses := Map(terms, t => TermClause(t, fields));
        var fc := FieldCheck(fields[j], terms[i]);
        var tc := TermClause(terms[i], fields);
        JoinContains(checks, " OR ", j);
        ContainsAfter("(", Join(checks, " OR "), fc);
        ContainsBefore("(" + Join(checks, " OR "), ")", fc);
        JoinContains(clauses, " OR ", i);
        ContainsTrans(Join(clauses, " OR "), tc, fc);
        ContainsAfter("(", Join(clauses, " OR "), fc);
        ContainsBefore("(" + Join(clauses, " OR "), ")", fc);
      }
    }
  }

  /** `build_query_sql`. */
  function BuildQuerySql(table: string, q: Query, modality: string, rfc: Rfc3339): string {
    SelectPrefix() + table + "`" + Condition(q, modality, rfc)
  }

  function Condition(q: Query, modality: string, rfc: Rfc3339): string {
    " WHERE " + BuildTimeClause(q.timeRanges, rfc) + " AND " + BuildTextClause(q.text, modality)
  }

  function SelectPrefix(): string { "SELECT VALUE record::id(id) as uuid FROM `" }

  /** The table a statement selects from: the text between the backquotes. */
  function SqlTable(sql: string): Option<string> {
    Quoted(sql, SelectPrefix())
  }

  /** The text after the prefix and up to the next backquote. */
  function Quoted(sql: string, prefix: string): Option<string> {
    match StripPrefix(sql, prefix)
    case None => None
    case Some(rest) =>
      match SplitOnce(rest, '`')
      case None => None
      case Some((table, _)) => Some(table)
  }

  lemma QuotedOf(p: string, table: string, cond: string)
    requires '`' !in table
    ensures Quoted(p + table + "`" + cond, p) == Some(table)
  {
    var sql := p + table + "`" + cond;
    assert sql == p + (table + ['`'] + cond);
    assert sql[|p|..] == table + ['`'] + cond;
    SplitOnceAt(table, '`', cond);
  }

  /** The statement names the table it was built for (when the name has no backquote),
      and its condition is the time clause AND the text clause. */
  lemma QuerySqlTable(table: string, q: Query, modality: string, rfc: Rfc3339)
    requires '`' !in table
    ensures SqlTable(BuildQuerySql(table, q, modality, rfc)) == Some(table)
    ensures EndsWith(BuildQuerySql(table, q, modality, rfc), Condition(q, modality, rfc))
    ensures StartsWith(Condition(q, modality, rfc), " WHERE ")
  {
    SqlShape(table, Condition(q, modality, rfc));
    WhereShape(BuildTimeClause(q.timeRanges, rfc), BuildTextClause(q.text, modality));
  }

  lemma SqlShape(table: string, cond: string)
    requires '`' !in table
    ensures SqlTable(SelectPrefix() + table + "`" + cond) == Some(table)
    ensures EndsWith(SelectPrefix() + table + "`" + cond, cond)
  {
    var sql := SelectPrefix() + table + "`" + cond;
    QuotedOf(SelectPrefix(), table, cond);
    assert sql[|sql| - |cond|..] == cond;
  }

  lemma WhereShape(time: string, text: string)
    ensures StartsWith(" WHERE " + time + " AND " + text, " WHERE ")
  {
    var c := " WHERE " + time + " AND " + text;
    assert c[..7] == " WHERE ";
  }

  // ---------------------------------------------------------------- execution

  /** The origins searched: all of them, or those whose display form is requested. */
  function SearchedOrigins(all: seq<DataOrigin>, q: Query): (r: seq<DataOrigin>)
    ensures forall i :: 0 <= i < |r| ==> r[i] in all
  {
    if q.searchOrigins == [] then all
    else FilterIn(all, q.searchOrigins)
  }

  function FilterIn(os: seq<DataOrigin>, names: seq<string>): (r: seq<DataOrigin>)
    ensures forall i :: 0 <= i < |r| ==> r[i] in os && Display(r[i]) in names
    ensures forall o :: o in os && Display(o) in names ==> o in r
    decreases |os|
  {
    if os == [] then []
    else (if Display(os[0]) in names then [os[0]] else []) + FilterIn(os[1..], names)
  }

  /** A text query skips an origin whose modality has no text fields. */
  predicate Skipped(o: DataOrigin, q: Query) {
    q.text != [] && TextSearchFields(o.modalityName) == []
  }

  function OriginSql(o: DataOrigin, q: Query, rfc: Rfc3339): string {
    BuildQuerySql(TableName(o), q, o.modalityName, rfc)
  }

  /** The keys of the returned ids that parse as UUIDs, in order. */
  function OriginKeys(o: DataOrigin, ids: seq<string>): (keys: seq<FrameKey>)
    ensures |keys| <= |ids|
    decreases |ids|
  {
    if ids == [] then []
    else
      OriginKeys(o, ids[..|ids| - 1]) +
      (match Parse(Last(ids)) case Some(u) => [FrameKey(u, o)] case None => [])
  }

  /** The keys one origin contributes when its statement succeeds. */
  function Yields(o: DataOrigin, q: Query, db: Database, rfc: Rfc3339): seq<FrameKey> {
    if Skipped(o, q) then []
    else match db(OriginSql(o, q, rfc)) case Ok(ids) => OriginKeys(o, ids) case Err(_) => []
  }

  /** The loop over the searched origins; the first database error ends it. */
  function Gather(os: seq<DataOrigin>, q: Query, db: Database, rfc: Rfc3339): Result<seq<FrameKey>, LifelogError>
    decreases |os|
  {
    if os == [] then Ok([])
    else
      match Gather(os[..|os| - 1], q, db, rfc)
      case Err(e) => Err(e)
      case Ok(acc) =>
        var o := Last(os);
        if Skipped(o, q) then Ok(acc)
        else
          match db(OriginSql(o, q, rfc))
          case Err(e) => Err(Database(e))
          case Ok(ids) => Ok(acc + OriginKeys(o, ids))
  }

  function ReturnFilter(keys: seq<FrameKey>, q: Query): seq<FrameKey>
    decreases |keys|
  {
    if q.returnOrigins == [] then keys
    else if keys == [] then []
    else (if Display(keys[0].origin) in q.returnOrigins then [keys[0]] else []) + ReturnFilter(keys[1..], q)
  }

  /** `execute_query`. */
  function ExecuteQuery(q: Query, all: seq<DataOrigin>, db: Database, rfc: Rfc3339): Result<seq<FrameKey>, LifelogError> {
    match Gather(SearchedOrigins(all, q), q, db, rfc)
    case Err(e) => Err(e)
    case Ok(keys) => Ok(ReturnFilter(keys, q))
  }

  /** `execute_query` as the source runs it: a loop over the searched origins that pushes
      the parsed keys of each onto `all_keys`, then the post-filter. */
  method RunQuery(q: Query, all: seq<DataOrigin>, db: Database, rfc: Rfc3339)
    returns (r: Result<seq<FrameKey>, LifelogError>)
    ensures r == ExecuteQuery(q, all, db, rfc)
  {
    var os := SearchedOrigins(all, q);
    var allKeys: seq<FrameKey> := [];
    var i := 0;
    while i < |os|
      invariant 0 <= i <= |os|
      invariant Gather(os[..i], q, db, rfc) == Ok(allKeys)
    {
      GatherNext(os, i, allKeys, q, db, rfc);
      var o := os[i];
      if Skipped(o, q) {
        i := i + 1;
        continue;
      }
      var response := db(OriginSql(o, q, rfc));
      if response.Err? {
        GatherErrStays(os, i + 1, q, db, rfc);
        return Err(Database(response.error));
      }
      var keys := ParseKeys(o, response.value);
      allKeys := allKeys + keys;
      i := i + 1;
    }
    assert os[..i] == os;
    r := Ok(ReturnFilter(allKeys, q));
  }

  /** The inner loop: a key for each returned id that parses as a UUID. */
  method ParseKeys(o: DataOrigin, ids: seq<string>) returns (keys: seq<FrameKey>)
    ensures keys == OriginKeys(o, ids)
  {
    keys := [];
    var j := 0;
    while j < |ids|
      invariant 0 <= j <= |ids|
      invariant keys == OriginKeys(o, ids[..j])
    {
      assert ids[..j + 1][..j] == ids[..j];
      var parsed := Parse(ids[j]);
      if parsed.Some? {
        keys := keys + [FrameKey(parsed.value, o)];
      }
      j := j + 1;
    }
    assert ids[..j] == ids;
  }

  lemma GatherNext(os: seq<DataOrigin>, i: nat, acc: seq<FrameKey>, q: Query, db: Database, rfc: Rfc3339)
    requires i < |os| && Gather(os[..i], q, db, rfc) == Ok(acc)
    ensures Gather(os[..i + 1], q, db, rfc) ==
              if Skipped(os[i], q) then Ok(acc)
              else match db(OriginSql(os[i], q, rfc))
                   case Err(e) => Err(Database(e))
                   case Ok(ids) => Ok(acc + OriginKeys(os[i], ids))
  {
    assert os[..i + 1][..i] == os[..i];
  }

  /** A database error at an origin is the result of the whole loop. */
  lemma {:induction false} GatherErrStays(os: seq<DataOrigin>, k: nat, q: Query, db: Database, rfc: Rfc3339)
    requires 1 <= k <= |os| && Gather(os[..k], q, db, rfc).Err?
    ensures Gather(os, q, db, rfc) == Gather(os[..k], q, db, rfc)
    decreases |os|
  {
    if k < |os| {
      assert os[..|os| - 1][..k] == os[..k];
      GatherErrStays(os[..|os| - 1], k, q, db, rfc);
    } else {
      assert os[..k] == os;
    }
  }

  /** The keys of an origin are that origin's, one per returned id that parses. */
  lemma {:induction false} OriginKeysMembers(o: DataOrigin, ids: seq<string>, k: FrameKey)
    ensures k in OriginKeys(o, ids) <==>
              k.origin == o && exists i :: 0 <= i < |ids| && Parse(ids[i]) == Some(k.uuid)
    decreases |ids|
  {
    if ids != [] {
      var front := ids[..|ids| - 1];
      OriginKeysMembers(o, front, k);
      if k.origin == o && exists i :: 0 <= i < |ids| && Parse(ids[i]) == Some(k.uuid) {
        var i :| 0 <= i < |ids| && Parse(ids[i]) == Some(k.uuid);
        if i < |front| {
          assert front[i] == ids[i];
        }
      }
      if exists i :: 0 <= i < |front| && Parse(front[i]) == Some(k.uuid) {
        var i :| 0 <= i < |front| && Parse(front[i]) == Some(k.uuid);
        assert ids[i] == front[i];
      }
    }
  }

  lemma GatherStep(os: seq<DataOrigin>, q: Query, db: Database, rfc: Rfc3339)
    requires os != [] && Gather(os, q, db, rfc).Ok?
    ensures Gather(os[..|os| - 1], q, db, rfc).Ok?
    ensures Gather(os, q, db, rfc).value == Gather(os[..|os| - 1], q, db, rfc).value + Yields(Last(os), q, db, rfc)
  {
  }

  function YieldsOf(q: Query, db: Database, rfc: Rfc3339): DataOrigin -> seq<FrameKey> {
    o => Yields(o, q, db, rfc)
  }

  /** A successful loop collects the keys of every origin in order. */
  lemma {:induction false} GatherYields(os: seq<DataOrigin>, q: Query, db: Database, rfc: Rfc3339)
    requires Gather(os, q, db, rfc).Ok?
    ensures Gather(os, q, db, rfc).value == Flatten(Map(os, YieldsOf(q, db, rfc)))
    decreases |os|
  {
    if os != [] {
      var f := YieldsOf(q, db, rfc);
      var front := os[..|os| - 1];
      GatherStep(os, q, db, rfc);
      GatherYields(front, q, db, rfc);
      assert Map(os, f)[..|os| - 1] == Map(front, f);
    }
  }

  lemma {:induction false} ReturnFilterMembers(keys: seq<FrameKey>, q: Query, k: FrameKey)
    ensures k in ReturnFilter(keys, q) <==>
              k in keys && (q.returnOrigins == [] || Display(k.origin) in q.returnOrigins)
    decreases |keys|
  {
    if q.returnOrigins != [] && keys != [] {
      ReturnFilterMembers(keys[1..], q, k);
      assert keys == [keys[0]] + keys[1..];
    }
  }

  /** What a search returns: a key is in the result exactly when its origin was searched
      (every origin, or one named in `search_origins`), was not skipped for lacking text
      fields, passes the `return_origins` post-filter, and one of the ids the database
      returned for that origin's statement parses to the key's UUID. Failures are
      database errors. */
  lemma ExecuteQueryMembers(q: Query, all: seq<DataOrigin>, db: Database, rfc: Rfc3339, k: FrameKey)
    ensures ExecuteQuery(q, all, db, rfc).Err? ==> ExecuteQuery(q, all, db, rfc).error.Database?
    ensures ExecuteQuery(q, all, db, rfc).Ok? ==>
              (k in ExecuteQuery(q, all, db, rfc).value <==>
                 k.origin in all &&
                 (q.searchOrigins == [] || Display(k.origin) in q.searchOrigins) &&
                 !Skipped(k.origin, q) &&
                 (q.returnOrigins == [] || Display(k.origin) in q.returnOrigins) &&
                 db(OriginSql(k.origin, q, rfc)).Ok? &&
                 exists i :: 0 <= i < |db(OriginSql(k.origin, q, rfc)).value| &&
                             Parse(db(OriginSql(k.origin, q, rfc)).value[i]) == Some(k.uuid))
  {
    var os := SearchedOrigins(all, q);
    GatherErrors(os, q, db, rfc);
    if Gather(os, q, db, rfc).Ok? {
      GatherMembers(os, q, db, rfc, k);
      ReturnFilterMembers(Gather(os, q, db, rfc).value, q, k);
    }
  }

  /** A key is gathered exactly when its origin is one of those searched and it is among
      the keys that origin yields. */
  lemma GatherMembers(os: seq<DataOrigin>, q: Query, db: Database, rfc: Rfc3339, k: FrameKey)
    requires Gather(os, q, db, rfc).Ok?
    ensures k in Gather(os, q, db, rfc).value <==>
              k.origin in os && !Skipped(k.origin, q) && db(OriginSql(k.origin, q, rfc)).Ok? &&
              exists i :: 0 <= i < |db(OriginSql(k.origin, q, rfc)).value| &&
                          Parse(db(OriginSql(k.origin, q, rfc)).value[i]) == Some(k.uuid)
  {
    var f := YieldsOf(q, db, rfc);
    GatherYields(os, q, db, rfc);
    FlattenMembers(Map(os, f), k);
    YieldsMembers(k.origin, q, db, rfc, k);
    if exists j :: 0 <= j < |os| && k in Map(os, f)[j] {
      var j :| 0 <= j < |os| && k in Map(os, f)[j];
      YieldsMembers(os[j], q, db, rfc, k);
    }
    if k.origin in os && k in Yields(k.origin, q, db, rfc) {
      var j :| 0 <= j < |os| && os[j] == k.origin;
      assert k in Map(os, f)[j];
    }
  }

  /** The keys one origin yields are its own, one per id that parses. */
  lemma YieldsMembers(o: DataOrigin, q: Query, db: Database, rfc: Rfc3339, k: FrameKey)
    ensures k in Yields(o, q, db, rfc) <==>
              k.origin == o && !Skipped(o, q) && db(OriginSql(o, q, rfc)).Ok? &&
              exists i :: 0 <= i < |db(OriginSql(o, q, rfc)).value| &&
                          Parse(db(OriginSql(o, q, rfc)).value[i]) == Some(k.uuid)
  {
    if !Skipped(o, q) && db(OriginSql(o, q, rfc)).Ok? {
      OriginKeysMembers(o, db(OriginSql(o, q, rfc)).value, k);
    }
  }

  lemma {:induction false} GatherErrors(os: seq<DataOrigin>, q: Query, db: Database, rfc: Rfc3339)
    ensures Gather(os, q, db, rfc).Err? ==> Gather(os, q, db, rfc).error.Database?
    decreases |os|
  {
    if os != [] {
      GatherErrors(os[..|os| - 1], q, db, rfc);
    }
  }
}
