/** Key retrieval from the database (server/src/data_retrieval.rs): the table-name guard
    that keeps a name from breaking out of the backquoted identifier, and the listing of
    keys recorded after an instant. `char::is_alphanumeric` follows the Unicode tables
    and is a parameter; the database is a function from a statement to its rows. */
module DataRetrieval {
  import opened Wrappers
  import opened Text
  import opened Time
  import opened Uuid
  import opened Origin
  import opened Errors
  import opened Decimal
  import SearchQuery

  /** Unicode's alphanumeric classes restricted to ASCII are the ASCII letters and digits. */
  ghost predicate AsciiFaithful(alphanumeric: char -> bool) {
    forall c: char :: c < 128 as char ==> (alphanumeric(c) <==> IsAsciiAlphanumeric(c))
  }

  predicate SafeChar(c: char, alphanumeric: char -> bool) {
    alphanumeric(c) || c == '_' || c == ':' || c == '-'
  }

  /** `validate_table_name`: the name unchanged when every character is alphanumeric,
      '_', ':' or '-', otherwise a database error naming it. */
  function ValidateTableName(name: string, alphanumeric: char -> bool): (r: Result<string, LifelogError>)
    ensures r.Ok? <==> forall i :: 0 <= i < |name| ==> SafeChar(name[i], alphanumeric)
    ensures r.Ok? ==> r.value == name
    ensures r.Err? ==> r.error == Database("invalid table name: " + name)
  {
    if forall i :: 0 <= i < |name| ==> SafeChar(name[i], alphanumeric) then Ok(name)
    else Err(Database("invalid table name: " + name))
  }

  /** An accepted name holds no backquote, quote, space or ';', so it cannot close the
      quoted identifier or start another statement; the empty name is accepted. */
  lemma AcceptedNameIsInert(name: string, alphanumeric: char -> bool)
    requires AsciiFaithful(alphanumeric)
    ensures ValidateTableName("", alphanumeric) == Ok("")
    ensures ValidateTableName(name, alphanumeric).Ok? ==>
              '`' !in name && '\'' !in name && ' ' !in name && ';' !in name
  {
    if ValidateTableName(name, alphanumeric).Ok? {
      forall i | 0 <= i < |name| ensures name[i] !in "`' ;" {
        assert SafeChar(name[i], alphanumeric);
      }
    }
  }

  /** How the statement can fail: in `query` or in `take(0)`. */
  datatype DbFailure = QueryFailed(message: string) | TakeFailed(message: string)

  type Database = string -> Result<seq<string>, DbFailure>

  function KeysAfterSql(table: string, afterText: string, limit: nat): string {
    "SELECT VALUE record::id(id) as uuid FROM `" + table + "` WHERE timestamp > '" + afterText +
    "' ORDER BY timestamp ASC LIMIT " + NatToString(limit)
  }

  /** `get_keys_after_timestamp`: the table name is checked before any statement is built;
      the returned ids that parse as UUIDs become keys of the origin, in order. */
  function KeysAfter(origin: DataOrigin, after: Instant, limit: nat, db: Database,
                     rfc3339: Instant -> string, alphanumeric: char -> bool)
    : Result<seq<FrameKey>, LifelogError>
  {
    match ValidateTableName(TableName(origin), alphanumeric)
    case Err(e) => Err(e)
    case Ok(table) =>
      match db(KeysAfterSql(table, rfc3339(after), limit))
      case Err(QueryFailed(m)) => Err(Database("query failed: " + m))
      case Err(TakeFailed(m)) => Err(Database("take(0) failed: " + m))
      case Ok(ids) => Ok(SearchQuery.OriginKeys(origin, ids))
  }

  /** An unsafe table name is refused without a statement being sent; otherwise the keys
      are exactly the origin's keys of the returned ids that parse, and a failing
      statement is a database error. */
  lemma KeysAfterSpec(origin: DataOrigin, after: Instant, limit: nat, db: Database,
                      rfc3339: Instant -> string, alphanumeric: char -> bool, k: FrameKey)
    ensures ValidateTableName(TableName(origin), alphanumeric).Err? ==>
              KeysAfter(origin, after, limit, db, rfc3339, alphanumeric) ==
              Err(Database("invalid table name: " + TableName(origin)))
    ensures var r := KeysAfter(origin, after, limit, db, rfc3339, alphanumeric);
            r.Err? ==> r.error.Database?
    ensures var r := KeysAfter(origin, after, limit, db, rfc3339, alphanumeric);
            r.Ok? ==>
              var ids := db(KeysAfterSql(TableName(origin), rfc3339(after), limit)).value;
              |r.value| <= |ids| &&
              (k in r.value <==> k.origin == origin && exists i :: 0 <= i < |ids| && Parse(ids[i]) == Some(k.uuid))
  {
    var r := KeysAfter(origin, after, limit, db, rfc3339, alphanumeric);
    if r.Ok? {
      var ids := db(KeysAfterSql(TableName(origin), rfc3339(after), limit)).value;
      SearchQuery.OriginKeysMembers(origin, ids, k);
    }
  }
}
