/** The part of Spring's JdbcTemplate that the password-management service uses, as an
    abstract executor. The SQL text is never interpreted: a statement is named by the
    configuration property that holds it, every query and update is appended to a trace
    together with its positional parameters, and what the store answers is scripted by
    functions of the history issued so far and the call itself. Since the answers may depend
    on the whole history, any deterministic store fits this description. */
module Jdbc {

  /** A Java reference that may be null: `None` is null. */
  datatype Option<+T> = None | Some(value: T)

  /** The configured SQL statements, named after their configuration properties. */
  datatype Statement =
    | SqlQueryOldPassword
    | SqlChangePassword
    | SqlUnexpireAccount
    | SqlUpdateUserTimestamp
    | SqlFindEmail
    | SqlSecurityQuestions

  /** A positional parameter: a string, or a SQL timestamp given in milliseconds since the epoch. */
  datatype Param = Text(s: string) | Timestamp(millis: int)

  /** One call issued against the store. */
  datatype Call =
    | Query(statement: Statement, params: seq<Param>)
    | Update(statement: Statement, params: seq<Param>)

  /** One column of a result row: its name (the label the driver reports), and the string form
      of its value. */
  datatype Column = Column(name: string, value: string)

  /** A result row of `queryForList`: its columns in result-set order. Spring's
      `ColumnMapRowMapper` puts them one by one into a `LinkedCaseInsensitiveMap`, which `Get`
      models. */
  type Row = seq<Column>

  /** `c` in lower case, for the ASCII letters. */
  function LowerChar(c: char): char {
    if 'A' <= c <= 'Z' then (c as int + 32) as char else c
  }

  /** The two names are equal once both are put in lower case. */
  predicate EqualsIgnoreCase(a: string, b: string) {
    |a| == |b| && forall i :: 0 <= i < |a| ==> LowerChar(a[i]) == LowerChar(b[i])
  }

  /** `get(key)` on the case-insensitive row map; null when no column matches.
      `containsKey(key)` is `Get(row, key).Some?`. */
  function Get(row: Row, key: string): Option<string>
    decreases |row|
  {
    if row == [] then None
    else if EqualsIgnoreCase(row[|row| - 1].name, key) then Some(row[|row| - 1].value)
    else Get(row[..|row| - 1], key)
  }

  /** A key is found exactly when some column's name equals it ignoring case. Since a later
      `put` of a matching name replaces the earlier entry, the value found is that of the LAST
      matching column. */
  lemma {:induction false} GetLastMatch(row: Row, key: string)
    ensures Get(row, key).Some? <==> exists i :: 0 <= i < |row| && EqualsIgnoreCase(row[i].name, key)
    ensures Get(row, key).Some? ==>
              exists i :: 0 <= i < |row| && EqualsIgnoreCase(row[i].name, key)
                && row[i].value == Get(row, key).value
                && forall j :: i < j < |row| ==> !EqualsIgnoreCase(row[j].name, key)
    decreases |row|
  {
    if row != [] {
      var n := |row| - 1;
      GetLastMatch(row[..n], key);
      if !EqualsIgnoreCase(row[n].name, key) {
        forall i | 0 <= i < n && EqualsIgnoreCase(row[i].name, key)
          ensures EqualsIgnoreCase(row[..n][i].name, key)
        {
          assert row[..n][i] == row[i];
        }
        if Get(row, key).Some? {
          var i :| 0 <= i < n && EqualsIgnoreCase(row[..n][i].name, key)
                   && row[..n][i].value == Get(row, key).value
                   && forall j :: i < j < n ==> !EqualsIgnoreCase(row[..n][j].name, key);
          assert row[i] == row[..n][i];
        }
      }
    }
  }

  /** The call is parameterised with `id` as its last positional parameter: it is keyed by that account. */
  predicate KeyedBy(call: Call, id: string) {
    call.params != [] && call.params[|call.params| - 1] == Text(id)
  }

  class JdbcTemplate {
    /** Every query and update issued so far, oldest first. */
    var trace: seq<Call>
    /** The scalar a query returns, given the calls issued before it. */
    const scalarResult: (seq<Call>, Call) -> Option<string>
    /** The rows a list query returns, given the calls issued before it. */
    const rowsResult: (seq<Call>, Call) -> seq<Row>
    /** The affected-row count an update reports, given the calls issued before it. */
    const updateCount: (seq<Call>, Call) -> int

    constructor (scalarResult: (seq<Call>, Call) -> Option<string>,
                 rowsResult: (seq<Call>, Call) -> seq<Row>,
                 updateCount: (seq<Call>, Call) -> int)
      ensures trace == []
      ensures this.scalarResult == scalarResult && this.rowsResult == rowsResult
      ensures this.updateCount == updateCount
    {
      trace := [];
      this.scalarResult := scalarResult;
      this.rowsResult := rowsResult;
      this.updateCount := updateCount;
    }

    /** `queryForObject(sql, String.class, params...)`: a query for one string column of one row. */
    method QueryForObject(statement: Statement, params: seq<Param>) returns (value: Option<string>)
      modifies this
      ensures trace == old(trace) + [Query(statement, params)]
      ensures value == scalarResult(old(trace), Query(statement, params))
    {
      value := scalarResult(trace, Query(statement, params));
      trace := trace + [Query(statement, params)];
    }

    /** `queryForList(sql, params...)`: a query for any number of rows. */
    method QueryForList(statement: Statement, params: seq<Param>) returns (rows: seq<Row>)
      modifies this
      ensures trace == old(trace) + [Query(statement, params)]
      ensures rows == rowsResult(old(trace), Query(statement, params))
    {
      rows := rowsResult(trace, Query(statement, params));
      trace := trace + [Query(statement, params)];
    }

    /** `update(sql, params...)`: a data-changing statement; returns the affected-row count. */
    method Update(statement: Statement, params: seq<Param>) returns (count: int)
      modifies this
      ensures trace == old(trace) + [Call.Update(statement, params)]
      ensures count == updateCount(old(trace), Call.Update(statement, params))
    {
      count := updateCount(trace, Call.Update(statement, params));
      trace := trace + [Call.Update(statement, params)];
    }
  }
}
