/** JdbcPasswordManagementService: password change with a reuse guard, email lookup, and
    security questions, against a store reached through configured SQL statements.
    The password encoder and the email validator are external: the service holds them as
    functions that the model does not interpret. */
module JdbcPasswordManagement {
  import opened Jdbc
  import opened LinkedHashMaps
  import opened SecurityQuestions

  /** Java 8's `Character.isWhitespace` (Unicode 6.2): the space, line and paragraph separators
      other than the no-break spaces U+00A0, U+2007 and U+202F, together with the controls
      U+0009 to U+000D and U+001C to U+001F. */
  predicate IsWhitespace(c: char) {
    || ('\t' <= c <= '\r')
    || ('\U{1C}' <= c <= ' ')
    || c == '\U{1680}' || c == '\U{180E}'
    || ('\U{2000}' <= c <= '\U{2006}') || ('\U{2008}' <= c <= '\U{200A}')
    || c == '\U{2028}' || c == '\U{2029}' || c == '\U{205F}' || c == '\U{3000}'
  }

  /** `StringUtils.isNotBlank`: not null, and some character is not whitespace. */
  predicate IsNotBlank(s: Option<string>) {
    s.Some? && exists i :: 0 <= i < |s.value| && !IsWhitespace(s.value[i])
  }

  /** What `findEmail` makes of the fetched value: the value itself when it is non-blank and
      valid, null otherwise. */
  function AcceptedEmail(fetched: Option<string>, isValid: string -> bool): (r: Option<string>)
    ensures r.Some? <==> IsNotBlank(fetched) && isValid(fetched.value)
    ensures r.Some? ==> r == fetched
  {
    if IsNotBlank(fetched) && isValid(fetched.value) then fetched else None
  }

  /** `Timestamp.valueOf(format(now))` with the pattern `yyyy-MM-dd HH:mm:ss`, formatted and
      parsed in the same time zone: the latest whole second not after `nowMillis`. */
  function WholeSecond(nowMillis: int): (ts: int)
    ensures ts % 1000 == 0
    ensures ts <= nowMillis < ts + 1000
  {
    nowMillis - nowMillis % 1000
  }

  /** The lookup of the stored password of account `id`. */
  function OldPasswordQuery(id: string): Call {
    Query(SqlQueryOldPassword, [Text(id)])
  }

  /** The three updates of a password change, in the order they are issued. */
  function ChangeUpdates(encoded: string, id: string, ts: int): seq<Call> {
    [Update(SqlChangePassword, [Text(encoded), Text(id)]),
     Update(SqlUnexpireAccount, [Text(id)]),
     Update(SqlUpdateUserTimestamp, [Timestamp(ts), Text(id)])]
  }

  /** No call in `calls` is an update. */
  predicate ReadOnly(calls: seq<Call>) {
    forall i :: 0 <= i < |calls| ==> calls[i].Query?
  }

  class JdbcPasswordManagementService {
    const jdbcTemplate: JdbcTemplate
    /** The configured password encoder's `encode`. */
    const encode: string -> string
    /** `EmailValidator.getInstance().isValid`. */
    const isValidEmail: string -> bool

    constructor (jdbcTemplate: JdbcTemplate, encode: string -> string, isValidEmail: string -> bool)
      ensures this.jdbcTemplate == jdbcTemplate && this.encode == encode
      ensures this.isValidEmail == isValidEmail
    {
      this.jdbcTemplate := jdbcTemplate;
      this.encode := encode;
      this.isValidEmail := isValidEmail;
    }

    /** `changeInternal`: the password of account `id` becomes `newPassword`, unless it encodes
        to the stored password. `nowMillis` is the clock reading. */
    method ChangeInternal(id: string, newPassword: string, nowMillis: int) returns (changed: bool)
      modifies jdbcTemplate
      // Reuse guard: the stored password is looked up, and if it equals the encoded new one
      // the change is refused and nothing is written.
      ensures var stored := jdbcTemplate.scalarResult(old(jdbcTemplate.trace), OldPasswordQuery(id));
              stored == Some(encode(newPassword)) ==>
                !changed && jdbcTemplate.trace == old(jdbcTemplate.trace) + [OldPasswordQuery(id)]
      // Otherwise exactly three updates follow the lookup, in a fixed order, and only the
      // first one's affected-row count decides the result.
      ensures var stored := jdbcTemplate.scalarResult(old(jdbcTemplate.trace), OldPasswordQuery(id));
              var issued := old(jdbcTemplate.trace) + [OldPasswordQuery(id)];
              var updates := ChangeUpdates(encode(newPassword), id, WholeSecond(nowMillis));
              stored != Some(encode(newPassword)) ==>
                jdbcTemplate.trace == issued + updates
                && changed == (jdbcTemplate.updateCount(issued, updates[0]) > 0)
      ensures |old(jdbcTemplate.trace)| < |jdbcTemplate.trace|
      // Updates are issued exactly when the guard lets the change through.
      ensures ReadOnly(jdbcTemplate.trace[|old(jdbcTemplate.trace)|..])
              <==> jdbcTemplate.scalarResult(old(jdbcTemplate.trace), OldPasswordQuery(id)) == Some(encode(newPassword))
      // Every call is keyed by the account being changed.
      ensures forall k :: |old(jdbcTemplate.trace)| <= k < |jdbcTemplate.trace| ==> KeyedBy(jdbcTemplate.trace[k], id)
    {
      var password := encode(newPassword);
      var oldPassword := jdbcTemplate.QueryForObject(SqlQueryOldPassword, [Text(id)]);
      if oldPassword == Some(password) {
        return false;
      }
      ghost var issued := jdbcTemplate.trace;
      var count := jdbcTemplate.Update(SqlChangePassword, [Text(password), Text(id)]);
      var _ := jdbcTemplate.Update(SqlUnexpireAccount, [Text(id)]);
      var nowTs := WholeSecond(nowMillis);
      var _ := jdbcTemplate.Update(SqlUpdateUserTimestamp, [Timestamp(nowTs), Text(id)]);
      assert jdbcTemplate.trace == issued + ChangeUpdates(password, id, nowTs);
      assert jdbcTemplate.trace[|old(jdbcTemplate.trace)|..][1] == ChangeUpdates(password, id, nowTs)[0];
      changed := count > 0;
    }

    /** `findEmail`: the email stored for `username`, or null when it is blank or not valid. */
    method FindEmail(username: string) returns (email: Option<string>)
      modifies jdbcTemplate
      ensures jdbcTemplate.trace == old(jdbcTemplate.trace) + [Query(SqlFindEmail, [Text(username)])]
      ensures email == AcceptedEmail(jdbcTemplate.scalarResult(old(jdbcTemplate.trace), Query(SqlFindEmail, [Text(username)])), isValidEmail)
    {
      var fetched := jdbcTemplate.QueryForObject(SqlFindEmail, [Text(username)]);
      if IsNotBlank(fetched) && isValidEmail(fetched.value) {
        return fetched;
      }
      return None;
    }

    /** `getSecurityQuestions`: the question-to-answer map of `username`, built row by row. */
    method GetSecurityQuestions(username: string) returns (questions: LinkedHashMap)
      modifies jdbcTemplate
      ensures fresh(questions) && questions.Valid()
      ensures jdbcTemplate.trace == old(jdbcTemplate.trace) + [Query(SqlSecurityQuestions, [Text(username)])]
      ensures questions.Model() == Questions(jdbcTemplate.rowsResult(old(jdbcTemplate.trace), Query(SqlSecurityQuestions, [Text(username)])))
    {
      questions := new LinkedHashMap();
      var results := jdbcTemplate.QueryForList(SqlSecurityQuestions, [Text(username)]);
      for i := 0 to |results|
        invariant jdbcTemplate.trace == old(jdbcTemplate.trace) + [Query(SqlSecurityQuestions, [Text(username)])]
        invariant questions.Valid() && questions.Model() == PutRows(Empty(), results[..i])
      {
        var row := results[i];
        if Get(row, "question").Some? && Get(row, "answer").Some? {
          questions.Put(Get(row, "question").value, Get(row, "answer").value);
        }
        assert results[..i + 1][..i] == results[..i];
      }
      assert results[..|results|] == results;
    }
  }
}
