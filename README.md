# JDBC password management, modelled in Dafny

This project models `JdbcPasswordManagementService` of the CAS single-sign-on server. That
class is the backend that the "forgot / reset my password" flow delegates to when accounts
live in a relational database. It has three operations:

- `changeInternal` changes an account's password. It encodes the new password and reads the
  stored one. If the two are equal, it refuses the change (the reuse guard). Otherwise it
  issues three updates: change the password, unexpire the account, and stamp the
  last-modified time. It reports success when the first update touched a row.
- `findEmail` returns the account's email, or null when the stored value is blank or not a
  valid address.
- `getSecurityQuestions` folds the rows of a query into an insertion-ordered map from
  question to answer.

Files:

- `jdbc.dfy` (module `Jdbc`) models the store as an abstract executor, `JdbcTemplate`. Every
  query and update is appended to a `trace` together with its positional parameters. A
  statement is named by the configuration property that holds its SQL (`SqlChangePassword`,
  …), and the SQL text is never interpreted. What the store answers is scripted by functions
  of the calls issued so far and of the call itself, so any deterministic store fits. A row of
  `queryForList` is the sequence of its columns. Spring's `ColumnMapRowMapper` puts them into a
  `LinkedCaseInsensitiveMap`, so `Get` finds a column whose name matches the key ignoring case,
  and the last such column wins.
- `linked_hash_map.dfy` (module `LinkedHashMaps`) models `java.util.LinkedHashMap` as a class
  with an iteration order and a mapping. Its abstract value is the datatype `OrderedMap`, whose
  `Put` specifies the class's `Put`.
- `security_questions.dfy` (module `SecurityQuestions`) defines the row fold on values. It
  proves which keys the fold produces, which answer each key gets, in which order the keys
  come, and how many there are.
- `password_management.dfy` (module `JdbcPasswordManagement`) holds the service class and its
  three operations. The password encoder and the email validator are functions the service
  holds and the model does not interpret. `StringUtils.isNotBlank` is modelled concretely,
  using Java 8's `Character.isWhitespace`.

The clock is a parameter, `nowMillis`. Formatting it with `yyyy-MM-dd HH:mm:ss` and parsing
it back with `Timestamp.valueOf` in the same time zone drops the sub-second part. This is
modelled as flooring to the whole second, which is also what happens for instants before 1970.

Two points about the code that the model follows:

- `changeInternal` has no handler around the unexpire and timestamp updates, so an exception
  from either leaves the method before it returns. The model has no store exceptions (see
  below), so on every modelled path all three updates complete.
- The refused path still issues the stored-password lookup. It issues no update.

## Model

| member | source | states |
|---|---|---|
| `JdbcPasswordManagement.JdbcPasswordManagementService.ChangeInternal` | support/cas-server-support-pm-jdbc/src/main/java/org/apereo/cas/pm/jdbc/JdbcPasswordManagementService.java:47-63 | Looks up the stored password of `id`. If it equals the encoded new password, the result is `false` and the lookup is the only call issued. Otherwise exactly three updates follow, in order: change-password with `(encoded, id)`, unexpire with `(id)`, update-timestamp with `(whole-second timestamp, id)`. The result is `true` iff the change-password update reports a positive row count; the other two counts play no part. Updates are issued iff the guard does not fire. Every call is keyed by `id`. |
| `JdbcPasswordManagement.JdbcPasswordManagementService.FindEmail` | support/cas-server-support-pm-jdbc/src/main/java/org/apereo/cas/pm/jdbc/JdbcPasswordManagementService.java:67-74 | Issues exactly one query, the email lookup for `username`, and returns the accepted form of the fetched value. |
| `JdbcPasswordManagement.AcceptedEmail` | support/cas-server-support-pm-jdbc/src/main/java/org/apereo/cas/pm/jdbc/JdbcPasswordManagementService.java:70-73 | A value comes back iff the fetched value is non-null, non-blank and valid; when one comes back, it is the fetched value unchanged; otherwise the result is null. |
| `JdbcPasswordManagement.WholeSecond` | support/cas-server-support-pm-jdbc/src/main/java/org/apereo/cas/pm/jdbc/JdbcPasswordManagementService.java:58-61 | The timestamp written is a whole number of seconds, and it is the latest such instant not after the clock reading. |
| `JdbcPasswordManagement.JdbcPasswordManagementService.GetSecurityQuestions` | support/cas-server-support-pm-jdbc/src/main/java/org/apereo/cas/pm/jdbc/JdbcPasswordManagementService.java:77-88 | Issues exactly one query, the security-question lookup for `username`. It returns a fresh, well-formed map whose value is the fold of the returned rows. |
| `Jdbc.GetLastMatch` | support/cas-server-support-pm-jdbc/src/main/java/org/apereo/cas/pm/jdbc/JdbcPasswordManagementService.java:82-83 | `row.containsKey(key)` holds iff some column's name equals `key` ignoring case, and `row.get(key)` is then the value of the last such column. |
| `SecurityQuestions.PutRow` | support/cas-server-support-pm-jdbc/src/main/java/org/apereo/cas/pm/jdbc/JdbcPasswordManagementService.java:82-84 | One visit of the loop body keeps the map well-formed: each key appears once in the iteration order. |
| `SecurityQuestions.PutRows` | support/cas-server-support-pm-jdbc/src/main/java/org/apereo/cas/pm/jdbc/JdbcPasswordManagementService.java:81-85 | The loop over the rows keeps the map well-formed and adds at most one key per row. |
| `SecurityQuestions.PutRowsAppend` | support/cas-server-support-pm-jdbc/src/main/java/org/apereo/cas/pm/jdbc/JdbcPasswordManagementService.java:81-85 | Folding a concatenation of row lists is folding the first list, then the second. |
| `SecurityQuestions.SkippedRow` | support/cas-server-support-pm-jdbc/src/main/java/org/apereo/cas/pm/jdbc/JdbcPasswordManagementService.java:82 | A row without a `question` column or without an `answer` column (names compared ignoring case) contributes nothing, wherever it stands: removing it gives the same map, order included. |
| `SecurityQuestions.QuestionsKeys` | support/cas-server-support-pm-jdbc/src/main/java/org/apereo/cas/pm/jdbc/JdbcPasswordManagementService.java:79-85 | The result's key set equals the set of questions of the rows that have both columns. |
| `SecurityQuestions.NoQualifyingRows` | support/cas-server-support-pm-jdbc/src/main/java/org/apereo/cas/pm/jdbc/JdbcPasswordManagementService.java:79-87 | With no qualifying row, in particular with zero rows, the result is the empty map. |
| `SecurityQuestions.LastWins` | support/cas-server-support-pm-jdbc/src/main/java/org/apereo/cas/pm/jdbc/JdbcPasswordManagementService.java:83 | A question maps to the answer of the last qualifying row that asks it. |
| `SecurityQuestions.InsertionOrder` | support/cas-server-support-pm-jdbc/src/main/java/org/apereo/cas/pm/jdbc/JdbcPasswordManagementService.java:79-83 | The iteration order lists each question at the position of its first qualifying row, so a repeated question keeps its first position. |
| `SecurityQuestions.RepeatedQuestionExample` | support/cas-server-support-pm-jdbc/src/main/java/org/apereo/cas/pm/jdbc/JdbcPasswordManagementService.java:81-85 | Rows `{QUESTION: Q1, ANSWER: A1}`, `{question: Q1, answer: A2}` and `{Question: Q2}` give the map `{Q1: A2}`: upper-case column names are found, the later answer wins, and the row without an answer is left out. |
| `SecurityQuestions.SizeBound` | support/cas-server-support-pm-jdbc/src/main/java/org/apereo/cas/pm/jdbc/JdbcPasswordManagementService.java:79-87 | The map never has more entries than there are rows. |
| `LinkedHashMaps.OrderedMap.Put` | support/cas-server-support-pm-jdbc/src/main/java/org/apereo/cas/pm/jdbc/JdbcPasswordManagementService.java:83 | `put(k, v)` maps `k` to `v` and leaves every other key's value alone. Keys already present keep their positions, and a new key goes last. |
| `LinkedHashMaps.LinkedHashMap.Put` | support/cas-server-support-pm-jdbc/src/main/java/org/apereo/cas/pm/jdbc/JdbcPasswordManagementService.java:83 | The in-place `put` changes the map exactly as `OrderedMap.Put` says and keeps it well-formed. |
| `LinkedHashMaps.LinkedHashMap.constructor` | support/cas-server-support-pm-jdbc/src/main/java/org/apereo/cas/pm/jdbc/JdbcPasswordManagementService.java:79 | A new map is empty and well-formed. |
| `LinkedHashMaps.SizeIsOrderLength` | support/cas-server-support-pm-jdbc/src/main/java/org/apereo/cas/pm/jdbc/JdbcPasswordManagementService.java:86 | The size of a well-formed map is the length of its iteration order. |
| `Jdbc.JdbcTemplate.QueryForObject` | support/cas-server-support-pm-jdbc/src/main/java/org/apereo/cas/pm/jdbc/JdbcPasswordManagementService.java:51 | A scalar query is appended to the trace with its parameters. It returns the store's scripted answer for the calls issued before it. |
| `Jdbc.JdbcTemplate.QueryForList` | support/cas-server-support-pm-jdbc/src/main/java/org/apereo/cas/pm/jdbc/JdbcPasswordManagementService.java:80 | A row-set query is appended to the trace with its parameters. It returns the scripted rows. |
| `Jdbc.JdbcTemplate.Update` | support/cas-server-support-pm-jdbc/src/main/java/org/apereo/cas/pm/jdbc/JdbcPasswordManagementService.java:56-62 | An update is appended to the trace with its parameters. It returns the scripted affected-row count. |

## Left out

- SQL and the database: statements are names and the store is a scripted executor. The
  model therefore cannot say what a later read returns after a password change. The
  "read back the new password" property would need the SQL to be interpreted.
- Store exceptions: `queryForObject` throws when the query returns no row or more than one
  row, and any call can fail to reach the database. Neither is modelled; a lookup's result
  is taken as given.
- Null column values in the security-question rows: `toString()` on a null value throws.
  Every column of a modelled row holds a string (the `toString()` image of its value), so
  only whether a column is present is modelled.
- The encoder choice (`PasswordEncoderUtils.newPasswordEncoder`) is not modelled. `encode`
  is a deterministic function. With a salted encoder such as bcrypt, the encoded new password
  almost never equals the stored one, so the `equals` guard would not catch reuse. The model
  does not capture this.
- `Jdbc.GetLastMatch`: column names are compared after lower-casing the ASCII letters only.
  For the keys `question` and `answer` this agrees with `toLowerCase` in the default locale,
  except in a Turkish or Azeri locale: there `I` lower-cases to a dotless `ı`, so a column
  reported as `QUESTION` is not found. That locale case is not modelled.
- Email validation (`EmailValidator.isValid`) is an uninterpreted predicate.
- `JdbcPasswordManagement.WholeSecond`: it assumes the default time zone is the same when
  formatting and when parsing, and that the year has four digits. It does not model the hour
  repeated when daylight saving time ends, where `Timestamp.valueOf` may pick the other
  instant.
- Concurrency: the read of the stored password and the updates are separate calls, and the
  service does not serialise them.
- Logging, the `UsernamePasswordCredential` cast (the account id is a string input), the
  cipher executor, the issuer and the superclass are not modelled. The constructor is modelled
  only as receiving the executor, the encoder and the validator.
