# BigQuery service of laravel-google-bigquery, modelled in Dafny

The package's `BigQuery` service class turns PHP associative arrays into SQL
text for Google BigQuery and decides which client calls to make: `insertRows`
(structured streaming insert), `createTable` (keep, recreate or create a
table), `insert` and `update` (hand-built INSERT/UPDATE statements) and
`updateOrCreate` (a COUNT query followed by an update or an insert).

This project models that class as pure functions:

- `wrappers.dfy` — `Option`.
- `php_strings.dfy` (module `PhpStrings`) — the PHP string built-ins the class
  relies on: `implode`, `substr($s, 0, -$n)`, integer-to-string conversion,
  `addslashes` and `stripslashes`, plus a reader for a backslash-escaped,
  single-quoted literal.
- `php_values.dfy` (module `PhpValues`) — scalar PHP values (`boolean`, `integer`, `double`,
  `string`, `NULL`, exactly the cases `gettype` distinguishes in the source),
  string interpolation, `intval`, ordered string-keyed arrays and
  `array_merge`.
- `bigquery_sql.dfy` (module `BigQuerySql`) — the INSERT, UPDATE, WHERE and COUNT text.
- `bigquery_service.dfy` (module `BigQueryService`) — the five public methods. Every remote call is an
  input: the job result (`isComplete()` or an exception), the COUNT rows,
  `exists()`, the delete and create outcomes, and the streaming-insert
  response. Each operation returns a `Run`: the effects it issued in order
  (remote calls, log lines, echoed text) and whether it returned or threw.

Each builder is written the way the source loops are: append the item and a
separator, then cut a fixed number of characters off the end. That is one
character for the comma-terminated INSERT and SET lists, and five characters
for the WHERE text whatever its last separator was (see Findings). The lemmas relate
that form to an `implode` of one item per record entry. Escaping is related
to its inverses. `array_merge` is related to lookup and key order. The
service functions state which statements are submitted in each case.

## Model

| member | source | states |
|---|---|---|
| PhpStrings.DropTail | src/Service/BigQuery.php:84 | `substr($s, 0, -$n)` yields the prefix of `s` that is `n` characters shorter (the model counts characters where PHP counts bytes; see Left out); it yields the empty string when `s` is shorter than `n`, and also when `n` is 0 (a length of `-0` is `0`) |
| PhpStrings.DropTerminator | src/Service/BigQuery.php:84 | appending `item,` per item and cutting one terminator off the end gives exactly the `implode` of the items; this holds for every list, the empty one included, and for every non-empty terminator (the model applies it with `,` to the INSERT and SET lists, and with ` AND ` to a WHERE text whose condition values are all strings or null) |
| PhpStrings.IntDecimalRoundTrip | src/Service/BigQuery.php:76 | the text PHP interpolates for an integer reads back as that integer |
| PhpStrings.AddSlashes | src/Service/BigQuery.php:81 | escaping never shortens a string and leaves a string without quote, double quote, backslash or NUL unchanged |
| PhpStrings.StripAddSlashes | src/Service/BigQuery.php:81 | `stripslashes(addslashes(s)) == s` |
| PhpStrings.QuoteReadsBack | src/Service/BigQuery.php:81 | `'` + addslashes(s) + `'` is one complete literal: it ends at its own closing quote, so no quote inside is left unescaped, and it denotes `s` |
| PhpValues.TruncateReal | src/Service/BigQuery.php:74 | `intval` of a float rounds toward zero |
| PhpValues.Keys | src/Service/BigQuery.php:66 | `array_keys` gives one key per entry, in iteration order |
| PhpValues.MergeLookup | src/Service/BigQuery.php:171 | after `array_merge($condition, $data)` a key holds the data's value if the data has it, else the condition's |
| PhpValues.MergeKeys | src/Service/BigQuery.php:171 | the merged array lists the condition's keys in their own positions, followed by the data's new keys in the data's order |
| PhpValues.MergeNoDuplicates | src/Service/BigQuery.php:171 | the merged array has no repeated key |
| BigQuerySql.NumberText | src/Service/BigQuery.php:70-76 | for the `inserted_to_datawarehouse` column, a boolean or number is written as its `intval`; for other columns `true` is `1`, `false` is empty, a float is its PHP text, and an integer reads back as itself |
| BigQuerySql.InsertLiteral | src/Service/BigQuery.php:68-82 | INSERT value text: `NULL` for null; a string becomes exactly `'` + addslashes(s) + `'`, a quoted literal that reads back to it; an integer reads back to itself; the flag column gets `intval`; in any other column a boolean is `1` or the empty string, and a float is its PHP text |
| BigQuerySql.InsertLayout | src/Service/BigQuery.php:66-86 | the INSERT statement is `INSERT INTO ds.tbl (keys) VALUES(values)`; keys are comma-joined in order; there is exactly one value per key, in the same order; exactly one trailing comma is removed |
| BigQuerySql.UpdateLiteral | src/Service/BigQuery.php:105-123 | UPDATE value text: null and the empty string become `NULL`; a non-empty string becomes exactly `'` + addslashes(s) + `'`, a quoted literal that reads back to it; there is no flag coercion, so `false` is the empty string; a float is its PHP text |
| BigQuerySql.UpdateLayout | src/Service/BigQuery.php:101-128 | the SET list has one `key = value` item per entry, in order, comma-joined with the trailing comma removed; the condition text follows `WHERE` verbatim |
| BigQuerySql.FlagCoercionExamples | src/Service/BigQuery.php:70-76 | the flag column writes `true` as `1` and `false` as `0`; another column writes `false` as nothing; UPDATE writes `note = ''` as `note = NULL` |
| BigQuerySql.WhereAgreesOnStrings | src/Service/BigQuery.php:138-154 | when no condition value is a boolean or number, the WHERE text is the ` AND `-join of one `key = 'escaped'` equality per entry |
| BigQuerySql.WhereNumericTruncated | src/Service/BigQuery.php:148-154 | the condition `['id' => 5]` yields the WHERE text `id`; the corrected text is `id = 5` |
| BigQuerySql.WhereNumericLastCut | src/Service/BigQuery.php:148-154 | when the last condition entry is a boolean or number under a non-empty column name, the five-character cut removes its comma and the last four characters of its equality, whatever came before |
| BigQuerySql.WhereNumberThenOther | src/Service/BigQuery.php:148-154 | a numeric entry followed by a non-numeric one is joined by `,`, not ` AND ` (so `['id' => 5, 'name' => 'Ann']` yields `id = 5,name = 'Ann'`) |
| BigQuerySql.WhereCorrectedSnoc | src/Service/BigQuery.php:151 | in the corrected WHERE text, a single entry gives its full equality, and each added entry conjoins its full equality at the end |
| BigQuerySql.WhereCorrectedPair | src/Service/BigQuery.php:148-151 | the corrected text of any two entries, numeric or not, is their two equalities joined by ` AND ` (so `['id' => 5, 'name' => 'Ann']` gives `id = 5 AND name = 'Ann'`) |
| BigQueryService.FirstRowWithErrors | src/Service/BigQuery.php:36-39 | the nested loop stops at the first failed row with an error; there is none exactly when every failed row has an empty error list |
| BigQueryService.InsertRows | src/Service/BigQuery.php:28-43 | the rows are always streamed. It throws exactly when the response is unsuccessful and some failed row lists an error. Before the throw, exactly one line is logged: the first error of the first such row. A successful response, or one whose error lists are all empty, returns with nothing logged |
| BigQueryService.CreateTable | src/Service/BigQuery.php:45-61 | `exists()` is always asked first. An existing table without refresh causes no other call. Refresh deletes first; a not-found delete is swallowed, while any other delete failure propagates with no create. Otherwise exactly one create follows, carrying `['schema' => ['fields' => $fields]]`. Each path's whole sequence of calls is stated: check then create; check, delete, create; check, delete, notice, create; or check, delete and stop |
| BigQueryService.Insert | src/Service/BigQuery.php:64-97 | exactly one INSERT is submitted and nothing else happens but, on failure, the banner and the message logged at emergency level; insert never throws: it returns `isComplete()`, or null after those two log lines |
| BigQueryService.Update | src/Service/BigQuery.php:99-134 | exactly one UPDATE is submitted with the given WHERE text; it returns `isComplete()`, or the client's exception propagates |
| BigQueryService.Upsert | src/Service/BigQuery.php:155-172 | the COUNT query comes first. If it throws, a generic exception is raised and nothing else is submitted. A nonzero last total leads to exactly one UPDATE with the same WHERE text. A zero last total leads to exactly one INSERT of `array_merge($condition, $data)`. No rows at all leave `$exist` unset; reading it raises the framework's `ErrorException`, and nothing else is submitted. The whole effect sequence is stated on every path: no other remote call is made, and a failed INSERT is followed by exactly the two emergency log lines of `insert` |
| BigQueryService.UpsertInsertsMergedRecord | src/Service/BigQuery.php:170-171 | the inserted record has the condition's keys first and then the data's new keys, no key twice, and the data's values win |
| BigQueryService.UpdateOrCreateAgreesOnStrings | src/Service/BigQuery.php:136-173 | with only string or null condition values, the as-written and the corrected `updateOrCreate` behave identically |
| BigQueryService.UpsertFoundExample | src/Service/BigQuery.php:168-169 | upserting `['id' => 5]` when a row matches issues `UPDATE ... WHERE id` as written, and `WHERE id = 5` when corrected |
| BigQueryService.UpsertAbsentExample | src/Service/BigQuery.php:170-171 | upserting `['id' => 5]` with `['name' => 'Ann']` when nothing matches inserts `['id' => 5, 'name' => 'Ann']` |

`BigQueryService.UpdateOrCreate` is `Upsert` with the as-written WHERE text.
`BigQueryService.UpdateOrCreateCorrected` is `Upsert` with the corrected one.

## Behaviour taken from the code

The model follows the code in these places:

- No value kind raises an encoding error. In `insert`, anything other than a
  boolean, number or null is quoted through `addslashes`. In `update` the same
  holds, except that the empty string becomes `NULL`. In `updateOrCreate`, a
  null condition value is quoted through `addslashes` too: it becomes
  `key = ''`, since the WHERE loop has no `NULL` case.
- A failing INSERT is logged and swallowed, while a failing UPDATE propagates.
- A delete that finds no table is echoed to standard output, not logged.
- Only the first error of the first failed streamed row is reported. The
  errors are not aggregated.
- The `updateOrCreate` WHERE text is built as written; see Findings.
- A COUNT answer without rows leaves `$exist` unset at src/Service/BigQuery.php:168. This is
  outside the `try`. Laravel's error handler turns the resulting warning into
  an `ErrorException`, so the call throws rather than inserting.

## Left out

- The constructor, the `BigQueryClient` it builds and the credentials it reads from configuration: there is no logic of the class there.
- What the client calls actually do (`query`, `runQuery`, `isComplete`, `rows`, `exists`, `delete`, `createTable`, `insertRows`): their answers are inputs. The model does not cover an exception thrown by `exists()`, by the streaming `insertRows` call itself, or by building a query configuration.
- How BigQuery parses or evaluates the generated SQL. The literal reader in `PhpStrings` is the backslash convention that `stripslashes` inverts; it is not BigQuery's lexer.
- The decimal text PHP prints for a float: `Value.Double` carries it as given. `intval` of NaN, of an infinity, or of a float outside the 64-bit range is not modelled.
- PHP's 64-bit integer range: integers are unbounded. Nothing in the class computes with them; it only prints them.
- Array or object values, which would reach the `default:` branches: the value type is closed over the five scalar kinds.
- Byte-level string length: strings are sequences of characters, while PHP strings are byte strings and `substr` counts bytes. The one-character cuts after the INSERT and SET lists always remove an ASCII comma, and `addslashes` only escapes ASCII bytes, so these agree with PHP. The five-character cut of the WHERE text differs from PHP's five-byte cut when it reaches into a non-ASCII column name, as with a numeric last entry: for `['é' => false]` PHP keeps the lone byte `\xC3`, while the model keeps the empty string.
- Integer-like string keys, which `array_merge` would renumber: column names are taken to be non-numeric strings.
- `Log::error`, `Log::emergency` and `echo` appear only as effects in the trace, with their message text.
- The Laravel facade class in `src/Facades/GoogleBigQuery.php`. It has no logic.

## Findings

| source | as written | input that shows it | evidently intended | confidence | as-written member | corrected member |
|---|---|---|---|---|---|---|
| src/Service/BigQuery.php:148-154 | a boolean or number condition is followed by `,`, yet the loop result is always cut by five characters, the length of ` AND ` | `updateOrCreate($t, ['id' => 5], $data)` builds `WHERE id`; `['id' => 5, 'name' => 'Ann']` builds `WHERE id = 5,name = 'Ann'` | every equality joined by ` AND `: `WHERE id = 5` and `WHERE id = 5 AND name = 'Ann'` | high (not executed) | BigQuerySql.WhereNumericTruncated | BigQuerySql.WhereCorrectedSnoc |

`BigQueryService.UpdateOrCreate` keeps the as-written text, so the model of the
class stays faithful. `BigQueryService.UpdateOrCreateCorrected` uses the
corrected text. `BigQueryService.UpdateOrCreateAgreesOnStrings` shows that the
two agree whenever the defect cannot show.
