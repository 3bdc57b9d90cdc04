# SQLite engine of the Smvc framework, modelled in Dafny

This project models `SQLiteEngine`, the framework's SQLite database engine.
The engine is a PDO connection. It turns four CRUD calls (`select`, `insert`,
`update`, `delete`) into a prepared statement: a SQL text plus a series of
`bindValue` calls for named placeholders. It then runs the statement and
hands back either a value or PHP's `false`.

Modules:

- `PhpRuntime` (`php_runtime.dfy`): PHP values and ordered associative arrays
  (`Entries`, a sequence of key/value pairs). It also has the string builtins
  the engine uses. `implode` is `Join`. `ltrim` and `rtrim` are `LTrim` and
  `RTrim`, which read their second argument as a set of characters, as PHP
  does. `strtolower` and `substr` are `ToLower` and `Prefix`.
- `KeySort` (`ksort.dfy`): `ksort`, modelled as an insertion sort on keys. It
  is proved to be a permutation and to sort. Its result depends only on the
  entries, not on the order the caller listed them in.
- `Pdo` (`pdo.dfy`): the prepared statement, as a class `Statement`. It keeps
  the SQL text, a log of `bindValue` calls, whether it was executed, and the
  arguments of its `fetchAll` call. The placeholder map is derived from the
  log, and a later bind of the same name wins.
- `SqlText` (`sql_text.dfy`): for each operation, the SQL text and the binding
  calls as functions of the caller's arguments, and lemmas about them.
- `Engines` (`sqlite_engine.dfy`): the class `SQLiteEngine`. Its CRUD methods
  build the clauses in loops, as the PHP does. Each one is proved to send
  exactly the text and bindings that `SqlText` specifies.

The store is not modelled. Every CRUD method takes a `StoreReply`, which
fixes the store's answers for the one statement the method prepares: whether
`execute` succeeds, what `fetchAll` returns, `rowCount()` and
`lastInsertId()`.

Behaviour kept exactly as the code has it:

- **`ltrim` strips a character set, not a prefix.** `ltrim($whereDetails, ' AND ')`
  strips any leading run of the characters space, `A`, `N` and `D`. So a
  first filter column named `NAME` gives the condition `ME = :where_NAME`
  (`WhereClauseOnName`). The loop never puts `" AND "` in front of the first
  condition. So for any other non-empty first column the trim changes
  nothing (`WhereClauseJoined`). An empty first key is the exception: its
  condition starts with a space, and the trim removes that space.
- **`update` sorts only `$data`.** Its `$where` keeps the caller's order
  (`UpdateWhereKeepsCallerOrder`). The code does not sort `$where`, even
  though `insert` and `delete` sort their arrays. The model follows the code.
- **An empty filter is accepted.** It produces a statement that ends in
  `WHERE ` (`EmptyFilterAccepted`). Nothing in the code rejects an empty
  filter, and the model follows the code.
- **Only `select` passes a type hint.** It binds integers with
  `PDO::PARAM_INT`. `insert`, `update` and `delete` bind every value with the
  default type.
- **`select` returns `false` for an empty result.** A failed fetch and a fetch
  with no rows both give `false`. The model keeps this ambiguity
  (`Engines.SQLiteEngine.Select`).

Assumption about `ksort`: column names are ordinary identifiers, not numeric
strings. For such keys PHP's default comparison is the byte-wise
lexicographic order, which is `KeySort.Below`.

## Model

| member | source | states |
|---|---|---|
| `Engines.SQLiteEngine.constructor` | system/Database/Engine/SQLiteEngine.php:19-24 | the engine keeps the configuration it was given and opens the DSN `sqlite:` followed by `$config['file']` (empty when the key is missing) |
| `Engines.SQLiteEngine.GetDriverName` | system/Database/Engine/SQLiteEngine.php:30-33 | the driver name is the fixed text "SQlite Driver" |
| `Engines.SQLiteEngine.GetConfiguration` | system/Database/Engine/SQLiteEngine.php:39-42 | returns the configuration given to the constructor |
| `Engines.SQLiteEngine.GetConnection` | system/Database/Engine/SQLiteEngine.php:48-51 | the native connection is the engine object itself |
| `Engines.SQLiteEngine.Prepare` | system/Database/Engine/SQLiteEngine.php:68 | `prepare` yields a new statement that records the SQL text and has no bindings yet |
| `Engines.SQLiteEngine.LastInsertId` | system/Database/Engine/SQLiteEngine.php:115 | the identity is the one the store assigned for the executed insert |
| `Engines.SQLiteEngine.BindAll` | system/Database/Engine/SQLiteEngine.php:69-75 | a binding loop issues exactly one `bindValue` per array entry, in the array's order, named prefix plus key; the INT hint is used only for integers and only when the loop is typed |
| `Engines.SQLiteEngine.Select` | system/Database/Engine/SQLiteEngine.php:63-91 | prepares the normalised query, binds every parameter under its own key, passes the class name to `fetchAll` only in FETCH_CLASS mode, returns the rows exactly when there is at least one, and returns `false` for a non-array or empty fetch |
| `Engines.SQLiteEngine.Insert` | system/Database/Engine/SQLiteEngine.php:99-116 | sends the INSERT text over the key-sorted columns, binds `:key` for each column, returns `lastInsertId()` when execute succeeds and `false` otherwise |
| `Engines.SQLiteEngine.Update` | system/Database/Engine/SQLiteEngine.php:125-161 | sends the UPDATE text (SET clause over the sorted data, WHERE clause in the caller's order), binds every `:field_` placeholder and then every `:where_` placeholder, returns `rowCount()` or `false` |
| `Engines.SQLiteEngine.Delete` | system/Database/Engine/SQLiteEngine.php:170-196 | sends the DELETE text over the key-sorted filter, binds `:key` for each filter column, returns `rowCount()` or `false` |
| `Engines.BuildSetDetails` | system/Database/Engine/SQLiteEngine.php:129-133 | the SET loop plus `rtrim` leaves exactly the SET clause: every `k = :field_k` followed by a comma, with the trailing commas then stripped |
| `Engines.BuildWhereDetails` | system/Database/Engine/SQLiteEngine.php:135-145 | the WHERE loop (first condition bare, later ones after " AND ") leaves the conditions joined by " AND ", to which `ltrim` is then applied |
| `SqlText.NormalizeSelect` | system/Database/Engine/SQLiteEngine.php:65-67 | the prepared query always starts case-insensitively with "select "; it equals the caller's text exactly when that text already did, and otherwise it is "SELECT " followed by the text |
| `SqlText.NormalizeSelectIdempotent` | system/Database/Engine/SQLiteEngine.php:65-67 | normalising twice gives the same text as normalising once |
| `SqlText.SelectPrefixedNotDoubled` | system/Database/Engine/SQLiteEngine.php:65-67 | a query that already starts with "select " in any letter case is sent unchanged, so the keyword is never doubled |
| `SqlText.SelectKeywordIgnoresCase` | system/Database/Engine/SQLiteEngine.php:65 | whether the query counts as starting with "select " does not change when the query is lower-cased first |
| `PhpRuntime.PrefixOfExtension` | system/Database/Engine/SQLiteEngine.php:65 | `substr` of the first n characters of a text that begins with an n-character string gives back that string |
| `PhpRuntime.ToLowerPrefix` | system/Database/Engine/SQLiteEngine.php:65 | lower-casing the first n characters is the same as taking the first n characters of the lower-cased text |
| `PhpRuntime.ToLowerIdempotent` | system/Database/Engine/SQLiteEngine.php:65 | lower-casing twice gives the same text as lower-casing once |
| `SqlText.Equations` | system/Database/Engine/SQLiteEngine.php:131 | there is one `k = <prefix>k` condition per entry, in the array's order |
| `SqlText.Binds` | system/Database/Engine/SQLiteEngine.php:69-75 | there is one binding per entry, in order, named prefix plus key, with that entry's value and hint |
| `SqlText.BindsDistinct` | system/Database/Engine/SQLiteEngine.php:108-110 | with unique keys, no placeholder name is bound twice |
| `SqlText.BindsAt` | system/Database/Engine/SQLiteEngine.php:108-110 | with unique keys, each prefix-plus-key placeholder ends up holding that key's value |
| `SqlText.BindsOnlyKeys` | system/Database/Engine/SQLiteEngine.php:108-110 | every bound placeholder is prefix plus one of the array's keys |
| `SqlText.SelectBindsExact` | system/Database/Engine/SQLiteEngine.php:69-75 | `select` binds each parameter exactly once under its key as given (no ":" added) and binds nothing else; the INT hint is used exactly for integer values |
| `SqlText.KSortSameEntries` | system/Database/Engine/SQLiteEngine.php:101 | `ksort` keeps exactly the caller's entries |
| `SqlText.InsertListsMatch` | system/Database/Engine/SQLiteEngine.php:103-106 | for a non-empty insert, the placeholder list is the column list's keys, each prefixed with ":" and joined by ", ", so the lists have equal length and item i of one matches item i of the other; an empty insert gives `() VALUES (:)` |
| `SqlText.InsertOrderIndependent` | system/Database/Engine/SQLiteEngine.php:101-110 | two inserts with the same column/value pairs in different orders send the same text and the same bindings |
| `SqlText.InsertBindsExact` | system/Database/Engine/SQLiteEngine.php:108-110 | an insert binds each `:column` exactly once, to the caller's value for that column, with the default type |
| `SqlText.FieldWhereDisjoint` | system/Database/Engine/SQLiteEngine.php:130-141 | a `:field_` placeholder never has the same name as a `:where_` placeholder |
| `SqlText.UpdateBindsDistinct` | system/Database/Engine/SQLiteEngine.php:149-155 | no placeholder is bound twice by an update, even when a column is both set and filtered on |
| `SqlText.UpdateBindsByPosition` | system/Database/Engine/SQLiteEngine.php:149-155 | each `:field_k` holds the new value of column k and each `:where_k` holds the filter value of column k |
| `SqlText.UpdateBindsSeparate` | system/Database/Engine/SQLiteEngine.php:127-155 | for the caller's unsorted data, every new value and every filter value is bound exactly once under its own name, with no cross-contamination |
| `SqlText.UpdateSameColumnInBoth` | system/Database/Engine/SQLiteEngine.php:149-155 | setting `status` to "closed" where `status` is "open" binds "closed" to `:field_status` and "open" to `:where_status` |
| `SqlText.SetClauseJoined` | system/Database/Engine/SQLiteEngine.php:129-133 | after `rtrim` the SET clause is the assignments joined by commas, with no trailing comma, whenever the last column name does not end in a comma |
| `SqlText.WhereClauseJoined` | system/Database/Engine/SQLiteEngine.php:135-145 | `ltrim` leaves the WHERE clause unchanged when the first filter column starts with a character other than space, A, N or D |
| `SqlText.LTrimSkips` | system/Database/Engine/SQLiteEngine.php:145 | `ltrim` skips any leading run of characters from its set |
| `SqlText.WhereClauseEatsLeadingLetters` | system/Database/Engine/SQLiteEngine.php:145 | when the only filter column starts with a run of space/A/N/D, the condition loses that run |
| `SqlText.WhereClauseOnName` | system/Database/Engine/SQLiteEngine.php:145 | filtering on `NAME` yields the condition `ME = :where_NAME` |
| `SqlText.UpdateWhereKeepsCallerOrder` | system/Database/Engine/SQLiteEngine.php:135-147 | the filter of an update is not sorted: the same two filter columns in two orders give two different statements |
| `SqlText.EmptyFilterAccepted` | system/Database/Engine/SQLiteEngine.php:174-186 | an empty filter is not rejected; the delete text is `DELETE FROM t WHERE ` and the update text ends in ` WHERE ` |
| `SqlText.DeleteOrderIndependent` | system/Database/Engine/SQLiteEngine.php:172-190 | two deletes with the same filter pairs in different orders send the same text and the same bindings |
| `SqlText.DeleteBindsExact` | system/Database/Engine/SQLiteEngine.php:188-190 | a delete binds each `:column` exactly once, to the caller's filter value |
| `KeySort.InsertSorted` | system/Database/Engine/SQLiteEngine.php:101 | inserting an entry into a sorted array adds exactly that entry |
| `KeySort.KSort` | system/Database/Engine/SQLiteEngine.php:101 | `ksort` returns a permutation of the entries |
| `KeySort.KSortSorted` | system/Database/Engine/SQLiteEngine.php:101 | after `ksort` the keys are in ascending order |
| `KeySort.KSortDistinct` | system/Database/Engine/SQLiteEngine.php:101 | `ksort` keeps the keys unique |
| `KeySort.KSortCanonical` | system/Database/Engine/SQLiteEngine.php:101 | arrays with the same entries sort to the same array, whatever order the caller listed them in |
| `KeySort.SortedUnique` | system/Database/Engine/SQLiteEngine.php:101 | a sorted array with unique keys is determined by its entries |
| `KeySort.BelowTotal` | system/Database/Engine/SQLiteEngine.php:101 | the assumed key order is total |
| `KeySort.BelowAntisymmetric` | system/Database/Engine/SQLiteEngine.php:101 | the assumed key order is antisymmetric |
| `KeySort.BelowTransitive` | system/Database/Engine/SQLiteEngine.php:101 | the assumed key order is transitive |
| `PhpRuntime.LTrim` | system/Database/Engine/SQLiteEngine.php:145 | the result is a suffix of the input; every removed character is in the set; the result does not start with a character from the set |
| `PhpRuntime.RTrim` | system/Database/Engine/SQLiteEngine.php:133 | the result is a prefix of the input; every removed character is in the set; the result does not end with a character from the set |
| `PhpRuntime.JoinPrefixed` | system/Database/Engine/SQLiteEngine.php:104 | `':' . implode(', :', ks)` equals the keys, each prefixed with ":", joined by ", " |
| `PhpRuntime.TerminatedIsJoinThenTerminator` | system/Database/Engine/SQLiteEngine.php:130-132 | appending `part,` for each part gives the parts joined by commas plus one trailing comma |
| `Pdo.Statement.constructor` | system/Database/Engine/SQLiteEngine.php:68 | a prepared statement starts with its SQL text, no bindings, not executed and not fetched |
| `Pdo.Statement.BindValue` | system/Database/Engine/SQLiteEngine.php:71-73 | `bindValue` appends one call to the log and sets that one placeholder in the map; nothing else changes |
| `Pdo.Statement.Execute` | system/Database/Engine/SQLiteEngine.php:77 | `execute` reports the store's answer and leaves the bindings as they are |
| `Pdo.Statement.FetchAllRows` | system/Database/Engine/SQLiteEngine.php:80-84 | `fetchAll` records its arguments and returns the store's rows |
| `Pdo.Statement.RowCount` | system/Database/Engine/SQLiteEngine.php:160 | `rowCount` is the store's count of affected rows |
| `Pdo.BindingMapAt` | system/Database/Engine/SQLiteEngine.php:149-155 | when no name is bound twice, each placeholder holds the value of its own `bindValue` call |
| `Pdo.BindingMapNames` | system/Database/Engine/SQLiteEngine.php:149-155 | only names that some call bound appear in the placeholder map |

## Left out

- The store itself: the SQLite connection, and how `prepare` parses SQL. What `execute`, `fetchAll`, `rowCount` and `lastInsertId` return is an input to each CRUD call (`StoreReply`). So the model does not cover row materialisation per fetch mode, or the end-to-end behaviour of inserting and then selecting rows.
- Opening the connection in the constructor, and setting `PDO::ERRMODE_EXCEPTION`. Both are I/O. The constructor keeps only the configuration and the DSN text.
- Exceptions. With `ERRMODE_EXCEPTION` a failing statement raises `PDOException`, and the exception propagates out of the CRUD method. The model has no exceptions. A failing `execute` is modelled as returning `false`, which is the path the write methods test. `select` ignores the result of `execute`, as the code does.
- Numeric-string keys. PHP turns canonical decimal-integer strings such as `"12"` into integer keys. `ksort` also compares other numeric strings such as `"1.5"` numerically, although they stay strings. The model treats every key as a string under the lexicographic order.
- Non-string interpolation. The table name and the keys are spliced into SQL as their PHP string form. The model's table name and keys are strings already. Values are never spliced; they reach the store only through `bindValue`. Floats are carried as text and never computed with.
- The `Engine` interface that the class implements. Its source is not shown, so it is not part of this model.
- `system/Core/Controller.php` (request dispatch, rendering, a static singleton) and `system/Support/Facades/Cookie.php` (a static proxy to a cookie jar) are not part of this model. Neither holds database logic.
