# MUCD clone database core, modelled in Dafny

This project models `MUCD_Clone_DB` (`lib/clone-db.php`), the database half of a
WordPress multisite duplicator. It copies every table of a source site under the
destination site's prefix. It then rewrites the copied data so that the source
site's upload URL, blog URL and table prefix become the destination's. Values
stored in PHP `serialize` format that the model's parser reads (null,
booleans, integers, strings and arrays of these, written canonically, with
distinct keys that are not numeric strings, and nothing after the value) are
rewritten inside the encoding: they are decoded once, or twice for
double-serialised options, and re-encoded with correct length headers. Text
that WordPress's `is_serialized` test accepts but the parser does not read
(floats, objects, references, malformed headers) is left as it is; see
IsSerialized under "Left out" and the Findings row for lines 277-301. Options the
administrator asked to preserve are snapshotted and restored.

The upload and blog URLs of both sites are read in `db_update_data`
(lines 124-135), after `db_copy_tables` (line 21) has replaced the
destination's `options` table with the source's rows and restored only the
preserved options (line 89). They are inputs of `CopyData`. In this model,
which has no object cache, unless `siteurl` is among the preserved options
the destination's `siteurl` read at that point is the
source's, so the blog-URL pair maps a URL to itself and rewrites nothing.

Modules:

- `Results`: `Option` and `Result`.
- `Strings`: PHP `strpos` and `str_replace`, and `explode`/`implode`. The
  left-to-right split of a subject at a separator is characterised on its
  own (`IsSplit`: the pieces join back to the subject, each piece but the
  last meets its first separator only at its end, the last holds none).
  `explode` is shown to produce that split and to be the only one, and
  `str_replace` is the join of that split with the replacement.
- `Numerals`: the decimal integers of the serialize format, with a strict
  reader.
- `PhpValue`: PHP values (strings, null, booleans, integers, arrays with
  ordered int or string keys).
- `Serial`: a concrete `serialize`, a strict parser proved to be its
  exact inverse in both directions, and WordPress's `is_serialized` test
  (`LooksSerialized`), which accepts everything the parser reads and more.
- `Rewrite`: `replace`, `replace_recursive` and `try_replace`.
- `TableUpdate`: `update` as a sequence of `SELECT ... LIKE` and
  `UPDATE ... WHERE field = old` statements over rows.
- `CloneTables`: the source table list, the destination names, and the
  drop/create/insert copy loop of `db_copy_tables`.
- `SavedOptions`: the options of a site as rows of its `options` table
  (`option_name`, `option_value`), `get_blog_option` and `update_option` on
  those rows, the preserved-options snapshot and its restore.
- `CloneDb`: the replacement pairs, the update schedule, and `copy_data`
  end to end.

The database is a map from table name to a table (its columns and its rows).
A row maps column names to string cells; a NULL cell is an absent column.
A failing SQL statement makes the source log the error, remove the new site
and stop. Here that is an `Err` result.

The code and its own documentation disagree about the guard in `replace`:

- The doc comment (line 223) says no replacement is made when `$to_string` is
  already in the value.
- The code tests `false == strpos(...)`. Under PHP's loose comparison this also
  holds when `$to_string` sits at index 0.
- So a value that starts with the replacement is rewritten again. A value that
  carries it further in is left alone.

The model follows the code. `Rewrite.ReplaceGuardAtStart` exhibits both cases,
and `Rewrite.ReplaceAsDocumented` is the documented behaviour (see Findings).

PHP version: library functions follow PHP 8 (`substr` past the end gives
`""`, `str_replace` with an empty search string returns the subject). Under
PHP 8 the calls `self::try_replace(...)` (lines 212 and 253) throw, because
`try_replace` (line 276) is not declared `static`. The model treats them as
the intended static calls, as PHP 7 ran them; `TableUpdate.UpdateOnPhp8`
models what PHP 8 does instead (see Findings).

## Model

| member | source | states |
|---|---|---|
| Strings.StrPos | lib/clone-db.php:233 | `strpos` finds nothing exactly when the needle does not occur; otherwise it returns an occurrence with no earlier one |
| Strings.StrReplaceIsImplodeExplode | lib/clone-db.php:235 | `str_replace` equals joining with `to` the pieces `explode` cuts the subject into at `from` |
| Strings.ExplodeSplits | lib/clone-db.php:235 | `explode` cuts the subject left to right at each first remaining separator: the pieces join back to it, every piece but the last has the separator only at its join, the last piece has none |
| Strings.SplitUnique | lib/clone-db.php:235 | any split with those properties is the one `explode` returns, so the split is determined by the subject alone |
| Strings.ExplodeAbsent | lib/clone-db.php:235 | a subject without the separator is one piece |
| Strings.StrReplaceBySplit | lib/clone-db.php:235 | `str_replace` is the join, with `to`, of the unique left-to-right split at `from` |
| Strings.ImplodeExplode | lib/clone-db.php:235 | joining the pieces back with `from` gives the original subject, so the split loses nothing |
| Strings.StrReplaceSame | lib/clone-db.php:235 | replacing a string by itself leaves the subject unchanged |
| Strings.StrReplaceAbsent | lib/clone-db.php:235 | a subject without `from` is left unchanged by `str_replace` |
| Numerals.DigitsValueOfNatToString | lib/clone-db.php:301 | the decimal text written for a count reads back as the same number |
| Numerals.ReadNat | lib/clone-db.php:279 | a count is accepted only in its canonical decimal spelling, and the unread rest does not start with a digit |
| Numerals.ReadNatOf | lib/clone-db.php:279 | reading the spelling of any count gives back that count and the rest |
| Numerals.ReadInt | lib/clone-db.php:279 | an integer is accepted only in its canonical decimal spelling, and the unread rest does not start with a digit |
| Numerals.ReadIntOfIntToString | lib/clone-db.php:279 | reading the canonical spelling of any integer gives back that integer and the rest |
| Serial.Parse | lib/clone-db.php:279 | whatever the parser accepts is exactly the encoding of the value it returns, followed by the rest |
| Serial.ParseSerializeTo | lib/clone-db.php:279 | parsing the encoding of any value, followed by anything, returns that value and that rest |
| Serial.Unserialize | lib/clone-db.php:279 | a decoded value re-encodes to the very string it came from |
| Serial.UnserializeSerialize | lib/clone-db.php:301 | decoding the encoding of any value gives that value back |
| Serial.Decode | lib/clone-db.php:279 | the value decoded from a serialised string re-encodes to that string |
| Rewrite.Replace | lib/clone-db.php:230-239 | a non-string is returned unchanged; a string is skipped exactly when `to` occurs in it at an index above 0, and otherwise goes through `str_replace` |
| Rewrite.ReplaceGuardAtStart | lib/clone-db.php:233-235 | "ab/c" with pair a to ab becomes "abb/c" although it already holds "ab"; "/ab/c" is left alone |
| Rewrite.ReplaceAsDocumented | lib/clone-db.php:221-239 | the documented `replace`: a non-string is unchanged, a string holding `to` anywhere is unchanged, any other string goes through `str_replace` |
| Rewrite.ReplaceVersusDocumented | lib/clone-db.php:223-235 | the code and its documentation agree on every value except a string that starts with `to`, which the code rewrites and the documentation leaves alone |
| Rewrite.ReplaceInert | lib/clone-db.php:230-239 | a string without `from`, or a pair whose two strings are equal or whose `from` is empty, leaves the value unchanged |
| Rewrite.TryReplace | lib/clone-db.php:276-317 | a string field stays a string; one that passes WordPress's test but does not decode is left as it is; one that fails the test goes through `replace`; null, booleans and integers come back unchanged; an array goes through `replace_recursive` and keeps its keys |
| Rewrite.RewriteDecoded | lib/clone-db.php:287-299 | a decoded array keeps its keys in order; any other decoded value goes through `replace` |
| Rewrite.ReplaceRecursive | lib/clone-db.php:249-265 | arrays map to arrays with the same keys in the same order; any other value goes through `replace` |
| Rewrite.RewriteEntries | lib/clone-db.php:252-254 | the element loop keeps the array's length and each entry's key |
| Rewrite.RewriteEntriesElementwise | lib/clone-db.php:252-254 | entry k of the result is entry k's key with `try_replace` of entry k's value |
| Rewrite.ReplaceRecursiveArray | lib/clone-db.php:249-255 | on an array, same length and keys, and each value rewritten by `try_replace` |
| Rewrite.TryReplacePlain | lib/clone-db.php:277-315 | a field that does not decode and fails WordPress's test is treated exactly as `replace` treats it, including the guard; one that passes the test but does not decode is left as it is |
| Rewrite.TryReplaceFieldAsWritten | lib/clone-db.php:277-306 | `try_replace` of a field as the code runs it: text that passes WordPress's test but does not decode becomes "b:0;"; text that fails the test goes through `replace` |
| Rewrite.TryReplaceVersusAsWritten | lib/clone-db.php:277-306 | the code and the model agree on every field that fails WordPress's test and on every decodable field whose decoded string is not itself undecodable-but-accepted; on accepted text that does not decode the code writes "b:0;" and the model keeps the field |
| Rewrite.MalformedFieldOverwritten | lib/clone-db.php:277-301 | a string field whose length header overstates its length, such as `s:9:"http://a";`, is overwritten with "b:0;" by the code and kept by the model |
| Rewrite.FloatFieldKept | lib/clone-db.php:277-301 | an array field whose first value is a float passes WordPress's test but is not read, and the model keeps it unchanged |
| Serial.SerializedLooks | lib/clone-db.php:277 | every encoding `serialize` writes passes WordPress's `is_serialized` test |
| Serial.DecodableLooks | lib/clone-db.php:277-279 | whatever the parser reads passes WordPress's test, so the test only lets through more, never less |
| Serial.LongHeaderUnread | lib/clone-db.php:277-279 | a string encoding whose header overstates its length passes WordPress's test and is not read |
| Serial.FloatEntryUnread | lib/clone-db.php:277-279 | an array encoding whose first value is a float passes WordPress's test and is not read |
| Rewrite.TryReplaceSingle | lib/clone-db.php:277-301 | a singly serialised field comes back as the encoding of the rewritten decoded value, and decodes to that value |
| Rewrite.TryReplaceDouble | lib/clone-db.php:277-306 | a doubly serialised field is encoded twice after rewriting, and decoding it twice gives the rewritten value |
| Rewrite.TryReplaceDoubleOf | lib/clone-db.php:277-306 | for every value v, the field holding serialize(serialize(v)) becomes serialize(serialize(v rewritten)): double serialisation survives the rewrite |
| Rewrite.TryReplaceInert | lib/clone-db.php:276-317 | when the pair is harmless for a value's encoding, `try_replace` returns the value unchanged at every depth |
| Rewrite.TryReplaceStrInert | lib/clone-db.php:277-315 | a field in which the pair is harmless comes back unchanged, whether it is serialised once, twice or not at all |
| TableUpdate.RewriteField | lib/clone-db.php:211-212 | the new value of a field that fails WordPress's test is `replace` of it; a field that passes the test but does not decode is unchanged; a field in which the pair is harmless is unchanged |
| TableUpdate.SelectLike | lib/clone-db.php:204-205 | the selected values are exactly the column values that contain `from`, each taken from some row |
| TableUpdate.UpdateWhere | lib/clone-db.php:213-214 | rows whose field equals the old value get the new value there; every other row and column is untouched; no row is added or lost |
| TableUpdate.ApplyUpdates | lib/clone-db.php:210-215 | after the statements run in order, each row's field is its old value chased through them, and all other cells are untouched |
| TableUpdate.ChaseUnselected | lib/clone-db.php:210-215 | a value that no statement selected is never rewritten |
| TableUpdate.ChaseNoChaining | lib/clone-db.php:210-215 | when no rewritten value is itself among the selected values, each selected value ends as its own rewrite and the others stay |
| TableUpdate.UpdateColumn | lib/clone-db.php:199-216 | one field's pass keeps the row count and each row's columns, and changes no other column |
| TableUpdate.UpdateColumnRows | lib/clone-db.php:204-215 | rows whose field lacks `from` are untouched; without chaining, every row's field ends as `try_replace` of its old value |
| TableUpdate.Update | lib/clone-db.php:194-219 | `update` keeps the row count and every row's columns, and changes no column outside the given fields |
| TableUpdate.SelectLikeAgree | lib/clone-db.php:204-205 | the SELECT on a field depends only on that field's cells |
| TableUpdate.UpdateColumnAgree | lib/clone-db.php:199-216 | one field's pass maps tables that agree on that field to tables that agree on it |
| TableUpdate.UpdateColumnOther | lib/clone-db.php:199-216 | the pass over one field leaves every other field's cells as they were |
| TableUpdate.UpdateAgreeAbsent | lib/clone-db.php:194-219 | a field that is not listed keeps every cell through `update` |
| TableUpdate.UpdateAgreeOnce | lib/clone-db.php:194-219 | with distinct field names, a listed field ends exactly as its own pass alone leaves it, whatever the passes over the other fields did |
| TableUpdate.UpdateRewritesField | lib/clone-db.php:194-219 | a cell that lacks `from` is kept; without chaining among that field's selected values, every cell of a listed field ends as `try_replace` of its old value |
| TableUpdate.ExampleField | lib/clone-db.php:211-212 | "http://a/x" with pair http://a to http://b becomes "http://b/x" |
| TableUpdate.UpdateExample | lib/clone-db.php:194-219 | a one-row table whose `guid` is "http://a/x" ends with "http://b/x" |
| TableUpdate.UpdateOnPhp8 | lib/clone-db.php:207-212 | under PHP 8 `update` fails exactly when some listed cell contains `from` (the first non-static `try_replace` call throws), and otherwise changes nothing |
| TableUpdate.UpdateOnPhp8Example | lib/clone-db.php:207-212 | the one-row table above fails under PHP 8, while the intended `update` changes it |
| TableUpdate.UpdateUnmatchedRows | lib/clone-db.php:199-216 | a row in which no listed field contains `from` comes out of `update` unchanged |
| TableUpdate.UpdateColumnSamePair | lib/clone-db.php:199-216 | one field's pass with a pair whose two strings are equal leaves the table as it was |
| TableUpdate.UpdateSamePair | lib/clone-db.php:194-219 | a pair whose search string equals its replacement leaves the table as it was |
| CloneTables.ShortName | lib/clone-db.php:74 | the short name is what follows the first n characters, and empty when the name is shorter |
| CloneTables.DestNameShort | lib/clone-db.php:74-75 | a destination name carries the destination prefix, and stripping it gives back the source's short name |
| CloneTables.DestNameInjective | lib/clone-db.php:74-75 | two source tables with the source prefix get the same destination only if they are the same table |
| CloneTables.PrimaryTables | lib/clone-db.php:103-111 | one table per configured name, in order, each starting with the prefix and shortening back to the configured name |
| CloneTables.WithPrefix | lib/clone-db.php:66-67 | the listed tables kept are exactly those whose name starts with the prefix |
| CloneTables.SourceTables | lib/clone-db.php:62-68 | the primary site copies its configured list; any other site copies exactly its prefixed tables in the schema |
| CloneTables.AddKey | lib/clone-db.php:76 | recording a short name adds exactly that name and keeps the recorded names distinct |
| CloneTables.CopyOne | lib/clone-db.php:78-85 | drop, create and insert succeed exactly when the source exists and is not the destination, and make the destination a copy of the source |
| CloneTables.CopyTablesOk | lib/clone-db.php:72-87 | the copy loop succeeds exactly when every source table exists |
| CloneTables.CopyTablesKeys | lib/clone-db.php:72-87 | after the loop, the tables are the old ones plus one destination per source |
| CloneTables.CopyTablesDest | lib/clone-db.php:72-87 | each destination table equals its source table as it was before the loop |
| CloneTables.CopyTablesOthers | lib/clone-db.php:72-87 | every table that is not a destination is unchanged, the sources included |
| CloneTables.CopyTablesNewTables | lib/clone-db.php:70-87 | the recorded list is the sources' short names in order |
| CloneTables.CopyTablesSpec | lib/clone-db.php:70-87 | all of the above for a run that starts with an empty record |
| SavedOptions.ReadOption | lib/clone-db.php:51 | `get_blog_option` reads nothing exactly when no row stores the name, and otherwise the text of a row storing it |
| SavedOptions.ReadFrame | lib/clone-db.php:51 | two tables that agree on the rows storing a name read that name alike |
| SavedOptions.WriteOption | lib/clone-db.php:180 | after `update_option` the name reads the new text, every other name reads as before, and at most one row is added |
| SavedOptions.RestoreOneRead | lib/clone-db.php:179-181 | one restore makes its name read the saved text, or, saved as `false`, empty when it exists and absent otherwise; other names read as before |
| SavedOptions.Snapshot | lib/clone-db.php:47-56 | with preservation on, the snapshot holds exactly the declared names, in order, each with what the destination's table read for it; off, it is empty |
| SavedOptions.RestoreRowsRead | lib/clone-db.php:175-184 | after the restore, each saved name reads its saved text (or, saved as absent, absent or empty) |
| SavedOptions.RestoreRowsOther | lib/clone-db.php:175-184 | a name that is not saved reads after the restore as before it |
| SavedOptions.RestoreRowsEmpty | lib/clone-db.php:55 | with preservation off nothing is restored |
| SavedOptions.RestoreRowsTwice | lib/clone-db.php:89 | restoring the same snapshot a second time changes no option's reading |
| SavedOptions.SavedOptionsSurvive | lib/clone-db.php:47-91 | whatever table the clone leaves, after the restore each declared option reads its pre-clone text, or absent or empty if it had none; other options read as the clone left them; with preservation off the table stands |
| SavedOptions.RestoreDb | lib/clone-db.php:175-184 | the restore touches only the option table, and only its rows |
| CloneDb.Put | lib/clone-db.php:150-154 | assigning a key keeps existing positions, gives the key its new value, appends a new key at the end, and keeps keys distinct |
| CloneDb.Lookup | lib/clone-db.php:150-156 | a key reads nothing exactly when no pair has it, and otherwise the value of a pair with that key |
| CloneDb.LookupPut | lib/clone-db.php:150-154 | after assigning a key it reads the new value and every other key reads as before |
| CloneDb.LastIndex | lib/clone-db.php:156 | the position of a pair with the key after which no pair has that key |
| CloneDb.LastAssigned | lib/clone-db.php:156 | the value of the last pair with the key |
| CloneDb.PutAll | lib/clone-db.php:156 | after the hook's assignments each assigned key reads its last assigned value, every other key reads as before, the existing keys keep their places and the new keys follow in the order they were first assigned |
| CloneDb.BuildPairsOrder | lib/clone-db.php:150-156 | the pairs have distinct keys, and come first as upload URL, blog URL, prefix when those differ, with their own replacements unless the hook reassigned them |
| CloneDb.ColumnLists | lib/clone-db.php:141-148 | fails exactly when a recorded destination table is missing; otherwise each short name goes with its destination's columns, in order |
| CloneDb.CallsFor | lib/clone-db.php:159-161 | one `update` call per pair, in pair order, all on the same table and fields |
| CloneDb.ScheduleTargets | lib/clone-db.php:158-162 | every scheduled call targets a recorded table under the destination prefix, with that table's columns |
| CloneDb.ScheduleLength | lib/clone-db.php:158-162 | there is one call per recorded table and pair |
| CloneDb.ScheduleAt | lib/clone-db.php:158-162 | tables in order and, within a table, pairs in order: call i·n+j (n pairs) is table i with pair j |
| CloneDb.RunCalls | lib/clone-db.php:158-162 | the calls succeed when every target table exists; each table's rows are then its rows through the calls that name it, in order, with columns and row count kept; tables no call names are untouched |
| CloneDb.PassPairs | lib/clone-db.php:159-161 | running every pair on one table keeps its row count and every row's columns |
| CloneDb.PassPairsUnmatched | lib/clone-db.php:159-161 | a row in which no listed field contains the `from` of any pair comes out of the whole pass unchanged |
| CloneDb.UpdatesOnCallsFor | lib/clone-db.php:159-161 | a table's calls give it every pair in order and leave other tables alone |
| CloneDb.UpdatesOnScheduleNamed | lib/clone-db.php:158-162 | under the schedule, a recorded table gets exactly its own pass over every pair, in order |
| CloneDb.UpdatesOnScheduleUnnamed | lib/clone-db.php:158-162 | a table the schedule does not name keeps its rows |
| CloneDb.UpdateDataSpec | lib/clone-db.php:139-162 | the update pass succeeds on the copied tables, keeps their shape, and touches no table outside them |
| CloneDb.UpdateDataRows | lib/clone-db.php:139-162 | each recorded table ends as its rows put through every pair, in order, over all its columns |
| CloneDb.ShortsDistinct | lib/clone-db.php:72-76 | the recorded short names are distinct |
| CloneDb.CopyTablesGrows | lib/clone-db.php:72-87 | the copy loop never removes a table |
| CloneDb.DbCopyTablesSpec | lib/clone-db.php:34-92 | the copy phase succeeds exactly when every source exists; the snapshot is read from the destination's option table before the copy; each destination equals its source and the other tables stay, apart from the restore of the option table; the short names are recorded in order |
| CloneDb.DbUpdateDataSpec | lib/clone-db.php:121-165 | when every recorded destination exists, the update phase succeeds, keeps each table's columns and the row count of every table but the option table, and leaves the tables outside the recorded ones as they were, apart from the second restore |
| CloneDb.DbUpdateDataRows | lib/clone-db.php:121-165 | each recorded table ends as its rows through every pair, with the snapshot restored on top when it is the option table |
| CloneDb.CopyDataKeys | lib/clone-db.php:16-26 | a clone whose copy succeeds succeeds, and holds the old tables plus one destination per source |
| CloneDb.CopyDataDest | lib/clone-db.php:16-26 | a destination table holds its source's columns and its source's rows through every pair in order, with the snapshot restored before and after when it is the option table |
| CloneDb.CopyDataOther | lib/clone-db.php:16-26 | a table that is not a destination is as before, apart from the two restores of the option table |
| CloneDb.CopyDataTables | lib/clone-db.php:16-26 | a clone succeeds exactly when every source table exists; then every destination and every other table is as the two lemmas above state |
| CloneDb.CopyDataOptions | lib/clone-db.php:16-26 | after a clone with preservation on, each declared option that existed before reads its pre-clone text, and one that did not is absent or empty |
| CloneDb.CopyDataUnpreserved | lib/clone-db.php:16-26 | with preservation off, every destination, the option table included, holds its source's rows through every pair, and every other table is unchanged |

## Left out

- SQL text, `prepare`, `esc_like` and the `do_sql_query` wrapper (lines 327-359) are not modelled as text. Each statement is modelled by its effect on the table map.
- `sql_error` (lines 367-379) logs, prints, removes the new site and stops. The model stops with `Err` and does not model the site removal.
- Logging (`MUCD_Log`) is left out.
- The schema listing from `INFORMATION_SCHEMA` (line 66) is an input sequence.
- `MUCD_Option::get_primary_tables_to_copy` (line 105) is an input sequence.
- `MUCD_Option::get_saved_option` (line 49) is an input sequence of distinct names. `lib/option.php` is not part of this model.
- The URLs and prefixes that `switch_to_blog`, `wp_upload_dir`, `get_bloginfo` and `get_blog_option` produce (lines 125-137) are inputs of `CopyData`.
- The WordPress option API (`get_blog_option`, `update_option`) is modelled as reading and writing the `option_value` text of the rows of `options` under the destination prefix. Its object cache, `maybe_serialize`/`maybe_unserialize`, autoload flags and hooks are not modelled; a saved value is written back as the text it was read as.
- CopyDataTables: only a missing table is modelled as an SQL failure (`CloneError` has that one case). Other statement failures that `sql_error` would handle, such as strict-mode or unique-key errors, are not modelled, so "succeeds exactly when every source table exists" holds only for databases that raise no other error.
- SelectLike: MySQL `LIKE` is case-insensitive under the usual collations. The model matches substrings exactly.
- PutAll: the `mucd_string_to_replace` filter may return any array. The model only lets it assign pairs, so it cannot drop or reorder the built-in ones.
- PHP's conversion of numeric-string array keys to integers is not modelled. The replacement keys are URLs and prefixes, which are not numeric.
- TryReplace: the object branch (lines 290-296) is not modelled. The value model has no objects, and that branch writes to `$row[$field]` for other keys, so it does not keep the decoded object.
- Unserialize: the parser is the exact inverse of the model's `serialize`, not of PHP's `unserialize`, which differs on four kinds of input. (1) Duplicate keys: PHP keeps one entry per key, the later value winning, so `a:2:{i:0;s:1:"x";i:0;s:8:"http://a";}` is written back as a one-entry array; the model keeps both entries. (2) Numeric-string keys: PHP turns the key `s:1:"5"` into the integer key 5 and writes back `i:5;`; the model keeps the string key. (3) Integers outside 64 bits: PHP clamps them to PHP_INT_MAX or PHP_INT_MIN; the model reads them unbounded. (4) Bytes after a complete value: PHP decodes the value, drops the tail and rewrites the URLs inside; the model does not decode such a field and leaves it as it is.
- Parse: reads arrays with duplicate keys and with numeric-string keys as they are written, where PHP's `unserialize` merges the duplicates and converts the keys to integers (see the Unserialize line).
- Decode: inherits the four differences on the Unserialize line; on those inputs the value it returns is not the one PHP's `unserialize` returns.
- ReadInt: unbounded; PHP's `unserialize` clamps an `i:` value outside 64 bits to PHP_INT_MAX or PHP_INT_MIN.
- Floats, objects and references in the serialize format are not modelled, and the parser reads only canonical integers and lengths. PHP decodes such fields and rewrites the strings inside them; the model leaves the whole field as it is (`FloatFieldKept`), so URLs inside it are not rewritten.
- IsSerialized: WordPress's `is_serialized` is modelled by `LooksSerialized` in strict mode, without the trimming of surrounding whitespace; `@unserialize` is the strict parser. When the test accepts a field that does not decode, the code writes "b:0;" over it (see Findings); the model leaves the field untouched, as an unreadable value should be. At the second level, a decoded string that passes the test but does not decode is rewritten by the model as plain text and encoded once, where the code would write the encoding of "b:0;".
- ShortName: follows PHP 8 `substr`, which returns `""` past the end. PHP 7's `false` is not modelled.
- CopyDataTables: proved only for well-formed source lists. These are distinct, carry the source prefix, and no destination name equals a source name. Otherwise a drop can remove a source before it is read. `CopyData` itself has no such precondition.
- UpdateColumnRows: the per-row statement that each field ends as its own `try_replace` holds only without chaining. Chaining happens when a rewritten value equals another selected value. With chaining, `ApplyUpdates` states the exact result through `Chase`.
- A `char` stands for one byte. PHP's `strlen`, `strpos`, `substr` and the serialize length headers count bytes; multi-byte UTF-8 text is not modelled as such.
- UpdateWhere: MySQL `=` compares under the column's collation, which ignores case and trailing spaces under the usual ones. The model compares exactly.
- RunCalls: the SELECT in `update` (line 204) has no ORDER BY. The model fixes the row order, which decides the outcome when one rewritten value equals another selected one (chaining).
- The object branch of `try_replace` and the PHP 8 failure of its non-static calls are covered under Findings and the TryReplace line above; the rest of the model uses the intended static call.

## Findings

| source | as written | input that shows it | evidently intended | confidence | as-written member | corrected member |
|---|---|---|---|---|---|---|
| lib/clone-db.php:233-234 | `false == strpos($val, $to_string)` also holds when the replacement sits at index 0, so such a value is rewritten again | "ab/c" with pair a to ab becomes "abb/c" | no replacement when `$to_string` is already in the value (line 223) | medium, not executed | Rewrite.ReplaceGuardAtStart | Rewrite.ReplaceAsDocumented |
| lib/clone-db.php:277-301 | `is_serialized` accepts the field, `@unserialize` returns `false` on it, `replace(false)` keeps `false`, and `serialize(false)` is written back | the field `s:9:"http://a";` (length header off by one), pair http://a to http://b, becomes "b:0;" | a field that cannot be decoded is left as it is | high, not executed | Rewrite.MalformedFieldOverwritten | Rewrite.TryReplace |
| lib/clone-db.php:212 | `self::try_replace(...)` calls a method not declared `static` (line 276); PHP 8 throws an Error there | a table whose `guid` is "http://a/x", pair http://a to http://b | the static call that rewrites the cell | high under PHP 8, not executed | TableUpdate.UpdateOnPhp8Example | TableUpdate.UpdateRewritesField |
