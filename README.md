# HandyModel in Dafny

This project models `HandyModel`, a PHP Active-Record base class.

An entity keeps the row it was loaded from twice:
- `data` is the live copy that `get`, `set`, `setEscaped` and `notEmpty` work on;
- `originalData` is a snapshot that `save()` compares against.

`save()` sends one `UPDATE` of the changed non-id columns, pinned to the current id. `delete()` sends a `DELETE`. The static operations of a model class build their own statements:
- `lookup`, `lookupRandom`, `lookupEach` and `count` build `SELECT`s;
- `lookupByID` builds a prepared `SELECT`;
- `deleteByID` builds a `SELECT` as well (see below);
- `create` builds a prepared `INSERT ... SET col= ?` with its type string and bound values.

A filter is tested with PHP's truthiness: an absent filter, "" and "0" all count as no filter (`Sql.Given`).

Modules:
- `Scalars`: PHP scalar values; their string form; `empty()`; the `(int)` cast of a string, saturated to the 64-bit range. A string stands for UTF-8 text, and `strlen` is the byte length of its encoding (`ByteLength`).
- `Rows`: a row object, or a PHP array with keys, as an ordered sequence of (key, value) pairs. Reading a missing property gives null. Assigning (`Put`) keeps an existing key's place and appends a new one.
- `Database`: the connection, a class whose `log` records every statement sent, in order. Three things are fixed per connection and otherwise left open: the server's answer to a statement given every statement sent before it, whether a statement prepares, and `real_escape_string`.
- `SqlText`: back-quoting, `rtrim`, `strtoupper`, `substr` and joined lists.
- `Sql`: the statement texts as pure reference definitions. It also holds the two string-building loops as methods proved against those definitions: `UpdateStatement` for `save()` and `InsertStatement` for `create()`. The lemmas about the texts live here too.
- `HandyModel`: the class `Entity` (fields `data` and `originalData`) and the static operations as methods over a `Connection`.

Where the code and its documentation differ, the model follows the code:
- `delete()` does not check the id: an entity without one still sends `DELETE ... WHERE `id` = '' LIMIT 1` (`Sql.DeleteWithoutId`).
- `deleteByID()` sends a `SELECT`, not a `DELETE`, and hands back the raw answer (`Sql.DeleteByIdSelects`, `HandyModel.DeleteById`).
- The "any change" test of `save()` is `array_diff_assoc`, and it includes the id column. The column test of the loop excludes the id. So changing only the id makes `save()` send an `UPDATE` whose `SET` list is empty (`Sql.OnlyIdChangedUpdate`).
- `save()` never refreshes the snapshot, so every later `save()` without an intervening change sends the same `UPDATE` again (`HandyModel.SaveTwice`).

## Model

| member | source | states |
|---|---|---|
| Scalars.IntTextRoundTrip | src/HandyModel.php:276-285 | Casting the string form of an integer back with `(int)` gives that integer. |
| Scalars.AsciiByteLength | src/HandyModel.php:384 | For ASCII text, `strlen` equals the number of characters. |
| Scalars.TwoByteLength | src/HandyModel.php:384 | Text of characters from U+0080 to U+07FF has two bytes per character. |
| Scalars.EmptyMatchesText | src/HandyModel.php:171-174 | Apart from floats, `empty()` holds exactly when the string form is "" or "0". |
| Rows.Get | src/HandyModel.php:124-127 | Reading a property gives its value when the row has it, and null otherwise. |
| Rows.SetColumn | src/HandyModel.php:141 | After assigning a property, it reads as the new value and every other property reads as before. An existing property keeps its place; a new one is appended. Rows without repeated names keep that. |
| Rows.SetAllGet | src/HandyModel.php:136-138 | After assigning an array, each of its names reads as the array gives it and every other name reads as before. |
| Database.Connection.Run | src/HandyModel.php:78 | Sending a statement appends it to the log and returns the connection's answer to it. |
| SqlText.RTrim | src/HandyModel.php:73 | `rtrim` leaves a prefix that ends in a kept character, and only trimmed characters follow it. |
| SqlText.TrimmedList | src/HandyModel.php:58-73 | A list built as items each followed by ", ", once trimmed, is the items joined by ", ". With no items nothing is left after the lead. |
| Sql.UpdateStatement | src/HandyModel.php:58-76 | The loop, the trim and the id condition build exactly the reference `UPDATE` text. |
| Sql.UpdateTrimmed | src/HandyModel.php:73-76 | Trimming the built `SET` list and appending the id condition gives the reference `UPDATE`. |
| Sql.ChangedMember | src/HandyModel.php:60-67 | An entry is in the `SET` list exactly when it is in `data`, is not the id, and differs from the snapshot's value (null when the snapshot lacks it). |
| Sql.ChangedInOrder | src/HandyModel.php:60-69 | The `SET` list keeps the order of `data`. |
| Sql.DiffMember | src/HandyModel.php:53 | An entry is in the diff exactly when it is in `data` and the snapshot does not hold it under that name with that value. |
| Sql.DiffVersusChanged | src/HandyModel.php:53-63 | Every `SET` entry is in the diff. A diff entry that is not in the `SET` list is the id, or a new property whose value is null. |
| Sql.ChangedAfterSet | src/HandyModel.php:53-69 | After one assignment to a freshly loaded row, the `SET` list is that column when its value changed, and empty otherwise. |
| Sql.UnchangedSendsNothing | src/HandyModel.php:40-56 | An entity saved as it was loaded, with no name repeated, is refused without a table name or an id, and otherwise has nothing to save; it never sends an `UPDATE`. |
| Sql.SingleChangeUpdate | src/HandyModel.php:58-76 | Changing one non-id column and saving sends the `UPDATE` of that column alone, pinned to the unchanged id. |
| Sql.OnlyIdChangedUpdate | src/HandyModel.php:53-76 | Changing only the id and saving sends an `UPDATE` with an empty `SET` list, pinned to the new id. |
| Sql.DeleteWithoutId | src/HandyModel.php:47-50 | Without an id, `save()` refuses but `delete()` builds its statement anyway, with an empty id. |
| Sql.RandomLookupSql | src/HandyModel.php:257-266 | `lookupRandom` always filters, by the caller's condition or by 1=1, ordered by RAND(), one row. |
| Sql.OrderByTest | src/HandyModel.php:306 | The `ORDER BY` test holds exactly when the first eight characters, upper-cased, spell "ORDER BY". |
| Sql.LookupEachClause | src/HandyModel.php:301-312 | With no filter nothing is added. An `ORDER BY` filter is appended as it is. Any other filter gets `WHERE` first. |
| Sql.CountResult | src/HandyModel.php:356-369 | `count()` gives the first row's non-null `count` column, or nothing when there is no first row or no such value. |
| Sql.DeleteByIdSelects | src/HandyModel.php:275-285 | `deleteByID` builds a `SELECT`, never a `DELETE`: the text starts with ``SELECT * FROM ` `` and the table. Between the quotes stands a decimal numeral that reads back as the cast id. |
| Sql.KeyByIdKeys | src/HandyModel.php:322-326 | The keys of `lookupEach`'s keyed array are exactly the ids of the rows, each once; no rows give an empty array. |
| Sql.KeyByIdLastWins | src/HandyModel.php:322-326 | Each key holds the last row with that id. |
| Sql.KeyByIdOrder | src/HandyModel.php:322-326 | The keys stand in the order of the first row with each id. |
| Sql.BindTypeChecksInOrder | src/HandyModel.php:381-386 | Integers get 'i' and floats 'd', whatever their length. Strings of more than 255 bytes get 'b', other strings 's'. Null and booleans get nothing. |
| Sql.BindLetter | src/HandyModel.php:381-386 | The corrected letter is one of "idbs". It agrees with `getBindType` wherever that returns a letter, and is 's' elsewhere. |
| Sql.BindLetterCountsBytes | src/HandyModel.php:384 | The 255 counts bytes: 128 two-byte characters make a blob, 255 ASCII characters a plain string. |
| Sql.TypesAsWrittenAligned | src/HandyModel.php:402-408 | The type string as written has one letter per value exactly when every value is an integer, a float or a string. It is never longer than the values. |
| Sql.NullPropertyMisaligned | src/HandyModel.php:402-408 | A null property gives `create()` one bound value and an empty type string. |
| Sql.InsertColumnMember | src/HandyModel.php:402-406 | An entry is inserted exactly when it is in the properties and is not the id. |
| Sql.InsertColumnsInOrder | src/HandyModel.php:402-406 | The inserted columns keep the order of the properties. |
| Sql.InsertStatement | src/HandyModel.php:401-409 | The loop and the trim build the reference `INSERT`. The values are the non-id values in order, with exactly one type letter per value. |
| Sql.InsertTrimmed | src/HandyModel.php:409 | Trimming the built placeholder list gives the reference `INSERT`. |
| Sql.CreateExample | src/HandyModel.php:401-409 | Properties id, name and age give "INSERT INTO `users` SET `name`= ?, `age`= ?" with types "si" and the two values. |
| HandyModel.Entity.constructor | src/HandyModel.php:15-19 | The live data and the snapshot both equal the loaded row. A row that repeats no name gives a valid entity: neither copy repeats a name. |
| HandyModel.Entity.Get | src/HandyModel.php:124-127 | `get` reads the live data: the value when present, null otherwise. |
| HandyModel.Entity.NotEmpty | src/HandyModel.php:171-174 | A property that is not empty is present in the live data. |
| HandyModel.NotEmptyText | src/HandyModel.php:171-174 | Apart from floats, a property is not empty exactly when its string form is neither "" nor "0". |
| HandyModel.Entity.Set | src/HandyModel.php:139-144 | Only `data` changes: the property reads as the value, the others as before. The snapshot is untouched, and the result is true. Validity is kept. |
| HandyModel.Entity.SetMany | src/HandyModel.php:134-144 | The array's entries are assigned in order; each name reads as the array gives it. The snapshot is untouched, and the result is true. Validity is kept. |
| HandyModel.Entity.SetEscaped | src/HandyModel.php:159-164 | The property reads as the escaped string form of the value. The snapshot is untouched, and the result is true. Validity is kept. |
| HandyModel.Entity.SetManyEscaped | src/HandyModel.php:153-164 | Each name of the array reads as its escaped string form and other names as before. The snapshot is untouched. Validity is kept. |
| HandyModel.EscapedGet | src/HandyModel.php:155-157 | The escaped array has the same names as the original, each read as its escaped value. |
| HandyModel.Entity.Save | src/HandyModel.php:33-88 | Without a table name or an id: false, nothing sent. With an empty diff: true, nothing sent. Otherwise exactly the reference `UPDATE` is sent and its success is the result. `data` and `originalData` are unchanged. A valid entity saved as loaded sends nothing, and succeeds exactly when it has a table name and an id. |
| HandyModel.SaveTwice | src/HandyModel.php:33-88 | A second `save()` without changes sends the identical `UPDATE` again. Each result is the server's answer to its own copy, given everything sent before it. |
| HandyModel.Entity.Delete | src/HandyModel.php:94-117 | Without a table name: false, nothing sent. Otherwise exactly the `DELETE` is sent (with spaces around `=`) and its success is the result. |
| HandyModel.Lookup | src/HandyModel.php:185-211 | Exactly the `SELECT` is sent. The result is a new entity holding the first row, or nothing when there is none. |
| HandyModel.LookupRandom | src/HandyModel.php:257-266 | The `SELECT` filtered by the condition or by 1=1, ordered by RAND(), one row, is sent; the result is as for `lookup`. |
| HandyModel.LookupById | src/HandyModel.php:226-251 | A statement that does not prepare gives the exception and sends nothing. Otherwise the prepared `SELECT` with the id cast to an integer is sent, giving a new entity of the first row or false. |
| HandyModel.DeleteById | src/HandyModel.php:273-289 | Exactly the `SELECT` of `deleteByID` is sent, and its raw answer is the result. |
| HandyModel.LookupEach | src/HandyModel.php:296-334 | Exactly the `SELECT` is sent. The result is the keyed array of the rows: one new entity per distinct id, in the order of the ids' first rows, each holding the last row with its id; no rows give an empty array. |
| HandyModel.Count | src/HandyModel.php:341-370 | Exactly the `COUNT(*)` statement is sent, and the result is its `count` value or nothing. |
| HandyModel.Create | src/HandyModel.php:394-439 | An `INSERT` that does not prepare gives the exception and sends nothing. Otherwise the prepared `INSERT` is sent and the new row is reloaded by its generated id. When that reload finds nothing or does not prepare, the result is false. |

Definitions the rows above are stated over (their properties are the rows' lemmas and contracts):
- `Scalars.IsEmpty` (src/HandyModel.php:43-48, src/HandyModel.php:103, src/HandyModel.php:173): PHP's `empty()`, true for 0, "", "0", false and null.
- `Scalars.Text` (src/HandyModel.php:66, src/HandyModel.php:76, src/HandyModel.php:108, src/HandyModel.php:156-161): PHP's `(string)` conversion, which decides what is escaped and what stands between the quotes.
- `Scalars.LeadingInt`, `Scalars.ToInt` (src/HandyModel.php:228, src/HandyModel.php:276): the `(int)` cast.
- `Scalars.ByteLength` (src/HandyModel.php:384): `strlen`, the UTF-8 byte count, between one and four bytes per character.
- `Rows.Put`, `Rows.SetAll` (src/HandyModel.php:136-141, src/HandyModel.php:325): assigning one key, and the keys of an array in order.
- `Database.Succeeded` (src/HandyModel.php:78, src/HandyModel.php:111): the truthiness of a query's result; only a failure is false.
- `Database.InsertId` (src/HandyModel.php:418-420): `$stmt->insert_id`, 0 when no id was generated; `create()` reloads by it all the same.
- `Database.FirstRow`, `Database.AllRows` (src/HandyModel.php:200-202, src/HandyModel.php:322-326): the first row of a result set, and all of its rows.
- `SqlText.Upper`, `SqlText.Prefix` (src/HandyModel.php:306): `strtoupper` on ASCII letters and `substr($s, 0, n)`.
- `Sql.Given` (src/HandyModel.php:190, src/HandyModel.php:261, src/HandyModel.php:304, src/HandyModel.php:349): the truthiness of a filter; an absent filter, "" and "0" all count as no filter.
- `Sql.RandomFilter` (src/HandyModel.php:261-265): the filter `lookupRandom` hands to `lookup`.
- `Sql.IsOrderBy` (src/HandyModel.php:306): `strtoupper(substr($w, 0, 8)) == 'ORDER BY'`.
- `Sql.PlanSave` (src/HandyModel.php:40-56): the three outcomes of `save()`.
- `Sql.DiffAssoc` (src/HandyModel.php:53): `array_diff_assoc` of the live data against the snapshot.
- `Sql.Changed` (src/HandyModel.php:60-69): the non-id columns whose value differs from the snapshot.
- `Sql.UpdateSql` (src/HandyModel.php:58-76): the `UPDATE` text.
- `Sql.DeleteSql` (src/HandyModel.php:108): the `DELETE` text.
- `Sql.LookupSql` (src/HandyModel.php:189-193), `Sql.LookupEachSql` (src/HandyModel.php:301-312), `Sql.CountSql` (src/HandyModel.php:346-350): the `SELECT` texts.
- `Sql.LookupByIdStatement` (src/HandyModel.php:228-235): the prepared `SELECT` with its type "s" and the cast id.
- `Sql.DeleteByIdSql` (src/HandyModel.php:276-285): the `SELECT` of `deleteByID`.
- `Sql.KeyById`, `Sql.FirstWithId` (src/HandyModel.php:322-326): the keyed array of rows, and the first row with a given id.
- `Sql.BindTypeAsWritten`, `Sql.InsertTypesAsWritten` (src/HandyModel.php:381-386, src/HandyModel.php:402-408): `getBindType` and the type string as written.
- `Sql.InsertSql`, `Sql.InsertTypes` (src/HandyModel.php:401-409): the `INSERT` text and its corrected type string.
- `Sql.InsertStatementOf` (src/HandyModel.php:401-413): the prepared `INSERT` with its type string and bound values.
- `Sql.EscapeValues` (src/HandyModel.php:155-157): an array with each value replaced by its escaped string form.

## Left out

- The connection registry `Handy::$db` / `Handy::$defaultDB` (src/HandyModel.php:445-454): every operation takes its connection as a parameter.
- Running statements: the server is a function fixed per connection. It maps each statement, given every statement sent before it, to an answer. Row contents, `num_rows`, `get_result` and `insert_id` follow from that answer. Other clients of the same database are not modelled.
- `real_escape_string`: a function fixed per connection and otherwise unconstrained. It has no effect on state.
- `cleanValue` (src/HandyModel.php:217-219): it only calls the escape function, which is a parameter here.
- PHP's loose `!=` in the save loop and the string comparison inside `array_diff_assoc`: both diff tests use plain equality of tagged values, so `1` and `"1"` count as different.
- Floats: a float is carried as its PHP string form. There is no float arithmetic, and `(int)` of a string in exponent form ("1e3") reads only the leading digits.
- The hooks `__extensionConstruct` and `__postCreate`, found by `method_exists`.
- `create`'s `error_log` and caught exceptions: a reload whose statement does not prepare is reduced to the `false` result.
- What the server does with `RAND()`.
- PHP array-key coercion in `lookupEach`: the keyed array compares ids as tagged values. PHP would turn "5" and 5 into the same key, and null into "".
- `TABLE_NAME` is always a string, so `empty($tableName)` holds for "" and "0".
- Strings that are not valid UTF-8: a PHP string is a sequence of bytes, while a string here is a sequence of Unicode characters whose `strlen` is their UTF-8 byte count.
- PHP 8 errors (a `TypeError` or `ArgumentCountError` from `bind_param`, `strlen` of a non-string) are not modelled.
- HandyModel.Create: uses the corrected type letters of `Sql.BindLetter`, not the letters `getBindType` returns (see Findings).

## Findings

| source | as written | input that shows it | evidently intended | confidence | as-written member | corrected member |
|---|---|---|---|---|---|---|
| src/HandyModel.php:381-386 | `getBindType` returns nothing for a null or a boolean, so `create()` appends no type letter while still appending the value to `$values` | `create(['name' => null])`: one value to bind, type string "" | one type letter per bound value (a string 's' for the remaining kinds) | not executed | Sql.NullPropertyMisaligned | Sql.InsertStatement |
