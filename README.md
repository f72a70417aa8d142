# DbTable row mapper, modelled in Dafny

`DbTable` is the abstract base class of a PHP application's record types. One object is
one row of one table.

- It connects lazily: one database handle per DSN, kept in the process-wide array `$aDB`.
- It loads its row lazily. A new row (id 0) gets the table's column defaults from `DESCRIBE`, cached per table name in `$describe_cache`. A stored row is selected by its primary key and cached per table and id in `$object_cache`.
- It tracks which columns were written (`modified`, `modified_fields`).
- `save` writes the row back with a generated `INSERT` or `UPDATE`, then refreshes the row cache.
- Beside these it has `destroy`, `truncate`, `commit`/`rollback`, a batch loader `loadArray` and a converter `convertToAssoc`.

The model has two layers.

- **`Lifecycle`** (lifecycle.dfy) is the state machine on values.
  - `Entity` is one object's state: id, readonly, loaded, modified, fields, and the marked columns in marking order.
  - `Caches` holds the two caches. `Env` holds the table, its primary-key column, whether the registered handle is usable, and its `quote`.
  - Every operation is a function returning a `Step`: the new state, the statements sent, and the return value.
  - The properties of the row mapper are proved as lemmas about these functions.
- **`Table`** (table.dfy) is the class `DbTable`.
  - Its fields are the PHP object's fields. It shares a `Registry` (database.dfy) holding `$aDB`, both caches and the primary-key configuration.
  - Each method is proved to change the object, the caches and the connection's statement log exactly as the matching `Lifecycle` function says. The loops of `setFields`, `save`'s statement builders (sql.dfy), `DESCRIBE`'s default loop, `loadArray` and `convertToAssoc` keep their loops.

The other modules:

- `Assoc` (assoc.dfy): PHP associative arrays as ordered sequences of unique keys.
- `Values` (values.dfy): column values (`Null` or a string), ids, and the part of PHP's `==` the class relies on.
- `Sql` (sql.dfy): the text of every statement.

The database itself is not modelled.

- A connection records the statements sent to it (`log`) and quotes with an uninterpreted function.
- What the database answers is a parameter of each operation: `LoadAnswers`, `SaveAnswers`, a failure flag, a `SelectAnswer`.
- So is the clock reading that `Date("Y-m-d H:i:s")` gives.
- A method called on the PEAR error object that a failed connection or query leaves behind stops PHP. The model returns `Fatal` at those points.
- A lazy load that stops PHP stops whatever called it: `initialize`, `getField`, `getAllFields`, `setField`, `setFields`, and the rest of `convertToAssoc`'s loop.

Where the documentation and the code differ, the model follows the code:

- `save` on a readonly object returns false.
- An id with no row makes `load` return `ERROR_IMPROPERUSE` and leaves the fields empty. It is not a fatal error or a separate not-found error.
- `save`'s no-op test looks at `modified`, while the UPDATE looks at the marks. So a loaded row that is modified but has no marks sends an UPDATE with an empty SET list (`Sql.UpdateWithNothingMarked`).
- `initialize` ignores what `connect` returns, and what `load` returns unless the load stops PHP.
- A lazy load that fails without stopping PHP is ignored: getField reads '' from the empty row, and the next read loads again (`Lifecycle.ReadRetriesFailedLoad`).
- A query error in `loadArray` is reported as `ERROR_DBCON`.
- `destroy` leaves both caches alone.
- The schema cache is keyed by table name only, across connections (`Lifecycle.DescribeCacheIgnoresConnection`).

## Model

| member | source | states |
|---|---|---|
| Values.IdOf | class.DbTable.php:357 | a key value that is a canonical decimal numeral denotes the id that prints back as that numeral; a value that is not a decimal numeral denotes id 0 (no id) |
| Values.ParseNatText | class.DbTable.php:568 | the id interpolated as text into the UPDATE's WHERE reads back as the same number |
| Values.NatTextParse | class.DbTable.php:591 | a canonical numeral read as an id and printed again is the same text |
| Values.NumericStart | class.DbTable.php:521 | a key `is_numeric` accepts starts, after its leading whitespace, with a digit, a sign or a point |
| Values.LetterKeyNotNumeric | class.DbTable.php:521 | a column name starting with a letter is never skipped as numeric |
| Values.DecimalIsNumeric | class.DbTable.php:521 | every decimal numeral, with or without a sign and leading whitespace, is numeric |
| Values.PointedIsNumeric | class.DbTable.php:521 | digits, a point and digits, with a digit on at least one side of the point, are numeric |
| Values.ExponentIsNumeric | class.DbTable.php:521 | a decimal integer, `e` and a decimal exponent are numeric |
| Values.HexIsNumeric | class.DbTable.php:521 | `0x` followed by hexadecimal digits is numeric |
| Values.CanonicalLooseEquals | class.DbTable.php:391 | PHP `!=` on two canonical numerals holds exactly when the texts differ |
| Assoc.Lookup | class.DbTable.php:241-245 | `$a[$k]` finds a value exactly when `array_key_exists($k, $a)` |
| Assoc.Put | class.DbTable.php:393 | after `$a[$k] = $v` the key holds `$v`, every other key reads as before, and keys stay unique |
| Assoc.KeysPut | class.DbTable.php:393 | writing an existing key keeps the key order; writing a new key appends it at the end |
| Sql.ChopSuffix | class.DbTable.php:531 | `ereg_replace(",$", "", s)` removes exactly one trailing separator when there is one and changes nothing otherwise |
| Sql.ChopTerminated | class.DbTable.php:524-531 | a list built by appending "item," and then chopped is the head followed by the items joined by commas |
| Sql.ColumnPiece | class.DbTable.php:521-526 | one turn of the column loop yields the escaped, backquoted key exactly when the entry is listed (non-numeric key, value other than null or '') and nothing otherwise |
| Sql.ValuePiece | class.DbTable.php:534-539 | one turn of the value loop yields the quoted value exactly when the entry is listed and nothing otherwise |
| Sql.AppendColumns | class.DbTable.php:519-528 | the column loop appends "`key`," for exactly the listed entries, in row order |
| Sql.AppendValues | class.DbTable.php:532-541 | the value loop appends "quoted," for exactly the listed entries, in row order |
| Sql.BuildInsert | class.DbTable.php:516-545 | the two loops and the two chops build exactly `INSERT INTO `t` (columns) VALUES (values)` over the listed entries |
| Sql.InsertListsAgree | class.DbTable.php:520-541 | the column list and the value list have the same length, and position i of each comes from the same entry of the row |
| Sql.InsertedFromRow | class.DbTable.php:520-541 | the entries an INSERT lists are entries of the row, in its order, each with a non-numeric key and a value other than null or '' that is the row's value for that key |
| Sql.InsertedKeys | class.DbTable.php:520-525 | a column is listed in the INSERT exactly when it is in the row, is not numeric, and holds a value other than null or '' |
| Sql.AssignmentPiece | class.DbTable.php:555-562 | one turn of the UPDATE loop yields "`key` = quoted", or "= NULL" for an empty quoted text, exactly when the key is non-numeric and marked, and nothing otherwise |
| Sql.BuildUpdate | class.DbTable.php:553-568 | the loop, the chop of ", " and the WHERE clause build exactly `UPDATE `t` SET assignments WHERE pk='id'` |
| Sql.UpdateAssignmentsAt | class.DbTable.php:554-563 | assignment i of the SET list sets entry i of the assigned entries to its quoted value, or to NULL when the quoted text is empty |
| Sql.UpdatedFromRow | class.DbTable.php:554-563 | the entries an UPDATE assigns are entries of the row, in its order, each with a non-numeric marked key and the row's value for that key |
| Sql.UpdatedKeys | class.DbTable.php:554-556 | a column is assigned in the UPDATE exactly when it is in the row, is not numeric, and is marked modified |
| Sql.UpdateWithNothingMarked | class.DbTable.php:553-568 | with no column marked, the UPDATE has an empty SET list (nothing guards against it) |
| Lifecycle.ReadDefaults | class.DbTable.php:158-171 | the `while fetchRow` loop over DESCRIBE builds the default row, with '' read as null and CURRENT_TIMESTAMP read as the current time |
| Lifecycle.DefaultsKeys | class.DbTable.php:159-171 | the default row has exactly the described columns |
| Lifecycle.DefaultsLast | class.DbTable.php:159-171 | each column's default is its normalized declared default, taken from its last DESCRIBE row |
| Lifecycle.CacheRow | class.DbTable.php:205 | storing a row under (table, id) makes it the cached row for that pair and keeps every other table and every other id of the same table |
| Lifecycle.LoadKeepsIdentity | class.DbTable.php:145-212 | load never changes the id, the readonly flag or the modified flag |
| Lifecycle.LoadNewRow | class.DbTable.php:149-174 | id 0 loads the cached defaults with no statement when the table is in the schema cache; otherwise it sends DESCRIBE once and caches the defaults under the table name; a successful load is loaded with no marks |
| Lifecycle.LoadStoredRow | class.DbTable.php:178-207 | a stored id loads from the row cache with no statement on a hit; on a miss it selects by key: no row is ERROR_IMPROPERUSE with the fields emptied and nothing cached or loaded; a row found is loaded and cached |
| Lifecycle.DescribeCacheIgnoresConnection | class.DbTable.php:150-152 | two objects on different connections load the same cached defaults for tables of the same name |
| Lifecycle.LoadFatal | class.DbTable.php:145-212 | load stops PHP exactly when it must ask the database while the handle is the error object `connect` left, or when its DESCRIBE failed |
| Lifecycle.FieldValue | class.DbTable.php:241-245 | a column of the row reads as its value; a column the row lacks reads as '' |
| Lifecycle.ReadLoadedChangesNothing | class.DbTable.php:236-259 | getField and getAllFields on a loaded object send nothing and change nothing |
| Lifecycle.ReadStopsOnFatalLoad | class.DbTable.php:236-259 | getField and getAllFields return no value exactly when the object is unloaded and its load stops PHP |
| Lifecycle.ReadUnknownKey | class.DbTable.php:241-242 | a key the row lacks after the lazy load reads as '' |
| Lifecycle.ReadFieldThenAll | class.DbTable.php:636-637 | when getField's lazy load succeeded or was not needed, getAllFields right after it sends nothing and returns the fields getField read from |
| Lifecycle.ReadRetriesFailedLoad | class.DbTable.php:636-637 | when getField's lazy load fails without stopping PHP, the object stays unloaded and getAllFields sends the same SELECT again |
| Lifecycle.ReadEntryLoaded | class.DbTable.php:636-637 | a turn of convertToAssoc on a loaded object sends nothing, changes nothing, and reads the key and the row from its fields |
| Lifecycle.ReadEntryRow | class.DbTable.php:636-637 | a turn that does not stop returns the fields as it leaves the object; its key comes from those fields when getField's load succeeded or was not needed |
| Lifecycle.ReadAllStopped | class.DbTable.php:634-640 | after a turn stops PHP, no later object is touched and the caches stay as that turn left them |
| Lifecycle.ReadAllKeepsLoaded | class.DbTable.php:634-640 | every object that was loaded before convertToAssoc is left as it was |
| Lifecycle.ReadAllRows | class.DbTable.php:634-640 | each row read is the fields of its object as the loop leaves it |
| Lifecycle.ReadAllKeys | class.DbTable.php:636-637 | the key read for an object loaded before is its value in the key column, with null read as '' |
| Lifecycle.ReadAllLoaded | class.DbTable.php:634-640 | over objects all loaded, the loop changes no object and no cache and never stops |
| Lifecycle.MarkDirty | class.DbTable.php:395 | after `modified_fields[$field] = true` the marked keys are the old ones plus that key |
| Lifecycle.WriteStopsOnFatalLoad | class.DbTable.php:379-430 | a lazy load that stops PHP stops setField and setFields with no write; a load that fails otherwise is ignored and the writes go to the fields as they are |
| Lifecycle.WriteField | class.DbTable.php:386-396 | an unknown key is refused; a stored row keeps everything when the value equals (PHP `==`) the current one; otherwise the key holds the value, other keys and the column set are unchanged, `modified` is set and the key is marked |
| Lifecycle.ApplyWrites | class.DbTable.php:415-429 | the writes of setFields keep the id, the flags and the column set; keys not written keep their values; marks only grow, by written keys; the result is success or ERROR_IMPROPERUSE |
| Lifecycle.ApplyWritesStops | class.DbTable.php:415-418 | setFields returns ERROR_IMPROPERUSE at the first unknown key, with exactly the writes before it made |
| Lifecycle.ApplyWritesKeepsOrder | class.DbTable.php:415-429 | setFields never reorders the row's columns |
| Lifecycle.ApplyWritesStores | class.DbTable.php:415-429 | after setFields with distinct known keys each key holds a value equal to the one written; on a new row, or where the value differed, exactly the value written, marked, with `modified` set |
| Lifecycle.SetFieldUnknownKey | class.DbTable.php:386-387 | setField on a key the row lacks returns ERROR_IMPROPERUSE and changes nothing beyond its lazy load |
| Lifecycle.SetFieldSameValue | class.DbTable.php:390-391 | on a loaded stored row, writing a value equal to the current one sends nothing and changes nothing |
| Lifecycle.SetFieldMarks | class.DbTable.php:390-396 | on a loaded row, a differing write (or any write to a new row) stores the value, leaves other keys, sets `modified` and marks exactly that key |
| Lifecycle.SaveReadonly | class.DbTable.php:508-509 | save on a readonly object returns false and sends nothing |
| Lifecycle.SaveUnmodified | class.DbTable.php:547-549 | save on a loaded unmodified stored row returns true and sends nothing |
| Lifecycle.SaveChoosesStatement | class.DbTable.php:513-569 | save sends INSERT when the id is 0 or the row is not loaded, and UPDATE of the marked columns when it is loaded and modified |
| Lifecycle.SaveOutcome | class.DbTable.php:571-603 | a save that wrote and returns true leaves the row clean, loaded, with an id and cached; one returning false keeps the id and the marks; an INSERT whose LAST_INSERT_ID is not positive returns false |
| Lifecycle.CommittedOutcome | class.DbTable.php:599-601 | the end of a successful save clears `modified` and the marks and caches the row under its id |
| Lifecycle.InsertOutcome | class.DbTable.php:571-597 | the INSERT branch returns true only with a positive new id, clean and cached, and false with the id and marks as they were |
| Lifecycle.SaveNewRow | class.DbTable.php:578-592 | a new row whose LAST_INSERT_ID is positive sends INSERT then the LAST_INSERT_ID query, takes that id, and stores it under the key column |
| Lifecycle.SaveTwice | class.DbTable.php:506-604 | after a save returning true, a second save sends nothing and returns true |
| Lifecycle.SaveThenLoad | class.DbTable.php:601 | after a save that wrote the row, a fresh object for the same id loads exactly the saved fields from the row cache, with no statement |
| Lifecycle.DestroyKeepsCache | class.DbTable.php:436-446 | destroy changes neither the object nor the caches, and sends nothing when the id is 0 |
| Lifecycle.NewRowRoundTrip | class.DbTable.php:408-430 | distinct known columns written by setFields to a new row, saved with a positive new id, read back through getField on a fresh object for that id as the values written, with no statement |
| Database.Registry.Connect | class.DbTable.php:305-322 | a registered DSN is left alone; a new one is registered even when the connection fails, which is reported; only a working handle gets the associative fetch mode |
| Table.DbTable.Initialize | class.DbTable.php:342-367 | a table with no configured primary key is ERROR_CONFIG and nothing changes; otherwise it connects, then takes a given row as loaded with its id read from the key column, or stores the id and loads as `load` does |
| Table.DbTable.TakeRow | class.DbTable.php:354-359 | a row given to `initialize` becomes the fields, its key column value the id, and the object is marked loaded |
| Table.DbTable.LoadById | class.DbTable.php:360-364 | an id given to `initialize` is stored and the object loaded as Lifecycle.LoadStep says; only a load that stops PHP is reported |
| Table.DbTable.Attach | class.DbTable.php:350-352 | connect, then remember the DSN and the table |
| Table.DbTable.Load | class.DbTable.php:145-212 | the object, the caches and the statements follow Lifecycle.LoadStep |
| Table.DbTable.LoadDefaults | class.DbTable.php:149-174 | the id-0 branch of load follows Lifecycle.LoadStep |
| Table.DbTable.LoadRow | class.DbTable.php:175-208 | the stored-id branch of load follows Lifecycle.LoadStep |
| Table.DbTable.ForceLoaded | class.DbTable.php:218-220 | sets `loaded` and nothing else |
| Table.DbTable.ForceUnloaded | class.DbTable.php:226-228 | clears `loaded` and nothing else |
| Table.DbTable.GetField | class.DbTable.php:236-246 | the lazy load, then the value or '', as Lifecycle.GetFieldStep |
| Table.DbTable.GetAllFields | class.DbTable.php:254-259 | the lazy load, then the fields, as Lifecycle.GetAllFieldsStep |
| Table.DbTable.ReadEntry | class.DbTable.php:636-637 | getField on the key column, when there is one, then getAllFields, each with the answers to its own load, as Lifecycle.ReadEntryStep; a load that stops PHP stops the turn |
| Table.DbTable.GetColumnNames | class.DbTable.php:266-269 | the column names of the row in order, with no load |
| Table.DbTable.SetReadOnly | class.DbTable.php:612-616 | sets the readonly flag and nothing else |
| Table.DbTable.LoadForWrite | class.DbTable.php:380-384 | loads only when unloaded with an id set, as Lifecycle.LoadBeforeWrite |
| Table.DbTable.SetField | class.DbTable.php:379-397 | follows Lifecycle.SetFieldStep |
| Table.DbTable.Write | class.DbTable.php:386-396 | reports whether the key is known, and stores and marks the value exactly when Lifecycle.WriteField does |
| Table.DbTable.SetFields | class.DbTable.php:408-430 | the loop follows Lifecycle.SetFieldsStep |
| Table.DbTable.Save | class.DbTable.php:506-604 | follows Lifecycle.SaveStep |
| Table.DbTable.Insert | class.DbTable.php:516-545 | the INSERT, its failure, the LAST_INSERT_ID query and its answers, as Lifecycle.InsertStep |
| Table.DbTable.AdoptId | class.DbTable.php:584-596 | writes the returned key value and, when it is positive, takes it as the id and finishes the save, as Lifecycle.Adopted |
| Table.DbTable.Update | class.DbTable.php:553-576 | the UPDATE and its failure, as Lifecycle.UpdateStep |
| Table.DbTable.MarkSaved | class.DbTable.php:599-603 | clears `modified` and the marks and caches the row, as Lifecycle.Committed |
| Table.DbTable.Destroy | class.DbTable.php:436-446 | DELETE by key when the id is set, as Lifecycle.DestroyStep |
| Table.DbTable.Truncate | class.DbTable.php:452-458 | sends TRUNCATE TABLE for the object's table and reports a failure as ERROR_BADQUERY |
| Table.DbTable.Commit | class.DbTable.php:465-467 | sends COMMIT on the object's connection |
| Table.DbTable.Rollback | class.DbTable.php:485-487 | sends ROLLBACK on the object's connection |
| Table.FromRow | class.DbTable.php:130 | building one object from a fetched row sends nothing and leaves both caches alone |
| Table.FromRows | class.DbTable.php:128-131 | one new, distinct object per fetched row, in order, each loaded with its row |
| Table.LoadArray | class.DbTable.php:114-134 | connects, sends one SELECT … IN (ids), reports a query error as ERROR_DBCON, and otherwise returns one new object per row returned, in order; no other statement and no cache change |
| Table.KeyedRowsKeys | class.DbTable.php:634-637 | the keyed array has exactly the keys produced |
| Table.KeyedRowsLast | class.DbTable.php:634-637 | a key holds the row of its last occurrence |
| Table.ReadAt | class.DbTable.php:636-637 | getField then getAllFields on one object of the array, as Lifecycle.ReadEntryStep; every other object keeps its state and every object its table and connection |
| Table.ReadOne | class.DbTable.php:636-637 | the same turn stated over the whole array: only that object's entry of the states changes, as Lifecycle.ReadEntryStep says |
| Table.ReadTurn | class.DbTable.php:636-637 | turn i of the loop takes the objects and the caches from Lifecycle.ReadAll over the first i objects to Lifecycle.ReadAll over the first i + 1, and adds the key and the row it read |
| Table.ReadEntries | class.DbTable.php:634-640 | the objects, the caches and the keys and rows read are those of Lifecycle.ReadAll; a turn that stops PHP ends the loop with no result |
| Table.ConvertToAssoc | class.DbTable.php:628-642 | each object and the caches end as Lifecycle.ReadAll says; a turn that stops PHP gives no array; otherwise, without a truthy `$keyBy`, the list of each object's fields in order, and with one, the fields filed under each object's `getField($keyBy)`, a repeated key keeping its first place and its last row |

## Left out

- commitAll and rollbackAll are not modelled. The registry is a map, which has no order, but a failed handle stops both loops part-way, so the order of `array_keys(self::$aDB)` matters.
- printme is not modelled: it only prints.
- The non-array branch of convertToAssoc (a single object) is not modelled.
- Table.ConvertToAssoc and Table.ReadEntries do not state the connections' statement logs (Table.DbTable.ReadEntry states those of one turn). The objects must be distinct, `Valid`, and share one registry.
- Table.LoadArray: the subclass's constructor is assumed to call `initialize` with the row, the same DSN and a table named like the class.
- Table.DbTable.GetID, Table.DbTable.GetModifiedColumns and Table.DbTable.GetReadOnly are plain field reads with no contract (getID 276-278, getModifiedColumns 285-295, getReadOnly 623-626).
- Table.DbTable.Destroy, Truncate, Commit and Rollback take the database's answer as a parameter; what the database does with DELETE, TRUNCATE, COMMIT or ROLLBACK is not modelled.
- Values.IdOf: ids are natural numbers. PHP's conversion of a string that only begins with digits (such as "12abc") is not modelled: such a value has id 0 here.
- Values.LooseEquals covers null, '' and decimal numerals. Other PHP type juggling in `==` (signs, exponents, leading blanks) is not modelled.
- The statements are text only. They are not parsed, and the injection the unescaped interpolation allows is not modelled.
- PHP's conversion of numeric-string array keys to integers is not modelled: keys are strings, an integer key being its decimal text.
- Values.IsNumericKey follows the grammar of numeric strings in the PHP manual, with PHP 5's unsigned hexadecimal form. It does not reproduce every quirk of PHP 5's own scanner.
- Table.DbTable.SetField, Table.DbTable.SetFields and Table.DbTable.Destroy require a `Valid` object, one that `initialize` accepted. On an object whose `initialize` was refused, PHP's setField would answer ERROR_IMPROPERUSE on the empty row and destroy would do nothing with no id. That case is not modelled.
- The fetch mode is recorded (`assocFetch`) but its effect on the rows fetched is not modelled: rows are always associative.
- `Date(...)` is the `now` parameter of a load; the clock is not modelled.
- The time-out, retry and threading behaviour of the client is not modelled.
