/**
 * The SQL text the row mapper builds. Statements are plain strings; value quoting is the
 * database client's `quote`, passed in as an uninterpreted function.
 */
module Sql {
  import opened Values
  import opened Assoc

  /** Each part followed by `sep`: what a `foreach` appending "part,sep" leaves behind. */
  function Terminated(parts: seq<string>, sep: string): string {
    if parts == [] then "" else Terminated(parts[..|parts| - 1], sep) + parts[|parts| - 1] + sep
  }

  /** `implode(sep, parts)`. */
  function Join(parts: seq<string>, sep: string): string {
    if parts == [] then ""
    else if |parts| == 1 then parts[0]
    else Join(parts[..|parts| - 1], sep) + sep + parts[|parts| - 1]
  }

  predicate EndsWith(s: string, suffix: string) {
    |suffix| <= |s| && s[|s| - |suffix|..] == suffix
  }

  /** `ereg_replace(",$", "", s)` and `ereg_replace(", $", "", s)`: drop one trailing separator. */
  function ChopSuffix(s: string, suffix: string): (r: string)
    ensures EndsWith(s, suffix) ==> r + suffix == s
    ensures !EndsWith(s, suffix) ==> r == s
  {
    if EndsWith(s, suffix) then s[..|s| - |suffix|] else s
  }

  lemma {:induction false} TerminatedIsJoin(parts: seq<string>, sep: string)
    requires parts != []
    ensures Terminated(parts, sep) == Join(parts, sep) + sep
  {
    if |parts| > 1 {
      TerminatedIsJoin(parts[..|parts| - 1], sep);
    }
  }

  /**
   * Appending "part,sep" for every part and then chopping one trailing separator
   * gives the parts joined by the separator, as long as the text before the parts does
   * not itself end in the separator.
   */
  lemma ChopTerminated(prefix: string, parts: seq<string>, sep: string)
    requires |sep| > 0
    requires parts != [] || !EndsWith(prefix, sep)
    ensures ChopSuffix(prefix + Terminated(parts, sep), sep) == prefix + Join(parts, sep)
  {
    if parts != [] {
      TerminatedIsJoin(parts, sep);
      var s := prefix + Join(parts, sep) + sep;
      assert prefix + Terminated(parts, sep) == s;
      assert s[|s| - |sep|..] == sep;
      assert EndsWith(s, sep);
      assert ChopSuffix(s, sep) + sep == s;
    }
  }

  /** A text whose last character differs from the separator's last one does not end in it. */
  lemma LastCharDiffers(s: string, sep: string)
    requires |s| > 0 && |sep| > 0 && s[|s| - 1] != sep[|sep| - 1]
    ensures !EndsWith(s, sep)
  {
    if |sep| <= |s| {
      assert s[|s| - |sep|..][|sep| - 1] == s[|s| - 1];
    }
  }

  /** `str_replace("'", "\'", key)`. */
  function EscapeQuotes(k: string): (r: string)
    ensures |r| >= |k|
  {
    if k == [] then ""
    else (if k[0] == '\'' then "\\'" else [k[0]]) + EscapeQuotes(k[1..])
  }

  // ---------------------------------------------------------------- INSERT

  /** An entry the INSERT lists: a non-numeric key holding a non-empty value. */
  predicate Inserted(e: (string, Value)) {
    !IsNumericKey(e.0) && !IsEmpty(e.1)
  }

  /** The entries an INSERT lists, in field order. */
  function InsertedEntries(fields: seq<(string, Value)>): seq<(string, Value)> {
    if fields == [] then []
    else
      var rest := InsertedEntries(fields[..|fields| - 1]);
      var e := fields[|fields| - 1];
      if Inserted(e) then rest + [e] else rest
  }

  /** What the column loop appends for one entry. */
  function ColumnText(key: string): string {
    "`" + EscapeQuotes(key) + "`"
  }

  /** The column list, as the first INSERT loop builds it. */
  function InsertColumns(fields: seq<(string, Value)>): seq<string> {
    if fields == [] then []
    else
      var rest := InsertColumns(fields[..|fields| - 1]);
      var e := fields[|fields| - 1];
      if Inserted(e) then rest + [ColumnText(e.0)] else rest
  }

  /** The value list, as the second INSERT loop builds it. */
  function InsertValues(fields: seq<(string, Value)>, quote: Value -> string): seq<string> {
    if fields == [] then []
    else
      var rest := InsertValues(fields[..|fields| - 1], quote);
      var e := fields[|fields| - 1];
      if Inserted(e) then rest + [quote(e.1)] else rest
  }

  /**
   * The two INSERT loops pick the same entries in the same order: column i and value i
   * both come from entry i of InsertedEntries.
   */
  lemma {:induction false} InsertListsAgree(fields: seq<(string, Value)>, quote: Value -> string)
    ensures var es := InsertedEntries(fields);
      && |InsertColumns(fields)| == |es| == |InsertValues(fields, quote)|
      && forall i | 0 <= i < |es| ::
           InsertColumns(fields)[i] == ColumnText(es[i].0) && InsertValues(fields, quote)[i] == quote(es[i].1)
  {
    if fields != [] {
      InsertListsAgree(fields[..|fields| - 1], quote);
    }
  }

  /** The keys an INSERT lists are exactly the known non-numeric keys with a non-empty value. */
  lemma {:induction false} InsertedKeys(fields: seq<(string, Value)>, k: string)
    requires UniqueKeys(fields)
    ensures k in Keys(InsertedEntries(fields))
        <==> HasKey(fields, k) && !IsNumericKey(k) && !IsEmpty(Get(fields, k))
  {
    if fields != [] {
      var p, e := fields[..|fields| - 1], fields[|fields| - 1];
      assert fields == p + [e];
      LookupLast(p, e, k);
      InsertedKeys(p, k);
      KeysAppend(InsertedEntries(p), e);
    }
  }

  /**
   * The entries an INSERT lists are entries of the row, in its order, each naming a
   * non-numeric column with a non-empty value that is the row's value for that column.
   */
  lemma {:induction false} InsertedFromRow(fields: seq<(string, Value)>)
    requires UniqueKeys(fields)
    ensures var es := InsertedEntries(fields);
      && IsSubsequence(es, fields)
      && forall i | 0 <= i < |es| :: Inserted(es[i]) && Lookup(fields, es[i].0) == Some(es[i].1)
  {
    if fields != [] {
      var p, e := fields[..|fields| - 1], fields[|fields| - 1];
      forall i, j | 0 <= i < j < |p| ensures p[i].0 != p[j].0 {
        assert p[i] == fields[i] && p[j] == fields[j];
      }
      InsertedFromRow(p);
      var es := InsertedEntries(fields);
      if Inserted(e) {
        assert es[..|es| - 1] == InsertedEntries(p);
      }
      assert IsSubsequence(es, fields);
      SubsequenceLookup(es, fields);
    }
  }

  function InsertHead(table: string): string {
    "INSERT INTO `" + table + "` ("
  }

  /** `INSERT INTO `table` (cols) VALUES (vals)`, with the lists joined by commas. */
  function InsertSql(table: string, fields: seq<(string, Value)>, quote: Value -> string): string {
    InsertHead(table) + Join(InsertColumns(fields), ",") + ") VALUES (" + Join(InsertValues(fields, quote), ",") + ")"
  }

  lemma InsertColumnsStep(fields: seq<(string, Value)>, i: nat)
    requires i < |fields|
    ensures InsertColumns(fields[..i + 1])
         == InsertColumns(fields[..i]) + if Inserted(fields[i]) then [ColumnText(fields[i].0)] else []
  {
    assert fields[..i + 1][..i] == fields[..i];
  }

  lemma InsertValuesStep(fields: seq<(string, Value)>, quote: Value -> string, i: nat)
    requires i < |fields|
    ensures InsertValues(fields[..i + 1], quote)
         == InsertValues(fields[..i], quote) + if Inserted(fields[i]) then [quote(fields[i].1)] else []
  {
    assert fields[..i + 1][..i] == fields[..i];
  }

  /** One turn of the column loop: "`key`" for a listed entry, with its quotes escaped, and nothing otherwise. */
  method ColumnPiece(key: string, value: Value) returns (piece: seq<string>)
    ensures piece == if Inserted((key, value)) then [ColumnText(key)] else []
  {
    piece := [];
    if !IsNumericKey(key) {
      var escaped := EscapeQuotes(key);
      if !IsEmpty(value) {
        piece := ["`" + escaped + "`"];
      }
    }
  }

  /** One turn of the value loop: the quoted value of a listed entry, and nothing otherwise. */
  method ValuePiece(key: string, value: Value, quote: Value -> string) returns (piece: seq<string>)
    ensures piece == if Inserted((key, value)) then [quote(value)] else []
  {
    piece := [];
    if !IsNumericKey(key) {
      if !IsEmpty(value) {
        piece := [quote(value)];
      }
    }
  }

  /** The first `foreach` of the INSERT branch: "`key`," for each listed entry. */
  method AppendColumns(head: string, fields: seq<(string, Value)>) returns (stmt: string)
    ensures stmt == head + Terminated(InsertColumns(fields), ",")
  {
    stmt := head;
    var i := 0;
    while i < |fields|
      invariant 0 <= i <= |fields|
      invariant stmt == head + Terminated(InsertColumns(fields[..i]), ",")
    {
      var piece := ColumnPiece(fields[i].0, fields[i].1);
      InsertColumnsStep(fields, i);
      TerminatedStep(head, InsertColumns(fields[..i]), piece, ",", stmt);
      if piece != [] {
        stmt := stmt + (piece[0] + ",");
      }
      i := i + 1;
    }
    assert fields[..i] == fields;
  }

  /** The second `foreach` of the INSERT branch: "quoted," for each listed entry. */
  method AppendValues(head: string, fields: seq<(string, Value)>, quote: Value -> string) returns (stmt: string)
    ensures stmt == head + Terminated(InsertValues(fields, quote), ",")
  {
    stmt := head;
    var i := 0;
    while i < |fields|
      invariant 0 <= i <= |fields|
      invariant stmt == head + Terminated(InsertValues(fields[..i], quote), ",")
    {
      var piece := ValuePiece(fields[i].0, fields[i].1, quote);
      InsertValuesStep(fields, quote, i);
      TerminatedStep(head, InsertValues(fields[..i], quote), piece, ",", stmt);
      if piece != [] {
        stmt := stmt + (piece[0] + ",");
      }
      i := i + 1;
    }
    assert fields[..i] == fields;
  }

  /** The two `foreach` loops of the INSERT branch, each followed by the comma chop. */
  method BuildInsert(table: string, fields: seq<(string, Value)>, quote: Value -> string) returns (stmt: string)
    ensures stmt == InsertSql(table, fields, quote)
  {
    var head := InsertHead(table);
    stmt := AppendColumns(head, fields);
    LastCharDiffers(head, ",");
    ChopTerminated(head, InsertColumns(fields), ",");
    stmt := ChopSuffix(stmt, ",");
    var mid := head + Join(InsertColumns(fields), ",") + ") VALUES (";
    stmt := stmt + ") VALUES (";
    assert stmt == mid;
    stmt := AppendValues(stmt, fields, quote);
    LastCharDiffers(mid, ",");
    ChopTerminated(mid, InsertValues(fields, quote), ",");
    stmt := ChopSuffix(stmt, ",");
    stmt := stmt + ")";
  }

  // ---------------------------------------------------------------- UPDATE

  /** An entry the UPDATE assigns: a non-numeric key marked modified. */
  predicate Updated(e: (string, Value), dirty: seq<string>) {
    !IsNumericKey(e.0) && e.0 in dirty
  }

  /** The entries an UPDATE assigns, in field order. */
  function UpdatedEntries(fields: seq<(string, Value)>, dirty: seq<string>): seq<(string, Value)> {
    if fields == [] then []
    else
      var rest := UpdatedEntries(fields[..|fields| - 1], dirty);
      var e := fields[|fields| - 1];
      if Updated(e, dirty) then rest + [e] else rest
  }

  /** "`key` = quoted", or "`key` = NULL" when the quoted text is empty. */
  function Assignment(key: string, quoted: string): string {
    "`" + key + "` = " + (if quoted == "" then "NULL" else quoted)
  }

  /** The SET list, as the UPDATE loop builds it. */
  function UpdateAssignments(fields: seq<(string, Value)>, dirty: seq<string>, quote: Value -> string): seq<string> {
    if fields == [] then []
    else
      var rest := UpdateAssignments(fields[..|fields| - 1], dirty, quote);
      var e := fields[|fields| - 1];
      if Updated(e, dirty) then rest + [Assignment(e.0, quote(e.1))] else rest
  }

  /** Assignment i of the SET list is for entry i of UpdatedEntries. */
  lemma {:induction false} UpdateAssignmentsAt(fields: seq<(string, Value)>, dirty: seq<string>, quote: Value -> string)
    ensures var es := UpdatedEntries(fields, dirty);
      && |UpdateAssignments(fields, dirty, quote)| == |es|
      && forall i | 0 <= i < |es| :: UpdateAssignments(fields, dirty, quote)[i] == Assignment(es[i].0, quote(es[i].1))
  {
    if fields != [] {
      UpdateAssignmentsAt(fields[..|fields| - 1], dirty, quote);
    }
  }

  /** The keys an UPDATE assigns are exactly the known non-numeric keys marked modified. */
  lemma {:induction false} UpdatedKeys(fields: seq<(string, Value)>, dirty: seq<string>, k: string)
    requires UniqueKeys(fields)
    ensures k in Keys(UpdatedEntries(fields, dirty)) <==> HasKey(fields, k) && !IsNumericKey(k) && k in dirty
  {
    if fields != [] {
      var p, e := fields[..|fields| - 1], fields[|fields| - 1];
      assert fields == p + [e];
      LookupLast(p, e, k);
      UpdatedKeys(p, dirty, k);
      KeysAppend(UpdatedEntries(p, dirty), e);
    }
  }

  /**
   * The entries an UPDATE assigns are entries of the row, in its order, each naming a
   * non-numeric column marked modified, with the row's value for that column.
   */
  lemma {:induction false} UpdatedFromRow(fields: seq<(string, Value)>, dirty: seq<string>)
    requires UniqueKeys(fields)
    ensures var es := UpdatedEntries(fields, dirty);
      && IsSubsequence(es, fields)
      && forall i | 0 <= i < |es| :: Updated(es[i], dirty) && Lookup(fields, es[i].0) == Some(es[i].1)
  {
    if fields != [] {
      var p, e := fields[..|fields| - 1], fields[|fields| - 1];
      forall i, j | 0 <= i < j < |p| ensures p[i].0 != p[j].0 {
        assert p[i] == fields[i] && p[j] == fields[j];
      }
      UpdatedFromRow(p, dirty);
      var es := UpdatedEntries(fields, dirty);
      if Updated(e, dirty) {
        assert es[..|es| - 1] == UpdatedEntries(p, dirty);
      }
      assert IsSubsequence(es, fields);
      SubsequenceLookup(es, fields);
    }
  }

  function UpdateHead(table: string): string {
    "UPDATE `" + table + "` SET "
  }

  function UpdateWhere(pk: string, id: nat): string {
    " WHERE " + pk + "='" + NatText(id) + "'"
  }

  /** `UPDATE `table` SET a, b WHERE pk='id'`. */
  function UpdateSql(table: string, fields: seq<(string, Value)>, dirty: seq<string>, quote: Value -> string,
                     pk: string, id: nat): string {
    UpdateHead(table) + Join(UpdateAssignments(fields, dirty, quote), ", ") + UpdateWhere(pk, id)
  }

  lemma {:induction false} NothingMarkedNothingAssigned(fields: seq<(string, Value)>, quote: Value -> string)
    ensures UpdateAssignments(fields, [], quote) == []
  {
    if fields != [] {
      NothingMarkedNothingAssigned(fields[..|fields| - 1], quote);
    }
  }

  /** With no modified column the UPDATE keeps an empty SET list. */
  lemma UpdateWithNothingMarked(table: string, fields: seq<(string, Value)>, quote: Value -> string, pk: string, id: nat)
    ensures UpdateSql(table, fields, [], quote, pk, id) == "UPDATE `" + table + "` SET " + " WHERE " + pk + "='" + NatText(id) + "'"
  {
    NothingMarkedNothingAssigned(fields, quote);
  }

  lemma UpdateLoopStep(fields: seq<(string, Value)>, dirty: seq<string>, quote: Value -> string, i: nat)
    requires i < |fields|
    ensures UpdateAssignments(fields[..i + 1], dirty, quote)
         == UpdateAssignments(fields[..i], dirty, quote)
              + if Updated(fields[i], dirty) then [Assignment(fields[i].0, quote(fields[i].1))] else []
  {
    assert fields[..i + 1][..i] == fields[..i];
  }

  /** Appending one more "part,sep" (or nothing) to a statement built so far. */
  lemma TerminatedStep(head: string, done: seq<string>, piece: seq<string>, sep: string, stmt: string)
    requires |piece| <= 1 && stmt == head + Terminated(done, sep)
    ensures piece == [] ==> stmt == head + Terminated(done + piece, sep)
    ensures piece != [] ==> stmt + (piece[0] + sep) == head + Terminated(done + piece, sep)
  {
    if piece == [] {
      assert done + piece == done;
    } else {
      assert (done + piece)[..|done|] == done;
      assert Terminated(done + piece, sep) == Terminated(done, sep) + piece[0] + sep;
    }
  }

  /** One turn of the UPDATE loop: "`key` = quoted" (or "= NULL") for an assigned entry, and nothing otherwise. */
  method AssignmentPiece(key: string, value: Value, dirty: seq<string>, quote: Value -> string) returns (piece: seq<string>)
    ensures piece == if Updated((key, value), dirty) then [Assignment(key, quote(value))] else []
  {
    piece := [];
    if !IsNumericKey(key) {
      if key in dirty {
        var quoted := quote(value);
        if quoted == "" {
          piece := ["`" + key + "` = " + "NULL"];
        } else {
          piece := ["`" + key + "` = " + quoted];
        }
      }
    }
  }

  /** The `foreach` loop of the UPDATE branch, the chop of ", " and the WHERE clause. */
  method BuildUpdate(table: string, fields: seq<(string, Value)>, dirty: seq<string>, quote: Value -> string,
                     pk: string, id: nat) returns (stmt: string)
    ensures stmt == UpdateSql(table, fields, dirty, quote, pk, id)
  {
    var head := UpdateHead(table);
    stmt := head;
    var i := 0;
    while i < |fields|
      invariant 0 <= i <= |fields|
      invariant stmt == head + Terminated(UpdateAssignments(fields[..i], dirty, quote), ", ")
    {
      var piece := AssignmentPiece(fields[i].0, fields[i].1, dirty, quote);
      UpdateLoopStep(fields, dirty, quote, i);
      TerminatedStep(head, UpdateAssignments(fields[..i], dirty, quote), piece, ", ", stmt);
      if piece != [] {
        stmt := stmt + (piece[0] + ", ");
      }
      i := i + 1;
    }
    assert fields[..i] == fields;
    UpdateChop(table, UpdateAssignments(fields, dirty, quote));
    stmt := ChopSuffix(stmt, ", ");
    stmt := stmt + UpdateWhere(pk, id);
  }

  /** Chopping the last ", " off the SET list leaves the head and the joined assignments. */
  lemma UpdateChop(table: string, parts: seq<string>)
    ensures ChopSuffix(UpdateHead(table) + Terminated(parts, ", "), ", ") == UpdateHead(table) + Join(parts, ", ")
  {
    var head := UpdateHead(table);
    assert !EndsWith(head, ", ") by {
      assert head[|head| - 2] == 'T';
      assert head[|head| - 2..][0] == head[|head| - 2];
    }
    ChopTerminated(head, parts, ", ");
  }

  // ---------------------------------------------------------------- other statements

  function DescribeSql(table: string): string {
    "DESCRIBE `" + table + "`"
  }

  /** The row query of `load`: the id goes through `quote`. */
  function SelectSql(table: string, pk: string, quote: Value -> string, id: nat): string {
    "SELECT * FROM `" + table + "` WHERE " + pk + "=" + quote(Str(NatText(id)))
  }

  function DeleteSql(table: string, pk: string, quote: Value -> string, id: nat): string {
    "DELETE FROM `" + table + "` WHERE " + pk + "=" + quote(Str(NatText(id)))
  }

  function TruncateSql(table: string): string {
    "TRUNCATE TABLE `" + table + "`"
  }

  function LastIdSql(pk: string): string {
    "SELECT LAST_INSERT_ID() As " + pk
  }

  function IdTexts(ids: seq<nat>): (r: seq<string>)
    ensures |r| == |ids| && forall i | 0 <= i < |ids| :: r[i] == NatText(ids[i])
  {
    if ids == [] then [] else [NatText(ids[0])] + IdTexts(ids[1..])
  }

  /** The batch query of `loadArray`: table and ids are interpolated unquoted. */
  function LoadArraySql(table: string, pk: string, ids: seq<nat>): string {
    "SELECT * FROM " + table + " WHERE " + pk + " IN (" + Join(IdTexts(ids), ",") + ")"
  }
}
