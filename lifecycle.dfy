/**
 * The row mapper's state machine on values. An Entity is the per-object state of one
 * DbTable, Caches the two process-wide caches, Env what an object knows about its
 * table and connection. Each operation is a function from the state before to a Step:
 * the state after, the statements sent to the connection, and what the operation returns.
 * The class in module Table is proved to follow these functions.
 */
module Lifecycle {
  import opened Values
  import opened Assoc
  import opened Sql
  import opened Database

  datatype Entity = Entity(
    id: nat,
    readonly: bool,
    loaded: bool,
    modified: bool,
    fields: Row,
    /** `modified_fields`: the keys marked modified, in the order they were first marked. */
    dirty: seq<string>)

  datatype Caches = Caches(describe: map<string, Row>, rows: map<string, map<nat, Row>>)

  /** The table, its primary-key column, and whether the registered handle is usable. */
  datatype Env = Env(table: string, pk: string, live: bool, quote: Value -> string)

  datatype Step<T> = Step(entity: Entity, caches: Caches, issued: seq<string>, result: T)

  // ---------------------------------------------------------------- schema defaults

  /** The `switch` on a DESCRIBE default. */
  function NormalizeDefault(v: Value, now: string): Value {
    if IsEmpty(v) then Null
    else if v == Str("CURRENT_TIMESTAMP") then Str(now)
    else v
  }

  /** The default row the `while fetchRow` loop over DESCRIBE builds. */
  function Defaults(rows: seq<DescribeRow>, now: string): Row {
    if rows == [] then []
    else
      var last := rows[|rows| - 1];
      Put(Defaults(rows[..|rows| - 1], now), last.field, NormalizeDefault(last.default, now))
  }

  /** The described column names, in DESCRIBE order. */
  function DescribedFields(rows: seq<DescribeRow>): (r: seq<string>)
    ensures |r| == |rows|
    ensures forall i {:trigger r[i]} | 0 <= i < |rows| :: r[i] == rows[i].field
  {
    if rows == [] then [] else DescribedFields(rows[..|rows| - 1]) + [rows[|rows| - 1].field]
  }

  /** The keys of the default row are exactly the described columns. */
  lemma {:induction false} DefaultsKeys(rows: seq<DescribeRow>, now: string, f: string)
    ensures HasKey(Defaults(rows, now), f) <==> f in DescribedFields(rows)
  {
    if rows != [] {
      var n := |rows| - 1;
      var v := NormalizeDefault(rows[n].default, now);
      DefaultsKeys(rows[..n], now, f);
      LookupPut(Defaults(rows[..n], now), rows[n].field, v, f);
    }
  }

  /**
   * A column takes the normalized default of its last description: null for an empty
   * default, the current time for CURRENT_TIMESTAMP, the default itself otherwise.
   */
  lemma {:induction false} DefaultsLast(rows: seq<DescribeRow>, now: string, i: nat)
    requires i < |rows|
    requires forall j | i < j < |rows| :: rows[j].field != rows[i].field
    ensures Lookup(Defaults(rows, now), rows[i].field) == Some(NormalizeDefault(rows[i].default, now))
  {
    var n := |rows| - 1;
    var p := rows[..n];
    var v := NormalizeDefault(rows[n].default, now);
    assert Lookup(Defaults(rows, now), rows[i].field) == Lookup(Put(Defaults(p, now), rows[n].field, v), rows[i].field);
    LookupPut(Defaults(p, now), rows[n].field, v, rows[i].field);
    if i < n {
      assert p[i] == rows[i];
      forall j | i < j < |p| ensures p[j].field != rows[i].field {
        assert p[j] == rows[j];
      }
      DefaultsLast(p, now, i);
    }
  }

  /** Row i of the DESCRIBE answer, read into the defaults of rows 0 to i - 1, gives those of rows 0 to next - 1. */
  lemma DefaultsStep(rows: seq<DescribeRow>, now: string, i: nat, next: nat, fields: Row, default: Value)
    requires next == i + 1 && i < |rows| && fields == Defaults(rows[..i], now)
    requires default == NormalizeDefault(rows[i].default, now)
    ensures Put(fields, rows[i].field, default) == Defaults(rows[..next], now)
  {
    assert rows[..next][..i] == rows[..i];
  }

  /** The `while ($aRow = $aResult->fetchRow())` loop of `load` over the DESCRIBE rows. */
  method ReadDefaults(rows: seq<DescribeRow>, now: string) returns (fields: Row)
    ensures fields == Defaults(rows, now)
  {
    fields := [];
    var i := 0;
    while i < |rows|
      invariant 0 <= i <= |rows|
      invariant fields == Defaults(rows[..i], now)
    {
      var row := rows[i];
      var default := row.default;
      if IsEmpty(default) {
        default := Null;
      } else if default == Str("CURRENT_TIMESTAMP") {
        default := Str(now);
      }
      var next := i + 1;
      DefaultsStep(rows, now, i, next, fields, default);
      fields := Put(fields, row.field, default);
      i := next;
    }
    assert rows[..i] == rows;
  }

  // ---------------------------------------------------------------- load

  function CachedRow(c: Caches, table: string, id: nat): Option<Row> {
    if table in c.rows && id in c.rows[table] then Some(c.rows[table][id]) else None
  }

  /** `$object_cache[$table][$id] = $row`, creating the table's map on first use. */
  function CacheRow(rows: map<string, map<nat, Row>>, table: string, id: nat, row: Row): (r: map<string, map<nat, Row>>)
    ensures table in r && id in r[table] && r[table][id] == row
    ensures forall t | t in rows && t != table :: t in r && r[t] == rows[t]
    ensures forall n | table in rows && n in rows[table] && n != id :: n in r[table] && r[table][n] == rows[table][n]
    ensures r.Keys == rows.Keys + {table}
  {
    rows[table := (if table in rows then rows[table] else map[])[id := row]]
  }

  /** The loaded state: `loaded = 1` and `modified_fields` unset; `modified` is kept. */
  function Loaded(e: Entity, fields: Row): Entity {
    e.(fields := fields, loaded := true, dirty := [])
  }

  /** `load`. */
  function LoadStep(e: Entity, c: Caches, env: Env, ans: LoadAnswers): Step<Outcome> {
    if e.id == 0 then
      if env.table in c.describe then
        Step(Loaded(e, c.describe[env.table]), c, [], Pass)
      else if !env.live then
        Step(e, c, [], Fail(Fatal))
      else
        var sql := DescribeSql(env.table);
        match ans.describe
        case DescribeFailed => Step(e.(fields := []), c, [sql], Fail(Fatal))
        case Described(rows) =>
          var d := Defaults(rows, ans.now);
          Step(Loaded(e, d), c.(describe := c.describe[env.table := d]), [sql], Pass)
    else
      match CachedRow(c, env.table, e.id)
      case Some(row) => Step(Loaded(e, row), c, [], Pass)
      case None =>
        if !env.live then
          Step(e, c, [], Fail(Fatal))
        else
          var sql := SelectSql(env.table, env.pk, env.quote, e.id);
          match ans.select
          case SelectFailed => Step(e, c, [sql], Fail(BadQuery))
          case Selected(rows) =>
            if |rows| == 0 then
              Step(e.(fields := []), c, [sql], Fail(ImproperUse))
            else
              Step(Loaded(e, rows[0]), c.(rows := CacheRow(c.rows, env.table, e.id, rows[0])), [sql], Pass)
  }

  /** The lazy load of `getField` and `getAllFields`: only while `loaded == 0`. */
  function LoadIfUnloaded(e: Entity, c: Caches, env: Env, ans: LoadAnswers): Step<Outcome> {
    if e.loaded then Step(e, c, [], Pass) else LoadStep(e, c, env, ans)
  }

  /** The lazy load of `setField` and `setFields`: only while `loaded == 0` and the id is set. */
  function LoadBeforeWrite(e: Entity, c: Caches, env: Env, ans: LoadAnswers): Step<Outcome> {
    if !e.loaded && e.id != 0 then LoadStep(e, c, env, ans) else Step(e, c, [], Pass)
  }

  /** A load never changes the id, the readonly flag or the modified flag. */
  lemma LoadKeepsIdentity(e: Entity, c: Caches, env: Env, ans: LoadAnswers)
    ensures var s := LoadStep(e, c, env, ans);
      s.entity.id == e.id && s.entity.readonly == e.readonly && s.entity.modified == e.modified
  {
  }

  /**
   * A new row (id 0) is loaded from the schema cache when the table is there, with no
   * statement; otherwise DESCRIBE is sent once and its normalized defaults are cached
   * under the table name.
   */
  lemma LoadNewRow(e: Entity, c: Caches, env: Env, ans: LoadAnswers)
    requires e.id == 0
    ensures var s := LoadStep(e, c, env, ans);
      && (env.table in c.describe ==>
            s.issued == [] && s.result == Pass && s.entity.fields == c.describe[env.table] && s.caches == c)
      && (env.table !in c.describe && env.live && ans.describe.Described? ==>
            && s.issued == [DescribeSql(env.table)] && s.result == Pass
            && s.entity.fields == Defaults(ans.describe.rows, ans.now)
            && s.caches.describe == c.describe[env.table := s.entity.fields]
            && s.caches.rows == c.rows)
      && (s.result == Pass ==> s.entity.loaded && s.entity.dirty == [])
  {
  }

  /**
   * A stored row (id set) is copied from the row cache with no statement on a hit. On a
   * miss the row is selected by its key; no row at all is an error that empties the
   * fields but sets nothing loaded and caches nothing; a row found is cached.
   */
  lemma LoadStoredRow(e: Entity, c: Caches, env: Env, ans: LoadAnswers)
    requires e.id != 0
    ensures var s := LoadStep(e, c, env, ans);
      && (CachedRow(c, env.table, e.id).Some? ==>
            s.issued == [] && s.result == Pass && s.caches == c
            && s.entity == Loaded(e, CachedRow(c, env.table, e.id).value))
      && (CachedRow(c, env.table, e.id).None? && env.live && ans.select == Selected([]) ==>
            && s.issued == [SelectSql(env.table, env.pk, env.quote, e.id)]
            && s.result == Fail(ImproperUse) && s.caches == c
            && s.entity.loaded == e.loaded && s.entity.dirty == e.dirty && s.entity.fields == [])
      && (CachedRow(c, env.table, e.id).None? && env.live && ans.select.Selected? && ans.select.rows != [] ==>
            && s.issued == [SelectSql(env.table, env.pk, env.quote, e.id)] && s.result == Pass
            && s.entity == Loaded(e, ans.select.rows[0])
            && CachedRow(s.caches, env.table, e.id) == Some(ans.select.rows[0]))
  {
  }

  /**
   * The schema cache is keyed by table only: two objects on different connections see the
   * same cached defaults for a table of the same name.
   */
  lemma DescribeCacheIgnoresConnection(e: Entity, c: Caches, env1: Env, env2: Env, ans1: LoadAnswers, ans2: LoadAnswers)
    requires e.id == 0 && env1.table == env2.table && env1.table in c.describe
    ensures LoadStep(e, c, env1, ans1) == LoadStep(e, c, env2, ans2)
  {
  }

  /**
   * load stops PHP exactly where it needs the database while the registered handle is the
   * error object `connect` left (`query` or `quote` on it), or where DESCRIBE failed
   * (`fetchRow` on the error result).
   */
  lemma LoadFatal(e: Entity, c: Caches, env: Env, ans: LoadAnswers)
    ensures LoadStep(e, c, env, ans).result == Fail(Fatal) <==>
      if e.id == 0 then env.table !in c.describe && (!env.live || ans.describe.DescribeFailed?)
      else CachedRow(c, env.table, e.id).None? && !env.live
  {
  }

  // ---------------------------------------------------------------- reading fields

  /** `getField` on a loaded row: the stored value, or '' for a key the row lacks. */
  function FieldValue(fields: Row, key: string): (v: Value)
    ensures HasKey(fields, key) ==> Lookup(fields, key) == Some(v)
    ensures !HasKey(fields, key) ==> v == Str("")
  {
    match Lookup(fields, key)
    case Some(x) => x
    case None => Str("")
  }

  /** `getField`: the lazy load, then the value; a load that stops PHP stops it too. */
  function GetFieldStep(e: Entity, c: Caches, env: Env, ans: LoadAnswers, key: string): Step<Result<Value>> {
    var s := LoadIfUnloaded(e, c, env, ans);
    Step(s.entity, s.caches, s.issued,
         if s.result == Fail(Fatal) then Err(Fatal) else Ok(FieldValue(s.entity.fields, key)))
  }

  /** `getAllFields`: the lazy load, then the fields; a load that stops PHP stops it too. */
  function GetAllFieldsStep(e: Entity, c: Caches, env: Env, ans: LoadAnswers): Step<Result<Row>> {
    var s := LoadIfUnloaded(e, c, env, ans);
    Step(s.entity, s.caches, s.issued, if s.result == Fail(Fatal) then Err(Fatal) else Ok(s.entity.fields))
  }

  /** Reading a loaded object sends nothing and changes nothing. */
  lemma ReadLoadedChangesNothing(e: Entity, c: Caches, env: Env, ans: LoadAnswers, key: string)
    requires e.loaded
    ensures GetFieldStep(e, c, env, ans, key) == Step(e, c, [], Ok(FieldValue(e.fields, key)))
    ensures GetAllFieldsStep(e, c, env, ans) == Step(e, c, [], Ok(e.fields))
  {
  }

  /**
   * getField and getAllFields return no value exactly when the object is unloaded and its
   * load stops PHP; a load that fails otherwise is ignored and the fields are read as they are.
   */
  lemma ReadStopsOnFatalLoad(e: Entity, c: Caches, env: Env, ans: LoadAnswers, key: string)
    ensures GetFieldStep(e, c, env, ans, key).result.Err? <==> !e.loaded && LoadStep(e, c, env, ans).result == Fail(Fatal)
    ensures GetAllFieldsStep(e, c, env, ans).result.Err? <==> !e.loaded && LoadStep(e, c, env, ans).result == Fail(Fatal)
    ensures GetFieldStep(e, c, env, ans, key).result.Err? ==> GetFieldStep(e, c, env, ans, key).result == Err(Fatal)
  {
  }

  /** A key the row lacks reads as '', whether or not reading it loaded the row, unless the load stopped PHP. */
  lemma ReadUnknownKey(e: Entity, c: Caches, env: Env, ans: LoadAnswers, key: string)
    requires LoadIfUnloaded(e, c, env, ans).result != Fail(Fatal)
    requires !HasKey(LoadIfUnloaded(e, c, env, ans).entity.fields, key)
    ensures GetFieldStep(e, c, env, ans, key).result == Ok(Str(""))
  {
  }

  /**
   * getAllFields right after getField, on the state getField left: when getField's lazy
   * load succeeded (or there was none), it sends nothing and returns the fields getField read.
   */
  lemma ReadFieldThenAll(e: Entity, c: Caches, env: Env, fieldAns: LoadAnswers, allAns: LoadAnswers, key: string)
    requires LoadIfUnloaded(e, c, env, fieldAns).result == Pass
    ensures var s1 := GetFieldStep(e, c, env, fieldAns, key);
      GetAllFieldsStep(s1.entity, s1.caches, env, allAns) == Step(s1.entity, s1.caches, [], Ok(s1.entity.fields))
  {
  }

  /**
   * When getField's lazy load fails without stopping PHP (the SELECT failed, or found no
   * row), the object stays unloaded and getAllFields sends the same SELECT again.
   */
  lemma ReadRetriesFailedLoad(e: Entity, c: Caches, env: Env, fieldAns: LoadAnswers, allAns: LoadAnswers, key: string)
    requires LoadIfUnloaded(e, c, env, fieldAns).result.Fail?
    requires LoadIfUnloaded(e, c, env, fieldAns).result != Fail(Fatal)
    ensures var s1 := GetFieldStep(e, c, env, fieldAns, key);
      var s2 := GetAllFieldsStep(s1.entity, s1.caches, env, allAns);
      && e.id != 0 && !s1.entity.loaded
      && s1.issued == [SelectSql(env.table, env.pk, env.quote, e.id)]
      && s2.issued == [SelectSql(env.table, env.pk, env.quote, e.id)]
  {
  }

  // ---------------------------------------------------------------- converting to arrays

  /** A value used as a PHP array key: null becomes ''. */
  function ArrayKey(v: Value): string {
    match v
    case Null => ""
    case Str(s) => s
  }

  /**
   * One turn of the `foreach` of `convertToAssoc`: `getField($keyBy)` when a key column is
   * given, then `getAllFields` on the state it left, each load answered on its own; a load
   * that stops PHP stops the turn.
   */
  function ReadEntryStep(e: Entity, c: Caches, env: Env, keyBy: Option<string>,
                         fieldAns: LoadAnswers, allAns: LoadAnswers): Step<Result<(string, Row)>> {
    if keyBy.None? then
      var s := GetAllFieldsStep(e, c, env, allAns);
      Step(s.entity, s.caches, s.issued, if s.result.Err? then Err(Fatal) else Ok(("", s.result.value)))
    else
      var s1 := GetFieldStep(e, c, env, fieldAns, keyBy.value);
      if s1.result.Err? then Step(s1.entity, s1.caches, s1.issued, Err(Fatal))
      else
        var s2 := GetAllFieldsStep(s1.entity, s1.caches, env, allAns);
        Step(s2.entity, s2.caches, s1.issued + s2.issued,
             if s2.result.Err? then Err(Fatal) else Ok((ArrayKey(s1.result.value), s2.result.value)))
  }

  /** On a loaded object a turn sends nothing, changes nothing, and reads key and row from its fields. */
  lemma ReadEntryLoaded(e: Entity, c: Caches, env: Env, keyBy: Option<string>, fieldAns: LoadAnswers, allAns: LoadAnswers)
    requires e.loaded
    ensures ReadEntryStep(e, c, env, keyBy, fieldAns, allAns) ==
      Step(e, c, [], Ok((if keyBy.Some? then ArrayKey(FieldValue(e.fields, keyBy.value)) else "", e.fields)))
  {
  }

  /**
   * A turn that does not stop returns the object's fields as it leaves them; its key is read
   * from those same fields when getField's load succeeded or was not needed.
   */
  lemma ReadEntryRow(e: Entity, c: Caches, env: Env, keyBy: Option<string>, fieldAns: LoadAnswers, allAns: LoadAnswers)
    ensures var s := ReadEntryStep(e, c, env, keyBy, fieldAns, allAns);
      && (s.result.Ok? ==> s.result.value.1 == s.entity.fields)
      && (s.result.Ok? && keyBy.Some? && LoadIfUnloaded(e, c, env, fieldAns).result == Pass ==>
            s.result.value.0 == ArrayKey(FieldValue(s.entity.fields, keyBy.value)))
  {
    if keyBy.Some? && LoadIfUnloaded(e, c, env, fieldAns).result == Pass {
      ReadFieldThenAll(e, c, env, fieldAns, allAns, keyBy.value);
    }
  }

  /** The state `convertToAssoc`'s `foreach` leaves: each object, the caches, and what it read or the stop. */
  datatype Reads = Reads(entities: seq<Entity>, caches: Caches, result: Result<(seq<string>, seq<Row>)>)

  /** One more turn of the `foreach`, unless an earlier one stopped. */
  function ReadNext(p: Reads, e: Entity, env: Env, keyBy: Option<string>, fieldAns: LoadAnswers, allAns: LoadAnswers): Reads {
    if p.result.Err? then Reads(p.entities + [e], p.caches, p.result)
    else
      var s := ReadEntryStep(e, p.caches, env, keyBy, fieldAns, allAns);
      Reads(p.entities + [s.entity], s.caches,
            if s.result.Err? then Err(Fatal)
            else Ok((p.result.value.0 + [s.result.value.0], p.result.value.1 + [s.result.value.1])))
  }

  /** ReadNext as equations on its parts. */
  lemma ReadNextParts(p: Reads, e: Entity, env: Env, keyBy: Option<string>, fieldAns: LoadAnswers, allAns: LoadAnswers)
    ensures var r := ReadNext(p, e, env, keyBy, fieldAns, allAns);
      var s := ReadEntryStep(e, p.caches, env, keyBy, fieldAns, allAns);
      && r.entities == p.entities + [if p.result.Ok? then s.entity else e]
      && (r.result.Ok? <==> p.result.Ok? && s.result.Ok?)
      && (r.result.Ok? ==> && r.result.value.0 == p.result.value.0 + [s.result.value.0]
                           && r.result.value.1 == p.result.value.1 + [s.result.value.1])
  {
  }

  /** The `foreach` of `convertToAssoc` over objects in states `es` with environments `envs`. */
  function ReadAll(es: seq<Entity>, envs: seq<Env>, c: Caches, keyBy: Option<string>,
                   fieldAns: seq<LoadAnswers>, allAns: seq<LoadAnswers>): (r: Reads)
    requires |envs| == |es| && |fieldAns| == |es| && |allAns| == |es|
    ensures |r.entities| == |es|
    ensures r.result.Ok? ==> |r.result.value.0| == |es| && |r.result.value.1| == |es|
    decreases |es|, 1
  {
    if es == [] then Reads([], c, Ok(([], []))) else ReadLast(es, envs, c, keyBy, fieldAns, allAns)
  }

  /** The `foreach` of `convertToAssoc` up to its last object, then that object's turn. */
  function ReadLast(es: seq<Entity>, envs: seq<Env>, c: Caches, keyBy: Option<string>,
                    fieldAns: seq<LoadAnswers>, allAns: seq<LoadAnswers>): (r: Reads)
    requires |envs| == |es| && |fieldAns| == |es| && |allAns| == |es| && es != []
    ensures |r.entities| == |es|
    ensures r.result.Ok? ==> |r.result.value.0| == |es| && |r.result.value.1| == |es|
    decreases |es|, 0
  {
    var n := |es| - 1;
    ReadNext(ReadAll(es[..n], envs[..n], c, keyBy, fieldAns[..n], allAns[..n]), es[n], envs[n], keyBy, fieldAns[n], allAns[n])
  }

  /** A nonempty `foreach` is the one over all but the last object, then the last turn. */
  lemma ReadAllLast(es: seq<Entity>, envs: seq<Env>, c: Caches, keyBy: Option<string>,
                    fieldAns: seq<LoadAnswers>, allAns: seq<LoadAnswers>)
    requires |envs| == |es| && |fieldAns| == |es| && |allAns| == |es| && es != []
    ensures var n := |es| - 1;
      ReadAll(es, envs, c, keyBy, fieldAns, allAns)
      == ReadNext(ReadAll(es[..n], envs[..n], c, keyBy, fieldAns[..n], allAns[..n]), es[n], envs[n], keyBy, fieldAns[n], allAns[n])
  {
  }

  /** The first i + 1 turns are the first i and one more. */
  lemma ReadAllPrefix(es: seq<Entity>, envs: seq<Env>, c: Caches, keyBy: Option<string>,
                      fieldAns: seq<LoadAnswers>, allAns: seq<LoadAnswers>, i: nat)
    requires |envs| == |es| && |fieldAns| == |es| && |allAns| == |es| && i < |es|
    ensures ReadAll(es[..i + 1], envs[..i + 1], c, keyBy, fieldAns[..i + 1], allAns[..i + 1])
         == ReadNext(ReadAll(es[..i], envs[..i], c, keyBy, fieldAns[..i], allAns[..i]), es[i], envs[i], keyBy, fieldAns[i], allAns[i])
  {
    ReadAllLast(es[..i + 1], envs[..i + 1], c, keyBy, fieldAns[..i + 1], allAns[..i + 1]);
    assert es[..i + 1][..i] == es[..i] && envs[..i + 1][..i] == envs[..i];
    assert fieldAns[..i + 1][..i] == fieldAns[..i] && allAns[..i + 1][..i] == allAns[..i];
  }

  /** After a turn that stops PHP, the remaining objects are not touched. */
  lemma {:induction false} ReadAllStopped(es: seq<Entity>, envs: seq<Env>, c: Caches, keyBy: Option<string>,
                                         fieldAns: seq<LoadAnswers>, allAns: seq<LoadAnswers>, m: nat)
    requires |envs| == |es| && |fieldAns| == |es| && |allAns| == |es| && m <= |es|
    requires ReadAll(es[..m], envs[..m], c, keyBy, fieldAns[..m], allAns[..m]).result.Err?
    ensures var p := ReadAll(es[..m], envs[..m], c, keyBy, fieldAns[..m], allAns[..m]);
      ReadAll(es, envs, c, keyBy, fieldAns, allAns) == Reads(p.entities + es[m..], p.caches, p.result)
    decreases |es|
  {
    var p := ReadAll(es[..m], envs[..m], c, keyBy, fieldAns[..m], allAns[..m]);
    if m == |es| {
      assert es[..m] == es && envs[..m] == envs && fieldAns[..m] == fieldAns && allAns[..m] == allAns;
      assert es[m..] == [];
    } else {
      var n := |es| - 1;
      ReadAllLast(es, envs, c, keyBy, fieldAns, allAns);
      assert es[..n][..m] == es[..m] && envs[..n][..m] == envs[..m];
      assert fieldAns[..n][..m] == fieldAns[..m] && allAns[..n][..m] == allAns[..m];
      ReadAllStopped(es[..n], envs[..n], c, keyBy, fieldAns[..n], allAns[..n], m);
      assert es[m..] == es[..n][m..] + [es[n]];
    }
  }

  /** Where the `foreach` of `convertToAssoc` ends: after every object, or at the first turn that stops PHP. */
  lemma ReadAllFinished(es: seq<Entity>, envs: seq<Env>, c: Caches, keyBy: Option<string>,
                        fieldAns: seq<LoadAnswers>, allAns: seq<LoadAnswers>, m: nat)
    requires |envs| == |es| && |fieldAns| == |es| && |allAns| == |es| && m <= |es|
    requires m < |es| ==> ReadAll(es[..m], envs[..m], c, keyBy, fieldAns[..m], allAns[..m]).result.Err?
    ensures var p := ReadAll(es[..m], envs[..m], c, keyBy, fieldAns[..m], allAns[..m]);
      ReadAll(es, envs, c, keyBy, fieldAns, allAns) == Reads(p.entities + es[m..], p.caches, p.result)
  {
    if m < |es| {
      ReadAllStopped(es, envs, c, keyBy, fieldAns, allAns, m);
    } else {
      assert es[..m] == es && envs[..m] == envs && fieldAns[..m] == fieldAns && allAns[..m] == allAns;
      assert es[m..] == [];
    }
  }

  /** The `foreach` of `convertToAssoc` leaves every object that was loaded as it was. */
  lemma {:induction false} ReadAllKeepsLoaded(es: seq<Entity>, envs: seq<Env>, c: Caches, keyBy: Option<string>,
                                             fieldAns: seq<LoadAnswers>, allAns: seq<LoadAnswers>)
    requires |envs| == |es| && |fieldAns| == |es| && |allAns| == |es|
    ensures var r := ReadAll(es, envs, c, keyBy, fieldAns, allAns);
      forall i | 0 <= i < |es| && es[i].loaded :: r.entities[i] == es[i]
    decreases |es|
  {
    if es != [] {
      var n := |es| - 1;
      ReadAllLast(es, envs, c, keyBy, fieldAns, allAns);
      var p := ReadAll(es[..n], envs[..n], c, keyBy, fieldAns[..n], allAns[..n]);
      ReadAllKeepsLoaded(es[..n], envs[..n], c, keyBy, fieldAns[..n], allAns[..n]);
      if es[n].loaded && p.result.Ok? {
        ReadEntryLoaded(es[n], p.caches, envs[n], keyBy, fieldAns[n], allAns[n]);
      }
      var r := ReadAll(es, envs, c, keyBy, fieldAns, allAns);
      ReadNextParts(p, es[n], envs[n], keyBy, fieldAns[n], allAns[n]);
      forall i | 0 <= i < |es| && es[i].loaded ensures r.entities[i] == es[i] {
        if i < n {
          assert es[..n][i] == es[i];
          assert r.entities[i] == p.entities[i];
        } else {
          assert i == n;
        }
      }
    }
  }

  /** Each row the `foreach` of `convertToAssoc` reads is the object's fields as it leaves them. */
  lemma {:induction false} ReadAllRows(es: seq<Entity>, envs: seq<Env>, c: Caches, keyBy: Option<string>,
                                      fieldAns: seq<LoadAnswers>, allAns: seq<LoadAnswers>)
    requires |envs| == |es| && |fieldAns| == |es| && |allAns| == |es|
    ensures var r := ReadAll(es, envs, c, keyBy, fieldAns, allAns);
      r.result.Ok? ==> forall i | 0 <= i < |es| :: r.result.value.1[i] == r.entities[i].fields
    decreases |es|
  {
    if es != [] {
      var n := |es| - 1;
      ReadAllLast(es, envs, c, keyBy, fieldAns, allAns);
      var p := ReadAll(es[..n], envs[..n], c, keyBy, fieldAns[..n], allAns[..n]);
      ReadAllRows(es[..n], envs[..n], c, keyBy, fieldAns[..n], allAns[..n]);
      var r := ReadAll(es, envs, c, keyBy, fieldAns, allAns);
      assert r == ReadNext(p, es[n], envs[n], keyBy, fieldAns[n], allAns[n]);
      ReadNextParts(p, es[n], envs[n], keyBy, fieldAns[n], allAns[n]);
      if r.result.Ok? {
        ReadEntryRow(es[n], p.caches, envs[n], keyBy, fieldAns[n], allAns[n]);
        forall i | 0 <= i < n ensures r.result.value.1[i] == r.entities[i].fields {
          assert r.result.value.1[i] == p.result.value.1[i] && r.entities[i] == p.entities[i];
        }
      }
    }
  }

  /** The last turn adds one key to those read before it, and reads a loaded object's key from its fields. */
  lemma ReadAllLastKey(es: seq<Entity>, envs: seq<Env>, c: Caches, key: string,
                       fieldAns: seq<LoadAnswers>, allAns: seq<LoadAnswers>)
    requires |envs| == |es| && |fieldAns| == |es| && |allAns| == |es| && es != []
    ensures var n := |es| - 1;
      var p := ReadAll(es[..n], envs[..n], c, Some(key), fieldAns[..n], allAns[..n]);
      var r := ReadAll(es, envs, c, Some(key), fieldAns, allAns);
      r.result.Ok? ==> && p.result.Ok? && r.result.value.0[..n] == p.result.value.0
                       && (es[n].loaded ==> r.result.value.0[n] == ArrayKey(FieldValue(es[n].fields, key)))
  {
    var n := |es| - 1;
    ReadAllLast(es, envs, c, Some(key), fieldAns, allAns);
    var p := ReadAll(es[..n], envs[..n], c, Some(key), fieldAns[..n], allAns[..n]);
    ReadNextParts(p, es[n], envs[n], Some(key), fieldAns[n], allAns[n]);
    if es[n].loaded && p.result.Ok? {
      ReadEntryLoaded(es[n], p.caches, envs[n], Some(key), fieldAns[n], allAns[n]);
    }
  }

  /** The key the `foreach` of `convertToAssoc` reads for an object loaded before is its value in that column. */
  lemma {:induction false} ReadAllKeys(es: seq<Entity>, envs: seq<Env>, c: Caches, key: string,
                                      fieldAns: seq<LoadAnswers>, allAns: seq<LoadAnswers>, i: nat)
    requires |envs| == |es| && |fieldAns| == |es| && |allAns| == |es|
    requires i < |es| && es[i].loaded
    ensures var r := ReadAll(es, envs, c, Some(key), fieldAns, allAns);
      r.result.Ok? ==> r.result.value.0[i] == ArrayKey(FieldValue(es[i].fields, key))
    decreases |es|
  {
    var n := |es| - 1;
    ReadAllLastKey(es, envs, c, key, fieldAns, allAns);
    var r := ReadAll(es, envs, c, Some(key), fieldAns, allAns);
    if r.result.Ok? {
      if i < n {
        assert es[..n][i] == es[i];
        ReadAllKeys(es[..n], envs[..n], c, key, fieldAns[..n], allAns[..n], i);
        assert r.result.value.0[i] == r.result.value.0[..n][i];
      } else {
        assert i == n;
      }
    }
  }

  /** Over objects that are all loaded, the `foreach` sends nothing and changes nothing. */
  lemma {:induction false} ReadAllLoaded(es: seq<Entity>, envs: seq<Env>, c: Caches, keyBy: Option<string>,
                                        fieldAns: seq<LoadAnswers>, allAns: seq<LoadAnswers>)
    requires |envs| == |es| && |fieldAns| == |es| && |allAns| == |es|
    requires forall i | 0 <= i < |es| :: es[i].loaded
    ensures var r := ReadAll(es, envs, c, keyBy, fieldAns, allAns);
      r.entities == es && r.caches == c && r.result.Ok?
    decreases |es|
  {
    if es != [] {
      var n := |es| - 1;
      ReadAllLast(es, envs, c, keyBy, fieldAns, allAns);
      forall i | 0 <= i < n ensures es[..n][i].loaded {
        assert es[..n][i] == es[i];
      }
      ReadAllLoaded(es[..n], envs[..n], c, keyBy, fieldAns[..n], allAns[..n]);
      var p := ReadAll(es[..n], envs[..n], c, keyBy, fieldAns[..n], allAns[..n]);
      ReadEntryLoaded(es[n], p.caches, envs[n], keyBy, fieldAns[n], allAns[n]);
      assert es == es[..n] + [es[n]];
    }
  }

  // ---------------------------------------------------------------- writing fields

  /** `$this->modified_fields[$field] = true`: an existing mark keeps its place. */
  function MarkDirty(dirty: seq<string>, key: string): (r: seq<string>)
    ensures forall k :: k in r <==> k in dirty || k == key
  {
    if key in dirty then dirty else dirty + [key]
  }

  /**
   * One write of `setField`/`setFields` to a loaded row. An unknown key is refused. A new
   * row (id 0) stores and marks every write; a stored row only a value that differs (PHP
   * `!=`) from the current one, and leaves everything as it was otherwise.
   */
  function WriteField(e: Entity, key: string, value: Value): (r: Option<Entity>)
    ensures r.None? <==> !HasKey(e.fields, key)
    ensures r.Some? && e.id != 0 && LooseEquals(Get(e.fields, key), value) ==> r.value == e
    ensures r.Some? && (e.id == 0 || !LooseEquals(Get(e.fields, key), value)) ==>
      var n := r.value;
      && Lookup(n.fields, key) == Some(value)
      && (forall k | k != key :: Lookup(n.fields, k) == Lookup(e.fields, k))
      && (forall k :: HasKey(n.fields, k) <==> HasKey(e.fields, k))
      && n.modified
      && (forall k :: k in n.dirty <==> k in e.dirty || k == key)
      && n.id == e.id && n.readonly == e.readonly && n.loaded == e.loaded
  {
    if !HasKey(e.fields, key) then None
    else if e.id == 0 || !LooseEquals(Get(e.fields, key), value) then
      KeysPut(e.fields, key, value);
      Some(e.(fields := Put(e.fields, key, value), modified := true, dirty := MarkDirty(e.dirty, key)))
    else Some(e)
  }

  /** The `foreach` of `setFields`: writes in order, stops at the first unknown key. */
  function ApplyWrites(e: Entity, writes: seq<(string, Value)>): (r: (Entity, Outcome))
    ensures r.0.id == e.id && r.0.readonly == e.readonly && r.0.loaded == e.loaded
    ensures forall k :: HasKey(r.0.fields, k) <==> HasKey(e.fields, k)
    ensures forall k | k !in Keys(writes) :: Lookup(r.0.fields, k) == Lookup(e.fields, k)
    ensures forall k | k in e.dirty :: k in r.0.dirty
    ensures forall k | k in r.0.dirty :: k in e.dirty || k in Keys(writes)
    ensures e.modified ==> r.0.modified
    ensures r.1 == Pass || r.1 == Fail(ImproperUse)
    decreases |writes|
  {
    if writes == [] then (e, Pass)
    else
      match WriteField(e, writes[0].0, writes[0].1)
      case None => (e, Fail(ImproperUse))
      case Some(n) =>
        assert Keys(writes) == [writes[0].0] + Keys(writes[1..]);
        ApplyWrites(n, writes[1..])
  }

  /** The two outcomes of a write to a known key, as equations. */
  lemma WriteFieldCases(e: Entity, key: string, value: Value)
    requires HasKey(e.fields, key)
    ensures e.id == 0 || !LooseEquals(Get(e.fields, key), value) ==>
      WriteField(e, key, value) == Some(e.(fields := Put(e.fields, key, value), modified := true, dirty := MarkDirty(e.dirty, key)))
    ensures e.id != 0 && LooseEquals(Get(e.fields, key), value) ==> WriteField(e, key, value) == Some(e)
  {
  }

  /** One turn of the `foreach` of `setFields`. */
  lemma ApplyWritesFrom(e: Entity, writes: seq<(string, Value)>, i: nat)
    requires i < |writes|
    ensures !HasKey(e.fields, writes[i].0) ==> ApplyWrites(e, writes[i..]) == (e, Fail(ImproperUse))
    ensures HasKey(e.fields, writes[i].0) ==>
      ApplyWrites(e, writes[i..]) == ApplyWrites(WriteField(e, writes[i].0, writes[i].1).value, writes[i + 1..])
  {
    assert writes[i..][0] == writes[i] && writes[i..][1..] == writes[i + 1..];
  }

  /** `setField`: the lazy load, then the write; a load that stops PHP stops it too. */
  function SetFieldStep(e: Entity, c: Caches, env: Env, ans: LoadAnswers, key: string, value: Value): Step<Outcome> {
    var s := LoadBeforeWrite(e, c, env, ans);
    if s.result == Fail(Fatal) then s
    else match WriteField(s.entity, key, value)
    case None => Step(s.entity, s.caches, s.issued, Fail(ImproperUse))
    case Some(n) => Step(n, s.caches, s.issued, Pass)
  }

  /** `setFields`: the lazy load, then the writes; a load that stops PHP stops it too. */
  function SetFieldsStep(e: Entity, c: Caches, env: Env, ans: LoadAnswers, writes: seq<(string, Value)>): Step<Outcome> {
    var s := LoadBeforeWrite(e, c, env, ans);
    if s.result == Fail(Fatal) then s
    else
      var (n, out) := ApplyWrites(s.entity, writes);
      Step(n, s.caches, s.issued, out)
  }

  /**
   * setFields returns at the first key the row lacks: every write before it has been
   * made exactly as a sequence of setField calls would, and nothing after it.
   */
  lemma {:induction false} ApplyWritesStops(e: Entity, writes: seq<(string, Value)>, n: nat)
    requires n <= |writes|
    requires forall i | 0 <= i < n :: HasKey(e.fields, writes[i].0)
    requires n < |writes| ==> !HasKey(e.fields, writes[n].0)
    ensures ApplyWrites(e, writes) == (ApplyWrites(e, writes[..n]).0, if n < |writes| then Fail(ImproperUse) else Pass)
    decreases n
  {
    if n == 0 {
      assert writes[..0] == [];
    } else {
      var e1 := WriteField(e, writes[0].0, writes[0].1).value;
      assert writes[..n][1..] == writes[1..][..n - 1];
      assert writes[..n][0] == writes[0];
      forall i | 0 <= i < n - 1 ensures HasKey(e1.fields, writes[1..][i].0) {
        assert writes[1..][i] == writes[i + 1];
        WriteFieldKeepsKeys(e, writes[0].0, writes[0].1, writes[i + 1].0);
      }
      if n < |writes| {
        assert writes[1..][n - 1] == writes[n];
        WriteFieldKeepsKeys(e, writes[0].0, writes[0].1, writes[n].0);
      }
      ApplyWritesStops(e1, writes[1..], n - 1);
    }
  }

  /** The prefix of distinct known writes after the first is distinct and still known. */
  lemma WritesTail(e: Entity, writes: seq<(string, Value)>)
    requires UniqueKeys(writes) && writes != []
    requires forall j | 0 <= j < |writes| :: HasKey(e.fields, writes[j].0)
    ensures var e1 := WriteField(e, writes[0].0, writes[0].1).value;
      && ApplyWrites(e, writes) == ApplyWrites(e1, writes[1..])
      && UniqueKeys(writes[1..])
      && writes[0].0 !in Keys(writes[1..])
      && (forall j | 0 <= j < |writes[1..]| :: HasKey(e1.fields, writes[1..][j].0))
  {
    var rest := writes[1..];
    UniqueTail(writes);
    forall j | 0 <= j < |rest| ensures HasKey(e.fields, rest[j].0) {
      assert rest[j] == writes[j + 1];
    }
  }

  /** setField and setFields never reorder the row's columns. */
  lemma {:induction false} ApplyWritesKeepsOrder(e: Entity, writes: seq<(string, Value)>)
    ensures Keys(ApplyWrites(e, writes).0.fields) == Keys(e.fields)
    decreases |writes|
  {
    if writes != [] {
      var (key, value) := writes[0];
      if HasKey(e.fields, key) {
        WriteFieldCases(e, key, value);
        KeysPut(e.fields, key, value);
        ApplyWritesKeepsOrder(WriteField(e, key, value).value, writes[1..]);
      }
    }
  }

  /** One write keeps the set of columns. */
  lemma WriteFieldKeepsKeys(e: Entity, key: string, value: Value, k: string)
    requires HasKey(e.fields, key)
    ensures HasKey(WriteField(e, key, value).value.fields, k) <==> HasKey(e.fields, k)
  {
    WriteFieldCases(e, key, value);
  }

  /** One write leaves the identity and every other key as they were. */
  lemma WriteFieldElsewhere(e: Entity, key: string, value: Value, k: string)
    requires HasKey(e.fields, key) && k != key
    ensures var n := WriteField(e, key, value).value;
      n.id == e.id && Lookup(n.fields, k) == Lookup(e.fields, k)
  {
    WriteFieldCases(e, key, value);
  }

  /** The first of distinct known writes survives the rest of setFields. */
  lemma FirstWriteStored(e: Entity, writes: seq<(string, Value)>)
    requires UniqueKeys(writes) && writes != []
    requires forall j | 0 <= j < |writes| :: HasKey(e.fields, writes[j].0)
    ensures var (k, v) := writes[0];
      var (r, out) := ApplyWrites(e, writes);
      && out == Pass
      && HasKey(r.fields, k)
      && LooseEquals(Get(r.fields, k), v)
      && ((e.id == 0 || !LooseEquals(Get(e.fields, k), v)) ==>
            Get(r.fields, k) == v && k in r.dirty && r.modified)
  {
    var (k, v) := writes[0];
    var e1 := WriteField(e, k, v).value;
    var rest := writes[1..];
    WritesTail(e, writes);
    ApplyWritesStops(e1, rest, |rest|);
    assert rest[..|rest|] == rest;
    var r := ApplyWrites(e1, rest).0;
    assert Lookup(r.fields, k) == Lookup(e1.fields, k);
    LooseEqualsReflexive(v);
  }

  /**
   * After setFields with distinct known keys, every key holds a value equal (PHP `==`) to
   * the one written; a key written to a new row, or with a value that differs from the
   * one before, holds exactly the written value and is marked modified.
   */
  lemma {:induction false} ApplyWritesStores(e: Entity, writes: seq<(string, Value)>, i: nat)
    requires UniqueKeys(writes)
    requires forall j | 0 <= j < |writes| :: HasKey(e.fields, writes[j].0)
    requires i < |writes|
    ensures var (r, out) := ApplyWrites(e, writes);
      && out == Pass
      && HasKey(r.fields, writes[i].0)
      && LooseEquals(Get(r.fields, writes[i].0), writes[i].1)
      && ((e.id == 0 || !LooseEquals(Get(e.fields, writes[i].0), writes[i].1)) ==>
            Get(r.fields, writes[i].0) == writes[i].1 && writes[i].0 in r.dirty && r.modified)
    decreases i
  {
    if i == 0 {
      FirstWriteStored(e, writes);
    } else {
      var e1 := WriteField(e, writes[0].0, writes[0].1).value;
      var rest := writes[1..];
      WritesTail(e, writes);
      assert rest[i - 1] == writes[i];
      WriteFieldElsewhere(e, writes[0].0, writes[0].1, writes[i].0);
      ApplyWritesStores(e1, rest, i - 1);
    }
  }

  /**
   * A lazy load that stops PHP stops setField and setFields there, with no write; one that
   * fails otherwise is ignored and the writes go to the fields as they are.
   */
  lemma WriteStopsOnFatalLoad(e: Entity, c: Caches, env: Env, ans: LoadAnswers, key: string, value: Value,
                              writes: seq<(string, Value)>)
    ensures var s := LoadBeforeWrite(e, c, env, ans);
      && (s.result == Fail(Fatal) <==> !e.loaded && e.id != 0 && LoadStep(e, c, env, ans).result == Fail(Fatal))
      && (s.result == Fail(Fatal) ==> SetFieldStep(e, c, env, ans, key, value) == s && SetFieldsStep(e, c, env, ans, writes) == s)
      && (s.result != Fail(Fatal) ==> SetFieldsStep(e, c, env, ans, writes).entity == ApplyWrites(s.entity, writes).0)
  {
  }

  /** setField on a key the row lacks is refused and changes nothing beyond its load, unless the load stopped PHP. */
  lemma SetFieldUnknownKey(e: Entity, c: Caches, env: Env, ans: LoadAnswers, key: string, value: Value)
    requires LoadBeforeWrite(e, c, env, ans).result != Fail(Fatal)
    requires !HasKey(LoadBeforeWrite(e, c, env, ans).entity.fields, key)
    ensures var s := SetFieldStep(e, c, env, ans, key, value);
      s.result == Fail(ImproperUse) && s == LoadBeforeWrite(e, c, env, ans).(result := s.result)
  {
  }

  /** On a loaded stored row, writing a value equal to the current one changes nothing. */
  lemma SetFieldSameValue(e: Entity, c: Caches, env: Env, ans: LoadAnswers, key: string, value: Value)
    requires e.loaded && e.id != 0 && HasKey(e.fields, key) && LooseEquals(Get(e.fields, key), value)
    ensures SetFieldStep(e, c, env, ans, key, value) == Step(e, c, [], Pass)
  {
  }

  /**
   * On a loaded row, a write that differs (or any write to a new row) stores the value,
   * sets `modified` and adds exactly that key to the marks.
   */
  lemma SetFieldMarks(e: Entity, c: Caches, env: Env, ans: LoadAnswers, key: string, value: Value)
    requires e.loaded && HasKey(e.fields, key)
    requires e.id == 0 || !LooseEquals(Get(e.fields, key), value)
    ensures var s := SetFieldStep(e, c, env, ans, key, value);
      && s.result == Pass && s.issued == [] && s.caches == c
      && Lookup(s.entity.fields, key) == Some(value)
      && (forall k | k != key :: Lookup(s.entity.fields, k) == Lookup(e.fields, k))
      && s.entity.modified
      && (forall k :: k in s.entity.dirty <==> k in e.dirty || k == key)
  {
  }

  // ---------------------------------------------------------------- save and destroy

  /** A successful write: `modified = 0`, `modified_fields` unset, the row cached. */
  function Committed(e: Entity, c: Caches, env: Env, issued: seq<string>): Step<Result<bool>> {
    var n := e.(modified := false, dirty := []);
    Step(n, c.(rows := CacheRow(c.rows, env.table, n.id, n.fields)), issued, Ok(true))
  }

  /** The INSERT branch of `save` and the LAST_INSERT_ID query after it. */
  function InsertStep(e: Entity, c: Caches, env: Env, ans: SaveAnswers): Step<Result<bool>> {
    if !env.live then Step(e, c, [], Err(Fatal))
    else
      var insert := InsertSql(env.table, e.fields, env.quote);
      if ans.writeFails then Step(e, c, [insert], Err(BadQuery))
      else
        var issued := [insert, LastIdSql(env.pk)];
        match ans.lastId
        case LastIdFailed => Step(e, c, issued, Err(Fatal))
        case NoIdRow => Step(e, c, issued, Ok(false))
        case IdRow(v) => Adopted(e, c, env, v).(issued := issued)
  }

  /**
   * The key value LAST_INSERT_ID returned is written into the row; a positive id makes
   * the row stored and saved, anything else leaves it new and `save` returns false.
   */
  function Adopted(e: Entity, c: Caches, env: Env, v: Value): Step<Result<bool>> {
    var n := e.(fields := Put(e.fields, env.pk, v));
    if IdOf(v) > 0 then Committed(n.(loaded := true, id := IdOf(v)), c, env, [])
    else Step(n, c, [], Ok(false))
  }

  /** The UPDATE branch of `save`. */
  function UpdateStep(e: Entity, c: Caches, env: Env, ans: SaveAnswers): Step<Result<bool>> {
    if !env.live then Step(e, c, [], Err(Fatal))
    else
      var update := UpdateSql(env.table, e.fields, e.dirty, env.quote, env.pk, e.id);
      if ans.writeFails then Step(e, c, [update], Err(BadQuery))
      else Committed(e, c, env, [update])
  }

  /**
   * `save`: refused on a readonly object; INSERT when the row is not loaded (always for
   * id 0, which forces `loaded = 0`); nothing when it is loaded and unmodified; UPDATE
   * otherwise.
   */
  function SaveStep(e: Entity, c: Caches, env: Env, ans: SaveAnswers): Step<Result<bool>> {
    if e.readonly then Step(e, c, [], Ok(false))
    else
      var e1 := if e.id == 0 then e.(loaded := false) else e;
      if !e1.loaded then InsertStep(e1, c, env, ans)
      else if !e1.modified then Step(e1, c, [], Ok(true))
      else UpdateStep(e1, c, env, ans)
  }

  /** `destroy`: DELETE by key when the id is set. The row cache keeps its copy. */
  function DestroyStep(e: Entity, c: Caches, env: Env, fails: bool): Step<Outcome> {
    if e.id == 0 then Step(e, c, [], Pass)
    else if !env.live then Step(e, c, [], Fail(Fatal))
    else Step(e, c, [DeleteSql(env.table, env.pk, env.quote, e.id)], if fails then Fail(BadQuery) else Pass)
  }

  /** save on a readonly object returns false and sends nothing. */
  lemma SaveReadonly(e: Entity, c: Caches, env: Env, ans: SaveAnswers)
    requires e.readonly
    ensures SaveStep(e, c, env, ans) == Step(e, c, [], Ok(false))
  {
  }

  /** save on a loaded, unmodified stored row returns true and sends nothing. */
  lemma SaveUnmodified(e: Entity, c: Caches, env: Env, ans: SaveAnswers)
    requires !e.readonly && e.id != 0 && e.loaded && !e.modified
    ensures SaveStep(e, c, env, ans) == Step(e, c, [], Ok(true))
  {
  }

  /** The statement save sends decides INSERT against UPDATE by `loaded`, not by the id alone. */
  lemma SaveChoosesStatement(e: Entity, c: Caches, env: Env, ans: SaveAnswers)
    requires !e.readonly && env.live
    ensures var s := SaveStep(e, c, env, ans);
      && (e.id == 0 || !e.loaded ==>
            s.issued != [] && s.issued[0] == InsertSql(env.table, e.fields, env.quote))
      && (e.id != 0 && e.loaded && e.modified ==>
            s.issued == [UpdateSql(env.table, e.fields, e.dirty, env.quote, env.pk, e.id)])
  {
  }

  /**
   * After a save that returns true the row is clean and cached, and its id is set; an
   * INSERT whose LAST_INSERT_ID is not positive returns false with the id unchanged.
   */
  lemma SaveOutcome(e: Entity, c: Caches, env: Env, ans: SaveAnswers)
    ensures var s := SaveStep(e, c, env, ans);
      && (s.result == Ok(true) && s.issued != [] ==>
            && !s.entity.modified && s.entity.dirty == [] && s.entity.loaded && s.entity.id != 0
            && CachedRow(s.caches, env.table, s.entity.id) == Some(s.entity.fields))
      && (s.result == Ok(false) ==> s.entity.id == e.id && s.entity.dirty == e.dirty)
      && ((!e.readonly && (e.id == 0 || !e.loaded) && env.live && !ans.writeFails
            && ans.lastId.IdRow? && IdOf(ans.lastId.value) == 0) ==> s.result == Ok(false))
  {
    if !e.readonly {
      var e1 := if e.id == 0 then e.(loaded := false) else e;
      if !e1.loaded {
        InsertOutcome(e1, c, env, ans);
      } else if e1.modified {
        CommittedOutcome(e1, c, env, [UpdateSql(env.table, e1.fields, e1.dirty, env.quote, env.pk, e1.id)]);
      }
    }
  }

  /** The state a successful save leaves: clean, loaded, and cached under its id. */
  lemma CommittedOutcome(e: Entity, c: Caches, env: Env, issued: seq<string>)
    requires e.id != 0
    ensures var s := Committed(e, c, env, issued);
      && !s.entity.modified && s.entity.dirty == [] && s.entity.loaded == e.loaded && s.entity.id == e.id
      && CachedRow(s.caches, env.table, s.entity.id) == Some(s.entity.fields)
  {
  }

  /** The INSERT branch returns true only with a positive new id, and false with the id as it was. */
  lemma InsertOutcome(e: Entity, c: Caches, env: Env, ans: SaveAnswers)
    requires e.id == 0 || !e.loaded
    ensures var s := InsertStep(e, c, env, ans);
      && (s.result == Ok(true) ==>
            && !s.entity.modified && s.entity.dirty == [] && s.entity.loaded && s.entity.id != 0
            && CachedRow(s.caches, env.table, s.entity.id) == Some(s.entity.fields))
      && (s.result == Ok(false) ==> s.entity.id == e.id && s.entity.dirty == e.dirty)
      && ((env.live && !ans.writeFails && ans.lastId.IdRow? && IdOf(ans.lastId.value) == 0) ==> s.result == Ok(false))
  {
    if env.live && !ans.writeFails && ans.lastId.IdRow? {
      var v := ans.lastId.value;
      if IdOf(v) > 0 {
        var n := e.(fields := Put(e.fields, env.pk, v));
        CommittedOutcome(n.(loaded := true, id := IdOf(v)), c, env, []);
      }
    }
  }

  /** A new row's save that gets a positive LAST_INSERT_ID stores it under the key column. */
  lemma SaveNewRow(e: Entity, c: Caches, env: Env, ans: SaveAnswers)
    requires !e.readonly && e.id == 0 && env.live && !ans.writeFails
    requires ans.lastId.IdRow? && IdOf(ans.lastId.value) > 0
    ensures var s := SaveStep(e, c, env, ans);
      && s.result == Ok(true)
      && s.issued == [InsertSql(env.table, e.fields, env.quote), LastIdSql(env.pk)]
      && s.entity.id == IdOf(ans.lastId.value)
      && s.entity.fields == Put(e.fields, env.pk, ans.lastId.value)
  {
  }

  /** Saving twice in a row: the second save sends nothing and returns true. */
  lemma SaveTwice(e: Entity, c: Caches, env: Env, ans1: SaveAnswers, ans2: SaveAnswers)
    requires SaveStep(e, c, env, ans1).result == Ok(true)
    ensures var s := SaveStep(e, c, env, ans1);
      SaveStep(s.entity, s.caches, env, ans2) == Step(s.entity, s.caches, [], Ok(true))
  {
    var s := SaveStep(e, c, env, ans1);
    assert !s.entity.readonly;
    assert s.issued != [] ==> s.entity.loaded && s.entity.id != 0 && !s.entity.modified;
  }

  /** A fresh object for a stored id: nothing loaded, nothing marked. */
  function Unloaded(id: nat): Entity {
    Entity(id, false, false, false, [], [])
  }

  /**
   * After a save that wrote the row, a fresh object for the same id loads exactly the
   * saved fields from the row cache, with no statement.
   */
  lemma SaveThenLoad(e: Entity, c: Caches, env: Env, ans: SaveAnswers, lans: LoadAnswers)
    requires var s := SaveStep(e, c, env, ans); s.result == Ok(true) && s.issued != []
    ensures var s := SaveStep(e, c, env, ans);
      var l := LoadStep(Unloaded(s.entity.id), s.caches, env, lans);
      l.issued == [] && l.result == Pass && l.entity.fields == s.entity.fields
  {
    SaveOutcome(e, c, env, ans);
  }

  /** destroy leaves the row cache as it was, so a cached copy of the deleted row survives. */
  lemma DestroyKeepsCache(e: Entity, c: Caches, env: Env, fails: bool)
    ensures var s := DestroyStep(e, c, env, fails);
      s.caches == c && s.entity == e && (e.id == 0 ==> s.issued == [])
  {
  }

  /**
   * Round trip: a new row that gets distinct known non-key columns written and saved
   * with a positive new id reads back, on a fresh object for that id, every value written.
   */
  lemma {:induction false} NewRowRoundTrip(e: Entity, c: Caches, env: Env, writes: seq<(string, Value)>,
                                          sans: SaveAnswers, lans: LoadAnswers, i: nat)
    requires e.id == 0 && e.loaded && !e.readonly && env.live
    requires UniqueKeys(writes) && i < |writes|
    requires forall j | 0 <= j < |writes| :: HasKey(e.fields, writes[j].0)
    requires writes[i].0 != env.pk
    requires !sans.writeFails && sans.lastId.IdRow? && IdOf(sans.lastId.value) > 0
    ensures var w := SetFieldsStep(e, c, env, lans, writes);
      var s := SaveStep(w.entity, w.caches, env, sans);
      var g := GetFieldStep(Unloaded(s.entity.id), s.caches, env, lans, writes[i].0);
      && w.result == Pass && s.result == Ok(true)
      && g.issued == [] && g.result == Ok(writes[i].1)
  {
    var w := SetFieldsStep(e, c, env, lans, writes);
    ApplyWritesStores(e, writes, i);
    assert w.entity == ApplyWrites(e, writes).0;
    assert w.entity.id == 0 && !w.entity.readonly;
    SaveNewRow(w.entity, w.caches, env, sans);
    SaveThenLoad(w.entity, w.caches, env, sans, lans);
  }
}
