/**
 * The DbTable row mapper as an object: its fields are the per-row state, the process-wide
 * arrays live in a Registry it shares with every other DbTable, and each method is proved
 * to change that state exactly as the matching step of module Lifecycle says.
 */
module Table {
  import opened Values
  import opened Assoc
  import opened Sql
  import opened Database
  import opened Lifecycle

  /** What `initialize` receives as `$tuple_id`: an id, or a row fetched already. */
  datatype InitArg = ById(id: nat) | ByRow(row: Row)

  /** The primary-key value of a row as PHP reads it: null when the column is missing. */
  function KeyValue(row: Row, pk: string): Value {
    match Lookup(row, pk)
    case Some(v) => v
    case None => Null
  }

  /** Statements sent by two calls in a row, regrouped. */
  lemma AppendTwice(log: seq<string>, first: seq<string>, second: seq<string>)
    ensures log + first + second == log + (first + second)
  {
  }

  /** The connection `connect` leaves registered for `dsn` when offered `attempt`. */
  function Target(reg: Registry, dsn: string, attempt: Connection): Connection
    reads reg
  {
    if dsn in reg.connections then reg.connections[dsn] else attempt
  }

  class DbTable {
    const reg: Registry
    var dsn: string
    var table: string
    var id: nat
    var readonly: bool
    var loaded: bool
    var modified: bool
    var fields: Row
    var dirty: seq<string>

    /** After `initialize`: the DSN is registered and the table has a primary key configured. */
    ghost predicate Valid()
      reads this`dsn, this`table, reg`connections
    {
      dsn in reg.connections && reg.HasPrimaryKey(dsn, table)
    }

    /** `self::$aDB[$this->dsn]`. */
    function Conn(): Connection
      reads this`dsn, this`table, reg`connections
      requires Valid()
    {
      reg.connections[dsn]
    }

    function PrimaryKey(): string
      reads this`dsn, this`table, reg`connections
      requires Valid()
    {
      reg.PrimaryKey(dsn, table)
    }

    function Snapshot(): Entity
      reads this`id, this`readonly, this`loaded, this`modified, this`fields, this`dirty
    {
      Entity(id, readonly, loaded, modified, fields, dirty)
    }

    function CacheState(): Caches
      reads reg`describeCache, reg`objectCache
    {
      Caches(reg.describeCache, reg.objectCache)
    }

    function Context(): Env
      reads this`dsn, this`table, reg`connections
      requires Valid()
    {
      Env(table, PrimaryKey(), Conn().ok, Conn().quote)
    }

    /** The object a subclass constructor starts from, before it calls `initialize`. */
    constructor (reg: Registry)
      ensures this.reg == reg && dsn == "" && table == ""
      ensures Snapshot() == Entity(0, false, false, false, [], [])
    {
      this.reg := reg;
      dsn, table := "", "";
      id, readonly, loaded, modified := 0, false, false, false;
      fields, dirty := [], [];
    }

    /**
     * `initialize`: refuses a table without a configured primary key; otherwise connects
     * (ignoring the outcome), then either takes the row as given and marks it loaded, or
     * stores the id and loads at once, ignoring what the load returns unless it stops PHP.
     */
    method Initialize(dsn: string, table: string, arg: InitArg, attempt: Connection, ans: LoadAnswers)
      returns (res: Outcome)
      modifies this, reg, attempt`assocFetch, Target(reg, dsn, attempt)`log
      ensures !reg.HasPrimaryKey(dsn, table) ==>
        && res == Fail(ConfigError) && unchanged(this) && unchanged(reg) && unchanged(attempt)
        && unchanged(Target(reg, dsn, attempt))
      ensures dsn in old(reg.connections) ==> attempt.assocFetch == old(attempt.assocFetch)
      ensures reg.HasPrimaryKey(dsn, table) ==>
        && this.dsn == dsn && this.table == table && Valid()
        && reg.connections == (if dsn in old(reg.connections) then old(reg.connections)
                               else old(reg.connections)[dsn := attempt])
        && (dsn !in old(reg.connections) && attempt.ok ==> attempt.assocFetch)
        && match arg
           case ByRow(row) =>
             && res == Pass
             && Snapshot() == old(Snapshot()).(fields := row, id := IdOf(KeyValue(row, PrimaryKey())), loaded := true)
             && CacheState() == old(CacheState()) && var c := Conn(); c.log == old(c.log)
           case ById(n) =>
             var s := LoadStep(old(Snapshot()).(id := n), old(CacheState()), Context(), ans);
             && res == (if s.result == Fail(Fatal) then Fail(Fatal) else Pass)
             && Snapshot() == s.entity && CacheState() == s.caches && var c := Conn(); c.log == old(c.log) + s.issued
    {
      if !reg.HasPrimaryKey(dsn, table) {
        return Fail(ConfigError);
      }
      ghost var target := Target(reg, dsn, attempt);
      Attach(dsn, table, attempt);
      assert Conn() == target && target.log == old(target.log);
      assert CacheState() == old(CacheState()) && Snapshot() == old(Snapshot());
      match arg {
        case ByRow(row) =>
          TakeRow(row);
          res := Pass;
        case ById(n) =>
          res := LoadById(n, ans);
      }
    }

    /** The `is_array($arg)` branch of `initialize`: the row as given, marked loaded. */
    method TakeRow(row: Row)
      requires Valid()
      modifies this`fields, this`id, this`loaded
      ensures Snapshot() == old(Snapshot()).(fields := row, id := IdOf(KeyValue(row, PrimaryKey())), loaded := true)
    {
      fields := row;
      id := IdOf(KeyValue(row, reg.PrimaryKey(dsn, table)));
      loaded := true;
    }

    /** The id branch of `initialize`: store the id and load at once; only a load that stops PHP is reported. */
    method LoadById(n: nat, ans: LoadAnswers) returns (res: Outcome)
      requires Valid()
      modifies this`id, this`fields, this`loaded, this`dirty, reg`describeCache, reg`objectCache, Conn()`log
      ensures Valid()
      ensures var s := LoadStep(old(Snapshot()).(id := n), old(CacheState()), old(Context()), ans);
        && res == (if s.result == Fail(Fatal) then Fail(Fatal) else Pass)
        && Snapshot() == s.entity && CacheState() == s.caches && Conn().log == old(Conn().log) + s.issued
    {
      id := n;
      var loadOutcome := Load(ans);
      if loadOutcome == Fail(Fatal) {
        return Fail(Fatal);
      }
      return Pass;
    }

    /** The part of `initialize` after the configuration check: connect, then remember DSN and table. */
    method Attach(dsn: string, table: string, attempt: Connection)
      requires reg.HasPrimaryKey(dsn, table)
      modifies this`dsn, this`table, reg`connections, attempt`assocFetch
      ensures this.dsn == dsn && this.table == table && Valid()
      ensures reg.connections == (if dsn in old(reg.connections) then old(reg.connections)
                                  else old(reg.connections)[dsn := attempt])
      ensures attempt.assocFetch == ((dsn !in old(reg.connections) && attempt.ok) || old(attempt.assocFetch))
    {
      var connected := reg.Connect(dsn, attempt);
      this.table := table;
      this.dsn := dsn;
    }

    /** `load`. */
    method Load(ans: LoadAnswers) returns (res: Outcome)
      requires Valid()
      modifies this`fields, this`loaded, this`dirty, reg`describeCache, reg`objectCache, Conn()`log
      ensures Valid()
      ensures var s := LoadStep(old(Snapshot()), old(CacheState()), old(Context()), ans);
        Snapshot() == s.entity && CacheState() == s.caches && Conn().log == old(Conn().log) + s.issued
        && res == s.result
    {
      if id == 0 {
        res := LoadDefaults(ans);
      } else {
        res := LoadRow(ans);
      }
    }

    /** The branch of `load` for a new row: the default row, from the schema cache or DESCRIBE. */
    method LoadDefaults(ans: LoadAnswers) returns (res: Outcome)
      requires Valid() && id == 0
      modifies this`fields, this`loaded, this`dirty, reg`describeCache, reg`objectCache, Conn()`log
      ensures Valid()
      ensures var s := LoadStep(old(Snapshot()), old(CacheState()), old(Context()), ans);
        Snapshot() == s.entity && CacheState() == s.caches && Conn().log == old(Conn().log) + s.issued
        && res == s.result
    {
      var c := reg.connections[dsn];
      if table in reg.describeCache {
        fields := reg.describeCache[table];
      } else {
        if !c.ok {
          return Fail(Fatal);
        }
        c.Query(DescribeSql(table));
        fields := [];
        match ans.describe {
          case DescribeFailed =>
            return Fail(Fatal);
          case Described(rows) =>
            fields := ReadDefaults(rows, ans.now);
            reg.describeCache := reg.describeCache[table := fields];
        }
      }
      loaded := true;
      dirty := [];
      return Pass;
    }

    /** The branch of `load` for a stored row: from the row cache or SELECT by primary key. */
    method LoadRow(ans: LoadAnswers) returns (res: Outcome)
      requires Valid() && id != 0
      modifies this`fields, this`loaded, this`dirty, reg`describeCache, reg`objectCache, Conn()`log
      ensures Valid()
      ensures var s := LoadStep(old(Snapshot()), old(CacheState()), old(Context()), ans);
        Snapshot() == s.entity && CacheState() == s.caches && Conn().log == old(Conn().log) + s.issued
        && res == s.result
    {
      var c := reg.connections[dsn];
      if table in reg.objectCache && id in reg.objectCache[table] {
        fields := reg.objectCache[table][id];
      } else {
        if !c.ok {
          return Fail(Fatal);
        }
        c.Query(SelectSql(table, PrimaryKey(), c.quote, id));
        match ans.select {
          case SelectFailed =>
            return Fail(BadQuery);
          case Selected(rows) =>
            fields := [];
            if |rows| == 0 {
              return Fail(ImproperUse);
            }
            fields := rows[0];
            reg.objectCache := CacheRow(reg.objectCache, table, id, fields);
        }
      }
      loaded := true;
      dirty := [];
      return Pass;
    }

    /** `forceLoaded`. */
    method ForceLoaded()
      modifies this`loaded
      ensures Snapshot() == old(Snapshot()).(loaded := true)
    {
      loaded := true;
    }

    /** `forceUnloaded`. */
    method ForceUnloaded()
      modifies this`loaded
      ensures Snapshot() == old(Snapshot()).(loaded := false)
    {
      loaded := false;
    }

    /** `getField`: loads first while unloaded; '' for a key the row lacks; no value when the load stops PHP. */
    method GetField(key: string, ans: LoadAnswers) returns (v: Result<Value>)
      requires Valid()
      modifies this`fields, this`loaded, this`dirty, reg`describeCache, reg`objectCache, Conn()`log
      ensures Valid()
      ensures var s := GetFieldStep(old(Snapshot()), old(CacheState()), old(Context()), ans, key);
        Snapshot() == s.entity && CacheState() == s.caches && Conn().log == old(Conn().log) + s.issued
        && v == s.result
    {
      if !loaded {
        var loadOutcome := Load(ans);
        if loadOutcome == Fail(Fatal) {
          return Err(Fatal);
        }
      }
      if !HasKey(fields, key) {
        return Ok(Str(""));
      }
      return Ok(Get(fields, key));
    }

    /** `getAllFields`: loads first while unloaded; no value when the load stops PHP. */
    method GetAllFields(ans: LoadAnswers) returns (r: Result<Row>)
      requires Valid()
      modifies this`fields, this`loaded, this`dirty, reg`describeCache, reg`objectCache, Conn()`log
      ensures Valid()
      ensures var s := GetAllFieldsStep(old(Snapshot()), old(CacheState()), old(Context()), ans);
        Snapshot() == s.entity && CacheState() == s.caches && Conn().log == old(Conn().log) + s.issued
        && r == s.result
    {
      if !loaded {
        var loadOutcome := Load(ans);
        if loadOutcome == Fail(Fatal) {
          return Err(Fatal);
        }
      }
      return Ok(fields);
    }

    /**
     * One turn of the `foreach` of `convertToAssoc`: `getField($keyBy)` when a key column is
     * given, then `getAllFields`, each with the answers to its own load.
     */
    method ReadEntry(keyBy: Option<string>, fieldAns: LoadAnswers, allAns: LoadAnswers) returns (res: Result<(string, Row)>)
      requires Valid()
      modifies this`fields, this`loaded, this`dirty, reg`describeCache, reg`objectCache, Conn()`log
      ensures Valid()
      ensures var s := ReadEntryStep(old(Snapshot()), old(CacheState()), old(Context()), keyBy, fieldAns, allAns);
        Snapshot() == s.entity && CacheState() == s.caches && Conn().log == old(Conn().log) + s.issued
        && res == s.result
    {
      ghost var env, c0, log0 := Context(), CacheState(), Conn().log;
      if keyBy.None? {
        var row := GetAllFields(allAns);
        if row.Err? {
          return Err(Fatal);
        }
        return Ok(("", row.value));
      }
      ghost var s1 := GetFieldStep(Snapshot(), c0, env, fieldAns, keyBy.value);
      var v := GetField(keyBy.value, fieldAns);
      if v.Err? {
        return Err(Fatal);
      }
      ghost var log1 := Conn().log;
      assert log1 == log0 + s1.issued;
      assert Snapshot() == s1.entity && CacheState() == s1.caches && Context() == env;
      ghost var s2 := GetAllFieldsStep(s1.entity, s1.caches, env, allAns);
      var row := GetAllFields(allAns);
      assert Conn().log == log1 + s2.issued;
      AppendTwice(log0, s1.issued, s2.issued);
      if row.Err? {
        return Err(Fatal);
      }
      return Ok((ArrayKey(v.value), row.value));
    }

    /** `getColumnNames`: the keys of the row as it stands, with no load. */
    function GetColumnNames(): (names: seq<string>)
      reads this
      ensures |names| == |fields| && forall i | 0 <= i < |fields| :: names[i] == fields[i].0
    {
      Keys(fields)
    }

    /** `getID`. */
    function GetID(): nat
      reads this
    {
      id
    }

    /** `getModifiedColumns`: the keys marked modified, in the order they were marked. */
    function GetModifiedColumns(): seq<string>
      reads this
    {
      dirty
    }

    /** `setReadOnly`. */
    method SetReadOnly(flag: bool)
      modifies this`readonly
      ensures Snapshot() == old(Snapshot()).(readonly := flag)
    {
      readonly := flag;
    }

    /** `getReadOnly`. */
    function GetReadOnly(): bool
      reads this
    {
      readonly
    }

    /** The lazy load that `setField` and `setFields` begin with. */
    method LoadForWrite(ans: LoadAnswers) returns (res: Outcome)
      requires Valid()
      modifies this`fields, this`loaded, this`dirty, reg`describeCache, reg`objectCache, Conn()`log
      ensures Valid()
      ensures var s := LoadBeforeWrite(old(Snapshot()), old(CacheState()), old(Context()), ans);
        Snapshot() == s.entity && CacheState() == s.caches && Conn().log == old(Conn().log) + s.issued
        && res == s.result
    {
      res := Pass;
      if !loaded && id != 0 {
        res := Load(ans);
      }
    }

    /** `setField`. */
    method SetField(key: string, value: Value, ans: LoadAnswers) returns (res: Outcome)
      requires Valid()
      modifies this`fields, this`loaded, this`dirty, this`modified, reg`describeCache, reg`objectCache, Conn()`log
      ensures Valid()
      ensures var s := SetFieldStep(old(Snapshot()), old(CacheState()), old(Context()), ans, key, value);
        Snapshot() == s.entity && CacheState() == s.caches && Conn().log == old(Conn().log) + s.issued
        && res == s.result
    {
      var loadOutcome := LoadForWrite(ans);
      if loadOutcome == Fail(Fatal) {
        return Fail(Fatal);
      }
      if HasKey(fields, key) {
        WriteFieldCases(Snapshot(), key, value);
      }
      var known := Write(key, value);
      if !known {
        return Fail(ImproperUse);
      }
      return Pass;
    }

    /**
     * What `setField` and `setFields` do with one key once the row is loaded: refuse an
     * unknown key; otherwise store and mark the value unless the row is stored and the
     * value is equal (PHP `==`) to the current one.
     */
    method Write(key: string, value: Value) returns (known: bool)
      modifies this`fields, this`modified, this`dirty
      ensures known == HasKey(old(fields), key)
      ensures var e := old(Snapshot());
        Snapshot() == if known && (e.id == 0 || !LooseEquals(Get(e.fields, key), value))
                      then e.(fields := Put(e.fields, key, value), modified := true, dirty := MarkDirty(e.dirty, key))
                      else e
    {
      if !HasKey(fields, key) {
        return false;
      }
      if id == 0 || !LooseEquals(Get(fields, key), value) {
        fields := Put(fields, key, value);
        modified := true;
        if key !in dirty {
          dirty := dirty + [key];
        }
      }
      return true;
    }

    /** `setFields`: the writes in order, returning at the first unknown key. */
    method SetFields(writes: Row, ans: LoadAnswers) returns (res: Outcome)
      requires Valid()
      modifies this`fields, this`loaded, this`dirty, this`modified, reg`describeCache, reg`objectCache, Conn()`log
      ensures Valid()
      ensures var s := SetFieldsStep(old(Snapshot()), old(CacheState()), old(Context()), ans, writes);
        Snapshot() == s.entity && CacheState() == s.caches && Conn().log == old(Conn().log) + s.issued
        && res == s.result
    {
      ghost var s := LoadBeforeWrite(Snapshot(), CacheState(), Context(), ans);
      var loadOutcome := LoadForWrite(ans);
      if loadOutcome == Fail(Fatal) {
        return Fail(Fatal);
      }
      ghost var goal := ApplyWrites(s.entity, writes);
      assert writes[0..] == writes;
      var i := 0;
      while i < |writes|
        invariant 0 <= i <= |writes|
        invariant Valid() && CacheState() == s.caches && Conn().log == old(Conn().log) + s.issued
        invariant goal == ApplyWrites(Snapshot(), writes[i..])
      {
        var (key, value) := writes[i];
        ApplyWritesFrom(Snapshot(), writes, i);
        if HasKey(fields, key) {
          WriteFieldCases(Snapshot(), key, value);
        }
        var known := Write(key, value);
        if !known {
          return Fail(ImproperUse);
        }
        i := i + 1;
      }
      assert writes[i..] == [];
      return Pass;
    }

    /** `save`: INSERT, UPDATE or nothing; false when readonly or when no new id comes back. */
    method Save(ans: SaveAnswers) returns (res: Result<bool>)
      requires Valid()
      modifies this`id, this`loaded, this`modified, this`fields, this`dirty, reg`objectCache, Conn()`log
      ensures Valid()
      ensures var s := SaveStep(old(Snapshot()), old(CacheState()), old(Context()), ans);
        Snapshot() == s.entity && CacheState() == s.caches && Conn().log == old(Conn().log) + s.issued
        && res == s.result
    {
      if readonly {
        return Ok(false);
      }
      if id == 0 {
        loaded := false;
      }
      if !loaded {
        res := Insert(ans);
      } else if !modified {
        res := Ok(true);
      } else {
        res := Update(ans);
      }
    }

    /** The INSERT branch of `save`, with the LAST_INSERT_ID query after it. */
    method Insert(ans: SaveAnswers) returns (res: Result<bool>)
      requires Valid()
      modifies this`id, this`loaded, this`modified, this`fields, this`dirty, reg`objectCache, Conn()`log
      ensures Valid()
      ensures var s := InsertStep(old(Snapshot()), old(CacheState()), old(Context()), ans);
        Snapshot() == s.entity && CacheState() == s.caches && Conn().log == old(Conn().log) + s.issued
        && res == s.result
    {
      var c := reg.connections[dsn];
      if !c.ok {
        return Err(Fatal);
      }
      var stmt := BuildInsert(table, fields, c.quote);
      c.Query(stmt);
      if ans.writeFails {
        return Err(BadQuery);
      }
      c.Query(LastIdSql(PrimaryKey()));
      match ans.lastId {
        case LastIdFailed =>
          return Err(Fatal);
        case NoIdRow =>
          return Ok(false);
        case IdRow(proposed) =>
          res := AdoptId(proposed);
      }
    }

    /** The end of the INSERT branch: take the new key value, and the id when it is positive. */
    method AdoptId(proposed: Value) returns (res: Result<bool>)
      requires Valid()
      modifies this`id, this`loaded, this`modified, this`fields, this`dirty, reg`objectCache
      ensures Valid()
      ensures var s := Adopted(old(Snapshot()), old(CacheState()), old(Context()), proposed);
        Snapshot() == s.entity && CacheState() == s.caches && res == s.result
    {
      fields := Put(fields, PrimaryKey(), proposed);
      if IdOf(proposed) > 0 {
        loaded := true;
        id := IdOf(proposed);
        res := MarkSaved();
      } else {
        return Ok(false);
      }
    }

    /** The UPDATE branch of `save`. */
    method Update(ans: SaveAnswers) returns (res: Result<bool>)
      requires Valid()
      modifies this`modified, this`dirty, reg`objectCache, Conn()`log
      ensures Valid()
      ensures var s := UpdateStep(old(Snapshot()), old(CacheState()), old(Context()), ans);
        Snapshot() == s.entity && CacheState() == s.caches && Conn().log == old(Conn().log) + s.issued
        && res == s.result
    {
      var c := reg.connections[dsn];
      if !c.ok {
        return Err(Fatal);
      }
      var stmt := BuildUpdate(table, fields, dirty, c.quote, PrimaryKey(), id);
      c.Query(stmt);
      if ans.writeFails {
        return Err(BadQuery);
      }
      res := MarkSaved();
    }

    /** The end of a successful `save`: `modified = 0`, the marks unset, the row cached. */
    method MarkSaved() returns (res: Result<bool>)
      requires Valid()
      modifies this`modified, this`dirty, reg`objectCache
      ensures Valid()
      ensures var s := Committed(old(Snapshot()), old(CacheState()), old(Context()), []);
        Snapshot() == s.entity && CacheState() == s.caches && res == s.result
    {
      modified := false;
      dirty := [];
      reg.objectCache := CacheRow(reg.objectCache, table, id, fields);
      return Ok(true);
    }

    /** `destroy`: DELETE by key when the id is set; the object and the caches stay as they are. */
    method Destroy(fails: bool) returns (res: Outcome)
      requires Valid()
      modifies Conn()`log
      ensures var s := DestroyStep(Snapshot(), CacheState(), Context(), fails);
        Conn().log == old(Conn().log) + s.issued && res == s.result
    {
      if id != 0 {
        var c := reg.connections[dsn];
        if !c.ok {
          return Fail(Fatal);
        }
        c.Query(DeleteSql(table, PrimaryKey(), c.quote, id));
        if fails {
          return Fail(BadQuery);
        }
      }
      return Pass;
    }

    /** `truncate`: empties the whole table; this object's state is not touched. */
    method Truncate(fails: bool) returns (res: Outcome)
      requires Valid()
      modifies Conn()`log
      ensures !Conn().ok ==> res == Fail(Fatal) && Conn().log == old(Conn().log)
      ensures Conn().ok ==>
        Conn().log == old(Conn().log) + [TruncateSql(table)] && res == (if fails then Fail(BadQuery) else Pass)
    {
      var c := reg.connections[dsn];
      if !c.ok {
        return Fail(Fatal);
      }
      c.Query(TruncateSql(table));
      if fails {
        return Fail(BadQuery);
      }
      return Pass;
    }

    /** `commit`: sends COMMIT on this object's connection, whatever the answer. */
    method Commit() returns (res: Outcome)
      requires Valid()
      modifies Conn()`log
      ensures !Conn().ok ==> res == Fail(Fatal) && Conn().log == old(Conn().log)
      ensures Conn().ok ==> res == Pass && Conn().log == old(Conn().log) + ["COMMIT"]
    {
      var c := reg.connections[dsn];
      if !c.ok {
        return Fail(Fatal);
      }
      c.Query("COMMIT");
      return Pass;
    }

    /** `rollback`: sends ROLLBACK on this object's connection, whatever the answer. */
    method Rollback() returns (res: Outcome)
      requires Valid()
      modifies Conn()`log
      ensures !Conn().ok ==> res == Fail(Fatal) && Conn().log == old(Conn().log)
      ensures Conn().ok ==> res == Pass && Conn().log == old(Conn().log) + ["ROLLBACK"]
    {
      var c := reg.connections[dsn];
      if !c.ok {
        return Fail(Fatal);
      }
      c.Query("ROLLBACK");
      return Pass;
    }
  }

  /**
   * What `new $class_name($row)` leaves behind for one row of `loadArray`: a loaded object
   * holding the row, its id read from the primary-key column; or, for a table without a
   * configured primary key, the blank object that `initialize` refused.
   */
  ghost predicate BuiltFromRow(o: DbTable, reg: Registry, dsn: string, table: string, row: Row)
    reads o
  {
    && o.reg == reg
    && if reg.HasPrimaryKey(dsn, table) then
         && o.dsn == dsn && o.table == table
         && o.Snapshot() == Entity(IdOf(KeyValue(row, reg.PrimaryKey(dsn, table))), false, true, false, row, [])
       else
         o.dsn == "" && o.table == "" && o.Snapshot() == Entity(0, false, false, false, [], [])
  }

  /** `new $class_name($row)` for a DSN already registered. */
  method FromRow(reg: Registry, dsn: string, table: string, row: Row, attempt: Connection) returns (o: DbTable)
    requires dsn in reg.connections
    modifies reg, attempt`assocFetch, Target(reg, dsn, attempt)`log
    ensures fresh(o) && BuiltFromRow(o, reg, dsn, table, row)
    ensures reg.connections == old(reg.connections) && attempt.assocFetch == old(attempt.assocFetch)
    ensures reg.describeCache == old(reg.describeCache) && reg.objectCache == old(reg.objectCache)
    ensures reg.connections[dsn].log == old(reg.connections[dsn].log)
  {
    o := new DbTable(reg);
    // A constructor given a row never loads, so the answers it is given are never read.
    var initialized := o.Initialize(dsn, table, ByRow(row), attempt, LoadAnswers("", DescribeFailed, SelectFailed));
  }

  /**
   * `loadArray`: one SELECT for all the ids, then one object per row returned, in the order
   * the rows come back. A query error is reported as a connection error.
   */
  method LoadArray(reg: Registry, dsn: string, table: string, ids: seq<nat>, attempt: Connection, answer: SelectAnswer)
    returns (res: Result<seq<DbTable>>)
    modifies reg, attempt`assocFetch, Target(reg, dsn, attempt)`log
    ensures reg.connections == (if dsn in old(reg.connections) then old(reg.connections)
                                else old(reg.connections)[dsn := attempt])
    ensures reg.describeCache == old(reg.describeCache) && reg.objectCache == old(reg.objectCache)
    ensures attempt.assocFetch == ((dsn !in old(reg.connections) && attempt.ok) || old(attempt.assocFetch))
    ensures var c := reg.connections[dsn];
      var pk := if reg.HasPrimaryKey(dsn, table) then reg.PrimaryKey(dsn, table) else "";
      && (!c.ok ==> res == Err(Fatal) && c.log == old(c.log))
      && (c.ok ==> c.log == old(c.log) + [LoadArraySql(table, pk, ids)])
      && (c.ok && answer.SelectFailed? ==> res == Err(ConnectionError))
      && (c.ok && answer.Selected? ==>
            && res.Ok? && |res.value| == |answer.rows|
            && forall i | 0 <= i < |answer.rows| :: BuiltFromRow(res.value[i], reg, dsn, table, answer.rows[i]))
    ensures res.Ok? ==> forall i | 0 <= i < |res.value| :: fresh(res.value[i])
    ensures res.Ok? ==> forall i, j | 0 <= i < j < |res.value| :: res.value[i] != res.value[j]
  {
    var connected := reg.Connect(dsn, attempt);
    var c := reg.connections[dsn];
    if !c.ok {
      return Err(Fatal);
    }
    var pk := if reg.HasPrimaryKey(dsn, table) then reg.PrimaryKey(dsn, table) else "";
    c.Query(LoadArraySql(table, pk, ids));
    if answer.SelectFailed? {
      return Err(ConnectionError);
    }
    var objs := FromRows(reg, dsn, table, answer.rows, attempt);
    return Ok(objs);
  }

  /** The `foreach` of `loadArray` over the rows returned: one new object per row. */
  method FromRows(reg: Registry, dsn: string, table: string, rows: seq<Row>, attempt: Connection)
    returns (objs: seq<DbTable>)
    requires dsn in reg.connections
    modifies reg, attempt`assocFetch, Target(reg, dsn, attempt)`log
    ensures reg.connections == old(reg.connections) && attempt.assocFetch == old(attempt.assocFetch)
    ensures reg.describeCache == old(reg.describeCache) && reg.objectCache == old(reg.objectCache)
    ensures reg.connections[dsn].log == old(reg.connections[dsn].log)
    ensures |objs| == |rows|
    ensures forall i | 0 <= i < |rows| :: fresh(objs[i]) && BuiltFromRow(objs[i], reg, dsn, table, rows[i])
    ensures forall i, j | 0 <= i < j < |rows| :: objs[i] != objs[j]
  {
    var c := reg.connections[dsn];
    objs := [];
    var i := 0;
    while i < |rows|
      invariant 0 <= i <= |rows| && |objs| == i
      invariant reg.connections == old(reg.connections) && c.log == old(c.log)
      invariant attempt.assocFetch == old(attempt.assocFetch)
      invariant reg.describeCache == old(reg.describeCache) && reg.objectCache == old(reg.objectCache)
      invariant forall j | 0 <= j < i :: fresh(objs[j])
      invariant forall j | 0 <= j < i :: BuiltFromRow(objs[j], reg, dsn, table, rows[j])
      invariant forall j, k | 0 <= j < k < i :: objs[j] != objs[k]
    {
      var o := FromRow(reg, dsn, table, rows[i], attempt);
      objs := objs + [o];
      i := i + 1;
    }
  }

  /** `if ($keyBy)`: a column name counts only when PHP reads it as true, so '' and '0' do not. */
  function KeyColumn(keyBy: Option<string>): Option<string> {
    if keyBy.Some? && keyBy.value != "" && keyBy.value != "0" then keyBy else None
  }

  /** The result of `convertToAssoc`: a list, or an array keyed by one column. */
  datatype Converted = Listed(rows: seq<Row>) | Keyed(entries: Assoc<Row>)

  /** `$assoc[$keys[i]] = $rows[i]` for each i in order: a repeated key keeps its first place and its last row. */
  function KeyedRows(keys: seq<string>, rows: seq<Row>): (r: Assoc<Row>)
    requires |keys| == |rows|
    decreases |keys|
  {
    if keys == [] then []
    else
      var n := |keys| - 1;
      Put(KeyedRows(keys[..n], rows[..n]), keys[n], rows[n])
  }

  /** The keyed array has exactly the keys produced. */
  lemma {:induction false} KeyedRowsKeys(keys: seq<string>, rows: seq<Row>, k: string)
    requires |keys| == |rows|
    ensures HasKey(KeyedRows(keys, rows), k) <==> k in keys
    decreases |keys|
  {
    if keys != [] {
      var n := |keys| - 1;
      var prev := KeyedRows(keys[..n], rows[..n]);
      KeyedRowsKeys(keys[..n], rows[..n], k);
      assert (k in keys) == (k in keys[..n] || k == keys[n]) by {
        assert keys == keys[..n] + [keys[n]];
      }
      var r := Put(prev, keys[n], rows[n]);
      assert KeyedRows(keys, rows) == r;
      if k == keys[n] {
        assert Lookup(r, k).Some?;
      } else {
        assert Lookup(r, k) == Lookup(prev, k);
      }
    }
  }

  /** A key holds the row of its last occurrence. */
  lemma {:induction false} KeyedRowsLast(keys: seq<string>, rows: seq<Row>, j: nat)
    requires |keys| == |rows| && j < |keys| && keys[j] !in keys[j + 1..]
    ensures Lookup(KeyedRows(keys, rows), keys[j]) == Some(rows[j])
    decreases |keys|
  {
    var n := |keys| - 1;
    if j < n {
      assert keys[n] == keys[j + 1..][n - j - 1];
      assert keys[..n][j + 1..] == keys[j + 1..n];
      assert keys[..n][j] == keys[j] && rows[..n][j] == rows[j];
      KeyedRowsLast(keys[..n], rows[..n], j);
    }
  }

  /** The state of each object, in order. */
  function Snapshots(objs: seq<DbTable>): (r: seq<Entity>)
    reads (set o | o in objs)`id, (set o | o in objs)`readonly, (set o | o in objs)`loaded
    reads (set o | o in objs)`modified, (set o | o in objs)`fields, (set o | o in objs)`dirty
    ensures |r| == |objs| && forall i | 0 <= i < |objs| :: r[i] == objs[i].Snapshot()
  {
    if objs == [] then [] else [objs[0].Snapshot()] + Snapshots(objs[1..])
  }

  /** The table and connection of each object, in order. */
  function Contexts(reg: Registry, objs: seq<DbTable>): (r: seq<Env>)
    requires forall i | 0 <= i < |objs| :: objs[i].reg == reg && objs[i].Valid()
    reads (set o | o in objs)`dsn, (set o | o in objs)`table, reg`connections
    ensures |r| == |objs| && forall i | 0 <= i < |objs| :: r[i] == objs[i].Context()
  {
    if objs == [] then [] else [objs[0].Context()] + Contexts(reg, objs[1..])
  }

  /**
   * `convertToAssoc` on an array of objects sharing one registry: `getAllFields` of each,
   * listed in order or filed under each object's `getField($keyBy)`, as Lifecycle.ReadAll
   * says for each object and the caches; a load that stops PHP stops it with no array.
   */
  method ConvertToAssoc(reg: Registry, objs: seq<DbTable>, keyBy: Option<string>,
                        fieldAnswers: seq<LoadAnswers>, allAnswers: seq<LoadAnswers>)
    returns (r: Result<Converted>)
    requires |fieldAnswers| == |objs| && |allAnswers| == |objs|
    requires forall i | 0 <= i < |objs| :: objs[i].reg == reg && objs[i].Valid()
    requires forall i, j | 0 <= i < j < |objs| :: objs[i] != objs[j]
    modifies (set o | o in objs)`fields, (set o | o in objs)`loaded, (set o | o in objs)`dirty
    modifies reg`describeCache, reg`objectCache, reg.connections.Values
    ensures forall i | 0 <= i < |objs| :: objs[i].Valid()
    ensures var a := ReadAll(old(Snapshots(objs)), old(Contexts(reg, objs)), old(Caches(reg.describeCache, reg.objectCache)),
                             KeyColumn(keyBy), fieldAnswers, allAnswers);
      && Snapshots(objs) == a.entities
      && Caches(reg.describeCache, reg.objectCache) == a.caches
      && (a.result.Err? ==> r == Err(Fatal))
      && (a.result.Ok? && KeyColumn(keyBy).None? ==> r == Ok(Listed(a.result.value.1)))
      && (a.result.Ok? && KeyColumn(keyBy).Some? ==> r == Ok(Keyed(KeyedRows(a.result.value.0, a.result.value.1))))
  {
    var column := KeyColumn(keyBy);
    var read := ReadEntries(reg, objs, column, fieldAnswers, allAnswers);
    if read.Err? {
      return Err(Fatal);
    }
    var (keys, rows) := read.value;
    if column.Some? {
      return Ok(Keyed(KeyedRows(keys, rows)));
    }
    return Ok(Listed(rows));
  }

  /** Replacing the first unread object's state by the state its turn leaves. */
  lemma TurnDone(done: seq<Entity>, rest: seq<Entity>, e: Entity)
    requires rest != []
    ensures (done + rest)[|done| := e] == (done + [e]) + rest[1..]
  {
    assert rest == [rest[0]] + rest[1..];
  }

  /**
   * Where the `foreach` of `convertToAssoc` stands: the objects with environments envs are, in
   * order, as the turns so far left them (a.entities) followed by the unread states rest, and
   * the caches are as those turns left them.
   */
  ghost predicate ReadState(reg: Registry, objs: seq<DbTable>, envs: seq<Env>, a: Reads, rest: seq<Entity>)
    reads (set o | o in objs), reg
  {
    && |a.entities| + |rest| == |objs|
    && (forall j | 0 <= j < |objs| :: objs[j].reg == reg && objs[j].Valid())
    && Contexts(reg, objs) == envs
    && Caches(reg.describeCache, reg.objectCache) == a.caches
    && Snapshots(objs) == a.entities + rest
  }

  /** `getField`/`getAllFields` on object i, which leaves every other object of objs as it was. */
  method ReadOne(reg: Registry, objs: seq<DbTable>, i: nat, keyBy: Option<string>, fieldAns: LoadAnswers, allAns: LoadAnswers)
    returns (entry: Result<(string, Row)>)
    requires i < |objs| && forall j | 0 <= j < |objs| :: objs[j].reg == reg && objs[j].Valid()
    requires forall j | 0 <= j < |objs| && j != i :: objs[j] != objs[i]
    modifies {objs[i]}`fields, {objs[i]}`loaded, {objs[i]}`dirty, reg`describeCache, reg`objectCache, reg.connections.Values
    ensures forall j | 0 <= j < |objs| :: objs[j].reg == reg && objs[j].Valid()
    ensures Contexts(reg, objs) == old(Contexts(reg, objs))
    ensures var s := ReadEntryStep(old(objs[i].Snapshot()), old(objs[i].CacheState()), old(objs[i].Context()), keyBy, fieldAns, allAns);
      && Snapshots(objs) == old(Snapshots(objs))[i := s.entity]
      && Caches(reg.describeCache, reg.objectCache) == s.caches
      && entry == s.result
  {
    ghost var before, envs := Snapshots(objs), Contexts(reg, objs);
    entry := ReadAt(reg, objs, i, keyBy, fieldAns, allAns);
    ghost var envsAfter := Contexts(reg, objs);
    assert forall j | 0 <= j < |objs| :: envsAfter[j] == envs[j];
    assert envsAfter == envs;
    ghost var after := Snapshots(objs);
    assert forall j | 0 <= j < |objs| && j != i :: after[j] == before[j];
    UpdatedAt(after, before, i, objs[i].Snapshot());
  }

  /** A sequence that differs from before only at i, where it holds e, is before[i := e]. */
  lemma UpdatedAt<T>(after: seq<T>, before: seq<T>, i: nat, e: T)
    requires |after| == |before| && i < |before| && after[i] == e
    requires forall j | 0 <= j < |before| && j != i :: after[j] == before[j]
    ensures after == before[i := e]
  {
  }

  /** `getField`/`getAllFields` on object i of objs, which modify no other object of objs. */
  method ReadAt(reg: Registry, objs: seq<DbTable>, i: nat, keyBy: Option<string>, fieldAns: LoadAnswers, allAns: LoadAnswers)
    returns (entry: Result<(string, Row)>)
    requires i < |objs| && forall j | 0 <= j < |objs| :: objs[j].reg == reg && objs[j].Valid()
    requires forall j | 0 <= j < |objs| && j != i :: objs[j] != objs[i]
    modifies {objs[i]}`fields, {objs[i]}`loaded, {objs[i]}`dirty, reg`describeCache, reg`objectCache, reg.connections.Values
    ensures forall j | 0 <= j < |objs| :: objs[j].Valid() && objs[j].Context() == old(objs[j].Context())
    ensures forall j | 0 <= j < |objs| && j != i :: objs[j].Snapshot() == old(objs[j].Snapshot())
    ensures var s := ReadEntryStep(old(objs[i].Snapshot()), old(objs[i].CacheState()), old(objs[i].Context()), keyBy, fieldAns, allAns);
      && objs[i].Snapshot() == s.entity
      && Caches(reg.describeCache, reg.objectCache) == s.caches
      && entry == s.result
  {
    var o := objs[i];
    assert o.Conn() in reg.connections.Values;
    entry := o.ReadEntry(keyBy, fieldAns, allAns);
    assert forall j | 0 <= j < |objs| && j != i :: objs[j] != o;
  }

  /**
   * Turn i of the `foreach` of `convertToAssoc`, over objects whose states before the loop were es;
   * `next`, the number of turns done after it, is i + 1.
   */
  method ReadTurn(reg: Registry, objs: seq<DbTable>, keyBy: Option<string>,
                  fieldAnswers: seq<LoadAnswers>, allAnswers: seq<LoadAnswers>,
                  i: nat, next: nat, ghost es: seq<Entity>, ghost envs: seq<Env>, ghost c: Caches)
    returns (entry: Result<(string, Row)>)
    requires next == i + 1 && i < |objs| && |es| == |objs| && |envs| == |objs| && |fieldAnswers| == |objs| && |allAnswers| == |objs|
    requires var a := ReadAll(es[..i], envs[..i], c, keyBy, fieldAnswers[..i], allAnswers[..i]);
      a.result.Ok? && ReadState(reg, objs, envs, a, es[i..])
    requires forall j, k | 0 <= j < k < |objs| :: objs[j] != objs[k]
    modifies {objs[i]}`fields, {objs[i]}`loaded, {objs[i]}`dirty, reg`describeCache, reg`objectCache, reg.connections.Values
    ensures ReadState(reg, objs, envs, ReadAll(es[..next], envs[..next], c, keyBy, fieldAnswers[..next], allAnswers[..next]), es[next..])
    ensures var a := ReadAll(es[..i], envs[..i], c, keyBy, fieldAnswers[..i], allAnswers[..i]);
      var b := ReadAll(es[..next], envs[..next], c, keyBy, fieldAnswers[..next], allAnswers[..next]);
      b.result == if entry.Err? then Err(Fatal) else Ok((a.result.value.0 + [entry.value.0], a.result.value.1 + [entry.value.1]))
  {
    ghost var a := ReadAll(es[..i], envs[..i], c, keyBy, fieldAnswers[..i], allAnswers[..i]);
    ghost var rest := es[i..];
    assert rest[0] == es[i] && rest[1..] == es[i + 1..];
    ReadAllPrefix(es, envs, c, keyBy, fieldAnswers, allAnswers, i);
    ghost var b := ReadNext(a, es[i], envs[i], keyBy, fieldAnswers[i], allAnswers[i]);
    ReadNextParts(a, es[i], envs[i], keyBy, fieldAnswers[i], allAnswers[i]);
    assert (a.entities + rest)[i] == es[i];
    assert forall j | 0 <= j < |objs| && j != i :: objs[j] != objs[i];
    entry := ReadOne(reg, objs, i, keyBy, fieldAnswers[i], allAnswers[i]);
    TurnDone(a.entities, rest, b.entities[i]);
  }

  /** The `foreach` of `convertToAssoc`: each object's key (when one is asked for) and fields, in order. */
  method ReadEntries(reg: Registry, objs: seq<DbTable>, keyBy: Option<string>,
                     fieldAnswers: seq<LoadAnswers>, allAnswers: seq<LoadAnswers>)
    returns (res: Result<(seq<string>, seq<Row>)>)
    requires |fieldAnswers| == |objs| && |allAnswers| == |objs|
    requires forall i | 0 <= i < |objs| :: objs[i].reg == reg && objs[i].Valid()
    requires forall i, j | 0 <= i < j < |objs| :: objs[i] != objs[j]
    modifies (set o | o in objs)`fields, (set o | o in objs)`loaded, (set o | o in objs)`dirty
    modifies reg`describeCache, reg`objectCache, reg.connections.Values
    ensures forall i | 0 <= i < |objs| :: objs[i].Valid()
    ensures var a := ReadAll(old(Snapshots(objs)), old(Contexts(reg, objs)), old(Caches(reg.describeCache, reg.objectCache)),
                             keyBy, fieldAnswers, allAnswers);
      && Snapshots(objs) == a.entities
      && Caches(reg.describeCache, reg.objectCache) == a.caches
      && res == a.result
  {
    ghost var es := Snapshots(objs);
    ghost var envs := Contexts(reg, objs);
    ghost var c := Caches(reg.describeCache, reg.objectCache);
    var keys, rows := [], [];
    var i, stopped := 0, false;
    assert es[..0] == [] && envs[..0] == [] && fieldAnswers[..0] == [] && allAnswers[..0] == [];
    assert es[0..] == es;
    while i < |objs| && !stopped
      invariant i <= |objs|
      invariant ReadAll(es[..i], envs[..i], c, keyBy, fieldAnswers[..i], allAnswers[..i]).result
                == if stopped then Err(Fatal) else Ok((keys, rows))
      invariant ReadState(reg, objs, envs, ReadAll(es[..i], envs[..i], c, keyBy, fieldAnswers[..i], allAnswers[..i]), es[i..])
    {
      var next := i + 1;
      var entry := ReadTurn(reg, objs, keyBy, fieldAnswers, allAnswers, i, next, es, envs, c);
      if entry.Err? {
        stopped := true;
      } else {
        keys := keys + [entry.value.0];
        rows := rows + [entry.value.1];
      }
      i := next;
    }
    ReadAllFinished(es, envs, c, keyBy, fieldAnswers, allAnswers, i);
    res := if stopped then Err(Fatal) else Ok((keys, rows));
  }
}
