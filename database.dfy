/**
 * The database client the row mapper talks to, and the process-wide state it shares:
 * the connection registry (`$aDB`), the schema cache (`$describe_cache`), the row cache
 * (`$object_cache`) and the primary-key configuration (`$GLOBALS['primary_keys']`).
 * The client is abstract: a connection records the statements sent to it and quotes
 * values with a function nothing is assumed about; what the database answers is
 * supplied by the caller of each operation.
 */
module Database {
  import opened Values
  import opened Assoc

  /** A row as the client fetches it in associative mode: column name to value. */
  type Row = Assoc<Value>

  /**
   * The error codes the row mapper returns. Fatal stands for the points where PHP itself
   * would stop: a method called on the error object that a failed query or connection
   * left in place of a result or a handle.
   */
  datatype Error = ConfigError | ConnectionError | BadQuery | ImproperUse | Fatal

  datatype Outcome = Pass | Fail(error: Error)

  datatype Result<T> = Ok(value: T) | Err(error: Error)

  /** One row of `DESCRIBE`: the column's name and its declared default. */
  datatype DescribeRow = DescribeRow(field: string, default: Value)

  datatype DescribeAnswer = DescribeFailed | Described(rows: seq<DescribeRow>)

  datatype SelectAnswer = SelectFailed | Selected(rows: seq<Row>)

  /** The answers to the queries a `load` may send, and the clock reading it may use. */
  datatype LoadAnswers = LoadAnswers(now: string, describe: DescribeAnswer, select: SelectAnswer)

  /** The answer to `SELECT LAST_INSERT_ID()`: an error, no row, or the row's key value. */
  datatype LastIdAnswer = LastIdFailed | NoIdRow | IdRow(value: Value)

  /** The answers to the statements a `save` may send. */
  datatype SaveAnswers = SaveAnswers(writeFails: bool, lastId: LastIdAnswer)

  /**
   * What `DB::connect` returned for one DSN: a handle (ok) or the error object that
   * `connect` stores in the registry all the same (not ok).
   */
  class Connection {
    const ok: bool
    const quote: Value -> string
    var assocFetch: bool
    ghost var log: seq<string>

    constructor (ok: bool, quote: Value -> string)
      ensures this.ok == ok && this.quote == quote
      ensures !assocFetch && log == []
    {
      this.ok := ok;
      this.quote := quote;
      assocFetch := false;
      log := [];
    }

    /** Sends one statement; what the database answers is supplied separately. */
    method Query(sql: string)
      modifies this`log
      ensures log == old(log) + [sql]
    {
      log := log + [sql];
    }

    /** `setFetchMode(DB_FETCHMODE_ASSOC)`. */
    method SetFetchModeAssoc()
      modifies this`assocFetch
      ensures assocFetch
    {
      assocFetch := true;
    }
  }

  class Registry {
    /** `$GLOBALS['primary_keys'][$dsn][$table]`: configuration, never written here. */
    const primaryKeys: map<string, map<string, string>>
    /** `DbTable::$aDB`, keyed by DSN. */
    var connections: map<string, Connection>
    /** `DbTable::$describe_cache`, keyed by table name only. */
    var describeCache: map<string, Row>
    /** `DbTable::$object_cache`, keyed by table name, then id. */
    var objectCache: map<string, map<nat, Row>>

    constructor (primaryKeys: map<string, map<string, string>>)
      ensures this.primaryKeys == primaryKeys
      ensures connections == map[] && describeCache == map[] && objectCache == map[]
    {
      this.primaryKeys := primaryKeys;
      connections := map[];
      describeCache := map[];
      objectCache := map[];
    }

    predicate HasPrimaryKey(dsn: string, table: string) {
      dsn in primaryKeys && table in primaryKeys[dsn]
    }

    function PrimaryKey(dsn: string, table: string): string
      requires HasPrimaryKey(dsn, table)
    {
      primaryKeys[dsn][table]
    }

    /**
     * `connect`: opens a connection only for a DSN not yet registered. A failed open
     * is reported, but the error object stays registered, so a second call reports
     * success without trying again.
     */
    method Connect(dsn: string, attempt: Connection) returns (res: Outcome)
      modifies this`connections, attempt`assocFetch
      ensures dsn in old(connections) ==>
        res == Pass && connections == old(connections) && attempt.assocFetch == old(attempt.assocFetch)
      ensures dsn !in old(connections) ==>
        && connections == old(connections)[dsn := attempt]
        && res == (if attempt.ok then Pass else Fail(ConnectionError))
        && attempt.assocFetch == (attempt.ok || old(attempt.assocFetch))
    {
      if dsn !in connections {
        connections := connections[dsn := attempt];
        if !attempt.ok {
          return Fail(ConnectionError);
        }
        attempt.SetFetchModeAssoc();
      }
      return Pass;
    }
  }
}
