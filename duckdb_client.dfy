/**
 * `DuckDBConnector`: a lazily opened DuckDB connection with explicit transactions.
 *
 * The connector keeps two catalogs: `committed`, what the database holds, and
 * `pending`, what statements see. Outside a transaction every statement commits on
 * its own, so the two agree; inside one, `pending` runs ahead until COMMIT copies it
 * or ROLLBACK discards it. Each `duckdb.connect` yields a fresh handle, numbered by
 * `connections`.
 */
module DuckDBClient {
  import opened Wrappers
  import opened Warehouse

  /** The path that opens a database living only as long as its connection. */
  const Memory: string := ":memory:"

  const NestedBeginError: string := "TransactionContext Error: cannot start a transaction within a transaction"
  const NoTxnRollbackError: string := "TransactionContext Error: cannot rollback - no transaction is active"
  const NoneRollbackError: string := "AttributeError: 'NoneType' object has no attribute 'rollback'"
  /** `InvalidInputException("params is None")`, raised by the connector itself. */
  const NoParamsError: string := "params is None"

  class DuckDBConnector {
    const dbPath: string
    var conn: Option<nat>
    var connections: nat
    var inTxn: bool
    var committed: Catalog
    var pending: Catalog
    /** Calls of the connector's own `execute` and `executemany`. */
    ghost var executeCalls: nat
    ghost var executemanyCalls: nat

    ghost predicate Valid()
      reads this
    {
      && (conn.None? ==> !inTxn)
      && (!inTxn ==> pending == committed)
      && (conn.Some? ==> conn.value < connections)
    }

    /**
     * `DuckDBConnector(db_path)`: remembers the path and opens nothing. `stored` is
     * what the database file holds; a new session sees no temporary tables or settings.
     */
    constructor(path: string, stored: Catalog)
      ensures Valid()
      ensures dbPath == path && conn.None? && connections == 0 && !inTxn
      ensures committed == AfterClose(stored, path == Memory) && pending == committed
      ensures executeCalls == 0 && executemanyCalls == 0
    {
      dbPath := path;
      conn := None;
      connections := 0;
      inTxn := false;
      committed := AfterClose(stored, path == Memory);
      pending := AfterClose(stored, path == Memory);
      executeCalls := 0;
      executemanyCalls := 0;
    }

    /** `connect`: opens a connection only when there is none, and returns the current one. */
    method Connect() returns (handle: nat)
      requires Valid()
      modifies this
      ensures Valid()
      ensures conn == Some(handle)
      ensures old(conn).Some? ==> handle == old(conn).value && connections == old(connections)
      ensures old(conn).None? ==> handle == old(connections) && connections == old(connections) + 1
      ensures inTxn == old(inTxn) && committed == old(committed) && pending == old(pending)
      ensures executeCalls == old(executeCalls) && executemanyCalls == old(executemanyCalls)
    {
      if conn.None? {
        conn := Some(connections);
        connections := connections + 1;
      }
      handle := conn.value;
    }

    /**
     * `execute`: connects if needed and runs one statement. A failing statement changes
     * nothing; a successful one commits at once unless a transaction is open.
     */
    method Execute<T>(stmt: Stmt<T>) returns (r: Result<T>)
      requires Valid()
      modifies this
      ensures Valid()
      ensures conn.Some? && (old(conn).Some? ==> conn == old(conn))
      ensures inTxn == old(inTxn)
      ensures executeCalls == old(executeCalls) + 1 && executemanyCalls == old(executemanyCalls)
      ensures stmt(old(pending)).Err? ==>
        r == Err(stmt(old(pending)).msg) && pending == old(pending) && committed == old(committed)
      ensures stmt(old(pending)).Ok? ==>
        && r == Ok(stmt(old(pending)).value.1)
        && pending == stmt(old(pending)).value.0
        && committed == (if inTxn then old(committed) else pending)
    {
      var _ := Connect();
      executeCalls := executeCalls + 1;
      match stmt(pending)
      case Err(msg) =>
        r := Err(msg);
      case Ok((c, v)) =>
        pending := c;
        if !inTxn {
          committed := c;
        }
        r := Ok(v);
    }

    /**
     * `executemany`: connects if needed; with no parameter tuples it raises without
     * running anything; otherwise it runs the statement once per tuple, in order,
     * stopping at the first failure. Outside a transaction each run commits by itself.
     */
    method Executemany<P>(stmt: RowStmt<P>, params: seq<P>) returns (r: Outcome)
      requires Valid()
      modifies this
      ensures Valid()
      ensures conn.Some? && (old(conn).Some? ==> conn == old(conn))
      ensures inTxn == old(inTxn)
      ensures executeCalls == old(executeCalls) && executemanyCalls == old(executemanyCalls) + 1
      ensures |params| == 0 ==> r == Raised(NoParamsError) && pending == old(pending) && committed == old(committed)
      ensures |params| > 0 ==>
        && (pending, r) == ApplyEach(stmt, old(pending), params)
        && committed == (if inTxn then old(committed) else pending)
    {
      var _ := Connect();
      executemanyCalls := executemanyCalls + 1;
      if |params| == 0 {
        r := Raised(NoParamsError);
      } else {
        var (c, o) := ApplyEach(stmt, pending, params);
        pending := c;
        if !inTxn {
          committed := c;
        }
        r := o;
      }
    }

    /** `rollback`: discards the open transaction; with none, DuckDB's complaint is swallowed. */
    method Rollback()
      requires Valid()
      modifies this
      ensures Valid()
      ensures conn == old(conn) && connections == old(connections) && !inTxn
      ensures committed == old(committed) && pending == committed
      ensures executeCalls == old(executeCalls) && executemanyCalls == old(executemanyCalls)
    {
      if conn.Some? && inTxn {
        pending := committed;
        inTxn := false;
      }
    }

    /** `commit`: makes the open transaction's work permanent; a no-op without one. */
    method Commit()
      requires Valid()
      modifies this
      ensures Valid()
      ensures conn == old(conn) && connections == old(connections) && !inTxn
      ensures committed == old(pending) && pending == committed
      ensures executeCalls == old(executeCalls) && executemanyCalls == old(executemanyCalls)
    {
      if conn.Some? && inTxn {
        committed := pending;
        inTxn := false;
      }
    }

    /**
     * `close`: closes an open connection and forgets it. Uncommitted work is lost,
     * and so is everything `AfterClose` drops; without a connection nothing happens.
     */
    method Close()
      requires Valid()
      modifies this
      ensures Valid()
      ensures conn.None? && connections == old(connections) && !inTxn
      ensures old(conn).Some? ==> committed == AfterClose(old(committed), dbPath == Memory)
      ensures old(conn).None? ==> committed == old(committed)
      ensures pending == committed
      ensures executeCalls == old(executeCalls) && executemanyCalls == old(executemanyCalls)
    {
      if conn.Some? {
        committed := AfterClose(committed, dbPath == Memory);
        pending := committed;
        inTxn := false;
        conn := None;
      }
    }

    /**
     * Entering `with transaction()`: connects if needed and issues BEGIN. Inside an
     * open transaction BEGIN fails; the handler then rolls back that outer
     * transaction and re-raises.
     */
    method TransactionEnter() returns (r: Outcome)
      requires Valid()
      modifies this
      ensures Valid()
      ensures conn.Some? && (old(conn).Some? ==> conn == old(conn))
      ensures committed == old(committed)
      ensures !old(inTxn) ==> r == Done && inTxn && pending == old(pending)
      ensures old(inTxn) ==> r == Raised(NestedBeginError) && !inTxn && pending == committed
      ensures executeCalls == old(executeCalls) && executemanyCalls == old(executemanyCalls)
    {
      var _ := Connect();
      if inTxn {
        pending := committed;
        inTxn := false;
        r := Raised(NestedBeginError);
      } else {
        inTxn := true;
        r := Done;
      }
    }

    /**
     * Leaving `with transaction()`, normally (`exc == None`) or with an exception:
     * a normal exit commits; an exception rolls back and is re-raised, unless there
     * is no transaction left to roll back, in which case that failure is raised instead.
     */
    method TransactionExit(exc: Option<string>) returns (r: Outcome)
      requires Valid()
      modifies this
      ensures Valid()
      ensures conn == old(conn) && connections == old(connections) && !inTxn
      ensures old(conn).None? ==> r == Raised(NoneRollbackError) && committed == old(committed)
      ensures old(conn).Some? && exc.None? ==> r == Done && committed == old(pending)
      ensures old(conn).Some? && exc.Some? && old(inTxn) ==> r == Raised(exc.value) && committed == old(committed)
      ensures old(conn).Some? && exc.Some? && !old(inTxn) ==> r == Raised(NoTxnRollbackError) && committed == old(committed)
      ensures pending == committed
      ensures executeCalls == old(executeCalls) && executemanyCalls == old(executemanyCalls)
    {
      if conn.None? {
        r := Raised(NoneRollbackError);
      } else if exc.None? {
        Commit();
        r := Done;
      } else if inTxn {
        Rollback();
        r := Raised(exc.value);
      } else {
        r := Raised(NoTxnRollbackError);
      }
    }

    /** Entering `with cursor()`: connects if needed and hands out the connection. */
    method CursorEnter() returns (handle: nat)
      requires Valid()
      modifies this
      ensures Valid()
      ensures conn == Some(handle) && (old(conn).Some? ==> handle == old(conn).value)
      ensures inTxn == old(inTxn) && committed == old(committed) && pending == old(pending)
      ensures executeCalls == old(executeCalls) && executemanyCalls == old(executemanyCalls)
    {
      handle := Connect();
    }

    /** Leaving `with cursor()`, with or without an exception: the connection is closed. */
    method CursorExit()
      requires Valid()
      modifies this
      ensures Valid()
      ensures conn.None? && !inTxn && pending == committed
      ensures old(conn).Some? ==> committed == AfterClose(old(committed), dbPath == Memory)
      ensures executeCalls == old(executeCalls) && executemanyCalls == old(executemanyCalls)
    {
      Close();
    }
  }

  // ---------------------------------------------------------------------------
  // httpfs and S3 credentials
  // ---------------------------------------------------------------------------

  /** `INSTALL ext;` */
  function Install(ext: string): Stmt<()>
  {
    (c: Catalog) => Ok((c.(installed := c.installed + {ext}), ()))
  }

  /** `LOAD ext;` */
  function Load(ext: string): Stmt<()>
  {
    (c: Catalog) => Ok((c.(loaded := c.loaded + {ext}), ()))
  }

  /** `SET name='value';` */
  function SetVar(name: string, value: string): Stmt<()>
  {
    (c: Catalog) => Ok((c.(settings := c.settings[name := value]), ()))
  }

  /** Python truthiness of `os.getenv(name)`: set and non-empty. */
  predicate EnvSet(env: map<string, string>, name: string)
  {
    name in env && env[name] != ""
  }

  predicate HasCredentials(env: map<string, string>)
  {
    EnvSet(env, "AWS_ACCESS_KEY_ID") && EnvSet(env, "AWS_SECRET_ACCESS_KEY")
  }

  const NoCredentialsError: string := "No AWS credentials found"

  /** Runs one configuration statement through `execute`; it cannot fail. */
  method Configure(db: DuckDBConnector, stmt: Stmt<()>)
    requires db.Valid()
    requires stmt(db.pending).Ok?
    modifies db
    ensures db.Valid()
    ensures db.inTxn == old(db.inTxn) && db.conn.Some?
    ensures db.pending == stmt(old(db.pending)).value.0
    ensures db.committed == if db.inTxn then old(db.committed) else db.pending
  {
    var _ := db.Execute(stmt);
  }

  /**
   * `enable_aws_for_duckdb`: installs and loads httpfs and sets the region first, then
   * sets the key pair from the environment (and the session token only when present),
   * or raises when either key is missing.
   */
  method EnableAwsForDuckdb(db: DuckDBConnector, region: string, env: map<string, string>) returns (r: Outcome)
    requires db.Valid()
    modifies db
    ensures db.Valid()
    ensures db.inTxn == old(db.inTxn) && db.conn.Some?
    ensures r.Done? <==> HasCredentials(env)
    ensures r.Raised? ==> r.msg == NoCredentialsError
    ensures db.pending == old(db.pending).(installed := db.pending.installed, loaded := db.pending.loaded, settings := db.pending.settings)
    ensures db.committed == if db.inTxn then old(db.committed) else db.pending
    ensures "httpfs" in db.pending.installed && "httpfs" in db.pending.loaded
    ensures "s3_region" in db.pending.settings && db.pending.settings["s3_region"] == region
    ensures HasCredentials(env) ==>
      && "s3_access_key_id" in db.pending.settings
      && db.pending.settings["s3_access_key_id"] == env["AWS_ACCESS_KEY_ID"]
      && "s3_secret_access_key" in db.pending.settings
      && db.pending.settings["s3_secret_access_key"] == env["AWS_SECRET_ACCESS_KEY"]
    ensures HasCredentials(env) && EnvSet(env, "AWS_SESSION_TOKEN") ==>
      "s3_session_token" in db.pending.settings && db.pending.settings["s3_session_token"] == env["AWS_SESSION_TOKEN"]
    ensures !(HasCredentials(env) && EnvSet(env, "AWS_SESSION_TOKEN")) ==>
      ("s3_session_token" in db.pending.settings <==> "s3_session_token" in old(db.pending.settings))
  {
    Configure(db, Install("httpfs"));
    Configure(db, Load("httpfs"));
    Configure(db, SetVar("s3_region", region));
    if HasCredentials(env) {
      Configure(db, SetVar("s3_access_key_id", env["AWS_ACCESS_KEY_ID"]));
      Configure(db, SetVar("s3_secret_access_key", env["AWS_SECRET_ACCESS_KEY"]));
      if EnvSet(env, "AWS_SESSION_TOKEN") {
        Configure(db, SetVar("s3_session_token", env["AWS_SESSION_TOKEN"]));
      }
      r := Done;
    } else {
      r := Raised(NoCredentialsError);
    }
  }
}
