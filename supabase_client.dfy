/**
 * `SupabaseConnector`: a lazily opened PostgreSQL connection through psycopg2.
 *
 * psycopg2 opens a transaction implicitly with the first statement and keeps it open
 * until `commit` or `rollback`, so statements change `pending` (what this session
 * sees) and only a commit copies it into `committed` (what the database holds).
 * Closing a connection, or losing it, discards uncommitted work. What a statement
 * does to the database is the `engine` parameter; whether the server accepts a
 * connection is the `refusal` parameter.
 */
module SupabaseClient {
  import opened Wrappers

  /** A connection handle: none yet, open, or closed underneath the connector. */
  datatype Conn = NoConn | Open(id: nat) | Closed(id: nat)

  type Row<V> = seq<V>

  /**
   * One statement with the parameters the cursor was given: the database after it and
   * its result rows, `None` when it produced no result set.
   */
  type Engine<!S, !V> = (string, Option<seq<V>>) -> S -> Result<(S, Option<seq<Row<V>>>)>

  /** A cursor after `execute`: the statement, the parameters it was sent, its rows. */
  datatype Cursor<V> = Cursor(query: string, sent: Option<seq<V>>, rows: Option<seq<Row<V>>>, closed: bool)

  const ParamKeys: seq<string> := ["host", "database", "user", "password", "port"]

  /** The `KeyError` Streamlit raises for a key missing from `st.secrets` or one of its sections. */
  function SecretsKeyError(key: string): string
  {
    "KeyError: 'st.secrets has no key \"" + key + "\". " + SecretsHint + "'"
  }

  const SecretsHint: string :=
    "Did you forget to add it to secrets.toml, mount it to secret directory, or the app settings "
    + "on Streamlit Cloud? More info: "
    + "https://docs.streamlit.io/deploy/streamlit-community-cloud/deploy-your-app/secrets-management"

  const NoResultsError: string := "ProgrammingError: no results to fetch"
  const ClosedError: string := "InterfaceError: connection already closed"
  const NoneRollbackError: string := "AttributeError: 'NoneType' object has no attribute 'rollback'"

  /** The first of `keys` missing from `m`. */
  function FirstMissing(keys: seq<string>, m: map<string, string>): (r: Option<string>)
    ensures r.None? <==> forall k :: k in keys ==> k in m
    ensures r.Some? ==> r.value in keys && r.value !in m
  {
    if |keys| == 0 then None
    else if keys[0] !in m then Some(keys[0])
    else FirstMissing(keys[1..], m)
  }

  /**
   * The connection parameters of `__init__`: non-empty given parameters are kept as
   * they are; otherwise the five keys are read from the "supabase" secrets section,
   * and a missing section or key raises `KeyError`.
   */
  function ConnectionParams(given: map<string, string>, secrets: map<string, map<string, string>>)
    : (r: Result<map<string, string>>)
    ensures |given| > 0 ==> r == Ok(given)
    ensures |given| == 0 ==>
      (r.Ok? <==> "supabase" in secrets && forall k :: k in ParamKeys ==> k in secrets["supabase"])
    ensures |given| == 0 && r.Ok? ==>
      && r.value.Keys == set k | k in ParamKeys
      && forall k :: k in ParamKeys ==> k in secrets["supabase"] && k in r.value && r.value[k] == secrets["supabase"][k]
  {
    if |given| > 0 then Ok(given)
    else if "supabase" !in secrets then Err(SecretsKeyError("supabase"))
    else
      var section := secrets["supabase"];
      match FirstMissing(ParamKeys, section)
      case Some(k) => Err(SecretsKeyError(k))
      case None => Ok(map k | k in ParamKeys :: section[k])
  }

  /** psycopg2's cursor gets the parameters only when they are truthy: present and non-empty. */
  function Passed<V>(params: Option<seq<V>>): (sent: Option<seq<V>>)
    ensures sent.Some? <==> params.Some? && |params.value| > 0
    ensures sent.Some? ==> sent == params
  {
    if params.Some? && |params.value| > 0 then params else None
  }

  /**
   * `cursor.executemany`: the statement once per tuple, in order, stopping at the
   * first failure; the database after the tuples that ran, and the failure.
   */
  function RunEach<S, V>(engine: Engine<S, V>, query: string, s: S, params: seq<seq<V>>): (r: (S, Outcome))
    ensures |params| == 0 ==> r == (s, Done)
    decreases |params|
  {
    if |params| == 0 then (s, Done)
    else match engine(query, Some(params[0]))(s)
      case Err(msg) => (s, Raised(msg))
      case Ok((s1, _)) => RunEach(engine, query, s1, params[1..])
  }

  class SupabaseConnector<S, V> {
    const params: map<string, string>
    const engine: Engine<S, V>
    /** Why the server refuses a connection, if it does. */
    const refusal: Option<string>
    var conn: Conn
    var connections: nat
    var committed: S
    var pending: S

    ghost predicate Valid()
      reads this
    {
      && (!conn.Open? ==> pending == committed)
      && (!conn.NoConn? ==> conn.id < connections)
    }

    /** `SupabaseConnector(params)` with its parameters resolved: nothing is opened. */
    constructor(connParams: map<string, string>, eng: Engine<S, V>, refused: Option<string>, stored: S)
      ensures Valid()
      ensures params == connParams && engine == eng && refusal == refused
      ensures conn == NoConn && connections == 0 && committed == stored && pending == stored
    {
      params := connParams;
      engine := eng;
      refusal := refused;
      conn := NoConn;
      connections := 0;
      committed := stored;
      pending := stored;
    }

    /**
     * `connect`: reuses an open connection; otherwise opens a new one, which starts
     * from the committed database. A refused connection is re-raised and changes nothing.
     */
    method Connect() returns (r: Result<nat>)
      requires Valid()
      modifies this
      ensures Valid()
      ensures committed == old(committed)
      ensures old(conn).Open? ==> r == Ok(old(conn).id) && conn == old(conn) && connections == old(connections) && pending == old(pending)
      ensures !old(conn).Open? && refusal.Some? ==>
        r == Err(refusal.value) && conn == old(conn) && connections == old(connections) && pending == old(pending)
      ensures !old(conn).Open? && refusal.None? ==>
        r == Ok(old(connections)) && conn == Open(old(connections)) && connections == old(connections) + 1 && pending == committed
    {
      if !conn.Open? {
        if refusal.Some? {
          return Err(refusal.value);
        }
        conn := Open(connections);
        connections := connections + 1;
      }
      r := Ok(conn.id);
    }

    /**
     * `execute`: (re)connects when needed and runs the statement in the open
     * transaction, with the parameters only when they are truthy. Nothing is committed.
     */
    method Execute(query: string, args: Option<seq<V>>) returns (r: Result<Cursor<V>>)
      requires Valid()
      modifies this
      ensures Valid()
      ensures committed == old(committed)
      ensures !old(conn).Open? && refusal.Some? ==> r == Err(refusal.value) && conn == old(conn) && pending == old(pending)
      ensures old(conn).Open? || refusal.None? ==>
        && conn.Open? && (old(conn).Open? ==> conn == old(conn))
        && var before := if old(conn).Open? then old(pending) else old(committed);
           match engine(query, Passed(args))(before)
           case Err(msg) => r == Err(msg) && pending == before
           case Ok((after, rows)) => r == Ok(Cursor(query, Passed(args), rows, false)) && pending == after
    {
      var c := Connect();
      if c.Err? {
        return Err(c.msg);
      }
      match engine(query, Passed(args))(pending)
      case Err(msg) =>
        r := Err(msg);
      case Ok((after, rows)) =>
        pending := after;
        r := Ok(Cursor(query, Passed(args), rows, false));
    }

    /** `executemany`: (re)connects when needed and runs the statement once per tuple. */
    method Executemany(query: string, args: seq<seq<V>>) returns (r: Result<Cursor<V>>)
      requires Valid()
      modifies this
      ensures Valid()
      ensures committed == old(committed)
      ensures !old(conn).Open? && refusal.Some? ==> r == Err(refusal.value) && conn == old(conn) && pending == old(pending)
      ensures old(conn).Open? || refusal.None? ==>
        && conn.Open?
        && var before := if old(conn).Open? then old(pending) else old(committed);
           var (after, outcome) := RunEach(engine, query, before, args);
           && pending == after
           && (outcome.Raised? ==> r == Err(outcome.msg))
           && (outcome.Done? ==> r == Ok(Cursor(query, None, None, false)))
    {
      var c := Connect();
      if c.Err? {
        return Err(c.msg);
      }
      var (after, outcome) := RunEach(engine, query, pending, args);
      pending := after;
      if outcome.Raised? {
        r := Err(outcome.msg);
      } else {
        r := Ok(Cursor(query, None, None, false));
      }
    }

    /**
     * `fetchall`: executes, then reads every row; a statement without a result set
     * raises. Whenever a cursor was made it is closed, on success and on error alike.
     */
    method FetchAll(query: string, args: Option<seq<V>>) returns (r: Result<seq<Row<V>>>, cursor: Option<Cursor<V>>)
      requires Valid()
      modifies this
      ensures Valid()
      ensures committed == old(committed)
      ensures cursor.Some? ==> cursor.value.closed && cursor.value.query == query && cursor.value.sent == Passed(args)
      ensures cursor.None? ==> r.Err?
      ensures cursor.Some? && cursor.value.rows.None? ==> r == Err(NoResultsError)
      ensures cursor.Some? && cursor.value.rows.Some? ==> r == Ok(cursor.value.rows.value)
      ensures old(conn).Open? || refusal.None? ==>
        var before := if old(conn).Open? then old(pending) else old(committed);
        && (engine(query, Passed(args))(before).Ok? <==> cursor.Some?)
        && (cursor.Some? ==> engine(query, Passed(args))(before).value.1 == cursor.value.rows)
    {
      var executed := Execute(query, args);
      if executed.Err? {
        return Err(executed.msg), None;
      }
      var cur := executed.value;
      if cur.rows.None? {
        r := Err(NoResultsError);
      } else {
        r := Ok(cur.rows.value);
      }
      cursor := Some(cur.(closed := true));
    }

    /** `fetchone`: executes, then reads the first row, `None` when there is none; the cursor is closed. */
    method FetchOne(query: string, args: Option<seq<V>>) returns (r: Result<Option<Row<V>>>, cursor: Option<Cursor<V>>)
      requires Valid()
      modifies this
      ensures Valid()
      ensures committed == old(committed)
      ensures cursor.Some? ==> cursor.value.closed && cursor.value.query == query && cursor.value.sent == Passed(args)
      ensures cursor.None? ==> r.Err?
      ensures cursor.Some? && cursor.value.rows.None? ==> r == Err(NoResultsError)
      ensures cursor.Some? && cursor.value.rows.Some? ==>
        r == Ok(if |cursor.value.rows.value| == 0 then None else Some(cursor.value.rows.value[0]))
      ensures old(conn).Open? || refusal.None? ==>
        var before := if old(conn).Open? then old(pending) else old(committed);
        && (engine(query, Passed(args))(before).Ok? <==> cursor.Some?)
        && (cursor.Some? ==> engine(query, Passed(args))(before).value.1 == cursor.value.rows)
    {
      var executed := Execute(query, args);
      if executed.Err? {
        return Err(executed.msg), None;
      }
      var cur := executed.value;
      if cur.rows.None? {
        r := Err(NoResultsError);
      } else if |cur.rows.value| == 0 {
        r := Ok(None);
      } else {
        r := Ok(Some(cur.rows.value[0]));
      }
      cursor := Some(cur.(closed := true));
    }

    /** `rollback`: discards uncommitted work on an open connection; otherwise a no-op. */
    method Rollback()
      requires Valid()
      modifies this
      ensures Valid()
      ensures conn == old(conn) && connections == old(connections)
      ensures committed == old(committed) && pending == committed
    {
      if conn.Open? {
        pending := committed;
      }
    }

    /** `commit`: makes the session's work permanent on an open connection; otherwise a no-op. */
    method Commit()
      requires Valid()
      modifies this
      ensures Valid()
      ensures conn == old(conn) && connections == old(connections)
      ensures committed == old(pending) && pending == committed
    {
      if conn.Open? {
        committed := pending;
      }
    }

    /** `close`: closes an open connection, losing uncommitted work, and forgets it. */
    method Close()
      requires Valid()
      modifies this
      ensures Valid()
      ensures old(conn).Open? ==> conn == NoConn
      ensures !old(conn).Open? ==> conn == old(conn)
      ensures connections == old(connections) && committed == old(committed) && pending == committed
    {
      if conn.Open? {
        pending := committed;
        conn := NoConn;
      }
    }

    /** The server or the network ends the session: psycopg2 marks the connection closed. */
    method ConnectionLost()
      requires Valid()
      modifies this
      ensures Valid()
      ensures old(conn).Open? ==> conn == Closed(old(conn).id)
      ensures !old(conn).Open? ==> conn == old(conn)
      ensures connections == old(connections) && committed == old(committed) && pending == committed
    {
      if conn.Open? {
        pending := committed;
        conn := Closed(conn.id);
      }
    }

    /** Entering `with transaction()`: (re)connects when needed. */
    method TransactionEnter() returns (r: Result<nat>)
      requires Valid()
      modifies this
      ensures Valid()
      ensures committed == old(committed)
      ensures r.Ok? ==> conn == Open(r.value)
      ensures old(conn).Open? ==> r == Ok(old(conn).id) && pending == old(pending)
      ensures !old(conn).Open? ==> (r.Ok? <==> refusal.None?)
    {
      r := Connect();
    }

    /**
     * Leaving `with transaction()`: a normal exit commits; an exception rolls back
     * and is re-raised. Both go through `self.conn` directly, so a connection closed
     * or forgotten inside the block makes them raise instead.
     */
    method TransactionExit(exc: Option<string>) returns (r: Outcome)
      requires Valid()
      modifies this
      ensures Valid()
      ensures conn == old(conn) && connections == old(connections) && pending == committed
      ensures old(conn).Open? && exc.None? ==> r == Done && committed == old(pending)
      ensures old(conn).Open? && exc.Some? ==> r == Raised(exc.value) && committed == old(committed)
      ensures old(conn).NoConn? ==> r == Raised(NoneRollbackError) && committed == old(committed)
      ensures old(conn).Closed? ==> r == Raised(ClosedError) && committed == old(committed)
    {
      match conn
      case Open(_) =>
        if exc.None? {
          committed := pending;
          r := Done;
        } else {
          pending := committed;
          r := Raised(exc.value);
        }
      case NoConn =>
        r := Raised(NoneRollbackError);
      case Closed(_) =>
        r := Raised(ClosedError);
    }

    /** `__enter__`: connects. */
    method Enter() returns (r: Result<nat>)
      requires Valid()
      modifies this
      ensures Valid()
      ensures committed == old(committed)
      ensures r.Ok? ==> conn == Open(r.value)
      ensures old(conn).Open? ==> r == Ok(old(conn).id) && pending == old(pending)
      ensures !old(conn).Open? ==> (r.Ok? <==> refusal.None?)
    {
      r := Connect();
    }

    /**
     * `__exit__`: rolls back after an exception and commits otherwise, then closes,
     * in both cases.
     */
    method Exit(exc: Option<string>)
      requires Valid()
      modifies this
      ensures Valid()
      ensures old(conn).Open? ==> conn == NoConn
      ensures !old(conn).Open? ==> conn == old(conn)
      ensures connections == old(connections) && pending == committed
      ensures committed == (if old(conn).Open? && exc.None? then old(pending) else old(committed))
    {
      if exc.Some? {
        Rollback();
      } else {
        Commit();
      }
      Close();
    }
  }
}
