/** The connection lifecycle manager: one lazily created connector handle,
    a staleness probe, and an immediate re-create when the handle is found
    closed. The mutual-exclusion lock of the source makes every method body
    one atomic step, so the model is sequential. */
module Connection {
  import opened Values
  import opened Config

  /** What probing a handle's `is_closed` attribute yields. */
  datatype IsClosedProbe =
    | Missing                         // absent, or present with the value `None`
    | Callable(result: Option<bool>)  // a method: the truthiness of its result, or `None` when the call raises
    | Plain(truthy: bool)             // any other non-`None` value, by its truthiness
    | Raising                         // looking the attribute up, or taking the truthiness of its value, raises

  /** How a handle answers the two liveness questions: its `is_closed`
      attribute, and the truthiness of its `closed` attribute (`None` when
      the handle has none). */
  datatype HandleState = HandleState(isClosed: IsClosedProbe, closed: Option<bool>)

  /** `_is_closed` on a held handle: a callable `is_closed` that answers
      decides, then a plain value's truthiness, then the `closed` attribute,
      and a handle that cannot say at all counts as open. */
  predicate ReportsClosed(s: HandleState): (r: bool)
    ensures s.isClosed == Callable(Some(true)) || s.isClosed == Plain(true) ==> r
    ensures s.isClosed == Callable(Some(false)) || s.isClosed == Plain(false) ==> !r
    ensures s.closed != Some(true) ==> (r <==> s.isClosed in {Callable(Some(true)), Plain(true)})
  {
    match s.isClosed
    case Callable(Some(b)) => b
    case Plain(b) => b
    case _ => s.closed == Some(true)
  }

  /** The probe falls back to the `closed` attribute. */
  predicate FallsBack(p: IsClosedProbe)
  {
    p.Missing? || p.Raising? || (p.Callable? && p.result.None?)
  }

  /** The order in which `_is_closed` decides: a callable's result, then a
      plain value's truthiness, then `closed`, which defaults to open. */
  lemma ProbeOrder(s: HandleState)
    ensures s.isClosed.Callable? && s.isClosed.result.Some? ==> (ReportsClosed(s) <==> s.isClosed.result.value)
    ensures s.isClosed.Plain? ==> (ReportsClosed(s) <==> s.isClosed.truthy)
    ensures FallsBack(s.isClosed) ==> (ReportsClosed(s) <==> s.closed == Some(true))
    ensures FallsBack(s.isClosed) && s.closed.None? ==> !ReportsClosed(s)
  {
  }

  /** A session object of the warehouse connector. Its state may change
      behind the manager's back (a session closed by the server). */
  class Handle {
    var state: HandleState

    constructor (state: HandleState)
      ensures this.state == state
    {
      this.state := state;
    }

    method Cursor() returns (c: Cursor)
      ensures fresh(c) && c.connection == this && c.executed == []
    {
      c := new Cursor(this);
    }
  }

  /** A cursor; it records the statements dispatched through it. */
  class Cursor {
    const connection: Handle
    var executed: seq<(string, Option<map<string, Value>>)>

    constructor (connection: Handle)
      ensures this.connection == connection && executed == []
    {
      this.connection := connection;
      executed := [];
    }

    method Execute(sql: string, params: Option<map<string, Value>>)
      modifies this
      ensures executed == old(executed) + [(sql, params)]
    {
      executed := executed + [(sql, params)];
    }
  }

  /** The warehouse connector's `connect`: each call hands out a fresh
      handle, the n-th one in the state `plan(n)`, and is logged with its
      keyword arguments. */
  class Connector {
    const plan: nat -> HandleState
    var calls: seq<map<string, Value>>

    constructor (plan: nat -> HandleState)
      ensures this.plan == plan && calls == []
    {
      this.plan := plan;
      calls := [];
    }

    method Connect(kwargs: map<string, Value>) returns (h: Handle)
      modifies this
      ensures fresh(h) && h.state == plan(|old(calls)|)
      ensures calls == old(calls) + [kwargs]
    {
      h := new Handle(plan(|calls|));
      calls := calls + [kwargs];
    }
  }

  class ConnectionManager {
    const config: SnowflakeConfig
    const connector: Connector
    var connection: Handle?

    constructor (config: SnowflakeConfig, connector: Connector)
      ensures this.config == config && this.connector == connector && connection == null
    {
      this.config := config;
      this.connector := connector;
      connection := null;
    }

    /** `_create_connection`: connect with exactly `config.to_dict()`. */
    method CreateConnection() returns (h: Handle)
      requires config.Valid()
      modifies connector
      ensures fresh(h) && h.state == connector.plan(|old(connector.calls)|)
      ensures connector.calls == old(connector.calls) + [ConnectorParams(config.fields, config.extra)]
    {
      var params := config.ToDict();
      h := connector.Connect(params);
    }

    /** `_is_closed`: no handle counts as closed; a handle that cannot say
        counts as open. */
    predicate IsClosed(): (r: bool)
      reads this, connection
      ensures connection == null ==> r
      ensures connection != null && FallsBack(connection.state.isClosed) && connection.state.closed.None? ==> !r
    {
      connection == null || ReportsClosed(connection.state)
    }

    /** What `get_connection` leaves behind, relative to the state before
        the call, for the handle `h` it returns. With no handle: one new
        handle if it reports open, else a second new handle kept whatever it
        reports. With a handle that reports open: that same handle and no
        creation. With a handle that reports closed: exactly one new handle.
        In every case the stored handle is the returned one, and each
        creation passes the config's connector arguments. */
    twostate predicate Obtained(new h: Handle)
      reads this, connector, config, h
    {
      var n, kw := |old(connector.calls)|, ConnectorParams(config.fields, config.extra);
      && connection == h
      && if old(connection) == null then
           if !ReportsClosed(connector.plan(n)) then
             fresh(h) && h.state == connector.plan(n) && connector.calls == old(connector.calls) + [kw]
           else
             fresh(h) && h.state == connector.plan(n + 1) && connector.calls == old(connector.calls) + [kw, kw]
         else if !ReportsClosed(old(connection.state)) then
           h == old(connection) && connector.calls == old(connector.calls)
         else
           fresh(h) && h.state == connector.plan(n) && connector.calls == old(connector.calls) + [kw]
    }

    /** `get_connection`: create on first use with one immediate corrective
        re-create, keep an open handle, replace a closed one. */
    method GetConnection() returns (h: Handle)
      requires config.Valid()
      modifies this, connector
      ensures Obtained(h)
    {
      if connection == null {
        connection := CreateConnection();
        if IsClosed() {
          connection := CreateConnection();
        }
      } else {
        if IsClosed() {
          connection := CreateConnection();
        }
      }
      h := connection;
    }

    /** `execute`: obtain a handle, open a cursor on it and dispatch the
        statement, with an empty or absent bind map sent as none. */
    method Execute(sql: string, params: Option<map<string, Value>>) returns (cur: Cursor)
      requires config.Valid()
      modifies this, connector
      ensures Obtained(cur.connection)
      ensures fresh(cur) && cur.executed == [(sql, NormaliseParams(params))]
    {
      var conn := GetConnection();
      cur := conn.Cursor();
      cur.Execute(sql, NormaliseParams(params));
    }
  }

  /** `_create_manager`: resolve the configuration, then wrap it. */
  method CreateManager(config: SnowflakeConfig?, secrets: Secrets, environ: seq<(string, string)>, connector: Connector)
    returns (m: ConnectionManager)
    requires config != null ==> config.Valid()
    modifies config
    ensures fresh(m) && m.connection == null && m.connector == connector && m.config.Valid()
    ensures config != null ==> m.config == config
    ensures config == null ==> fresh(m.config)
    ensures m.config.fields == ResolvedFields(if config == null then Defaults() else old(config.fields), secrets, environ)
    ensures m.config.extra == ResolvedExtra(if config == null then map[] else old(config.extra), secrets, environ)
  {
    var resolved := ResolveConfig(config, secrets, environ);
    m := new ConnectionManager(resolved, connector);
  }

  /** The module-level singleton used when the UI framework is absent. */
  class ManagerRegistry {
    const connector: Connector
    var global: ConnectionManager?

    constructor (connector: Connector)
      ensures this.connector == connector && global == null
    {
      this.connector := connector;
      global := null;
    }

    /** `get_connection_manager` without the UI framework: the first call
        creates the singleton, a later call without a config returns it,
        and a later call with a config replaces it. */
    method GetConnectionManager(config: SnowflakeConfig?, secrets: Secrets, environ: seq<(string, string)>)
      returns (m: ConnectionManager)
      requires config != null ==> config.Valid()
      modifies this, config
      ensures global == m
      ensures old(global) != null && config == null ==> m == old(global)
      ensures old(global) == null || config != null ==>
        && fresh(m) && m.connection == null && m.connector == connector && m.config.Valid()
        && (config != null ==> m.config == config)
        && m.config.fields == ResolvedFields(if config == null then Defaults() else old(config.fields), secrets, environ)
        && m.config.extra == ResolvedExtra(if config == null then map[] else old(config.extra), secrets, environ)
    {
      if global == null {
        global := CreateManager(config, secrets, environ, connector);
      } else if config != null {
        global := CreateManager(config, secrets, environ, connector);
      }
      m := global;
    }
  }
}

/** Concrete runs of the lifecycle manager against a scripted connector. */
module ConnectionScenarios {
  import opened Values
  import opened Config
  import opened Connection

  const Open: HandleState := HandleState(Callable(Some(false)), Some(false))
  const Closed: HandleState := HandleState(Callable(Some(true)), Some(true))

  const Credentials: map<string, Value> := map["account" := Text("acct"), "user" := Text("user"), "password" := Text("pass")]

  method NewConfig() returns (c: SnowflakeConfig)
    ensures fresh(c) && c.Valid() && c.fields == Defaults() + Credentials && c.extra == map[]
  {
    FieldNameFacts();
    c := new SnowflakeConfig(Credentials);
  }

  /** The connector receives the configured account, user and password, and
      a second `get_connection` on a live handle returns that same handle. */
  method ReuseLiveHandle() returns (kwargs: map<string, Value>, reused: bool, created: nat)
    ensures "account" in kwargs && kwargs["account"] == Text("acct")
    ensures "user" in kwargs && kwargs["user"] == Text("user")
    ensures "password" in kwargs && kwargs["password"] == Text("pass")
    ensures reused && created == 1
  {
    var cfg := NewConfig();
    var connector := new Connector(n => Open);
    var manager := new ConnectionManager(cfg, connector);
    var conn := manager.GetConnection();
    kwargs := connector.calls[0];
    ConnectorParamsContents(cfg.fields, cfg.extra, "account");
    ConnectorParamsContents(cfg.fields, cfg.extra, "user");
    ConnectorParamsContents(cfg.fields, cfg.extra, "password");
    var again := manager.GetConnection();
    reused := conn == again;
    created := |connector.calls|;
  }

  /** A first handle that is already closed is replaced at once: two
      creations, and the handle returned reports open. */
  method ReconnectOnFirstClosed() returns (created: nat, closedAfter: bool)
    ensures created == 2 && !closedAfter
  {
    var cfg := NewConfig();
    var connector := new Connector(n => if n == 0 then Closed else Open);
    var manager := new ConnectionManager(cfg, connector);
    var conn := manager.GetConnection();
    created := |connector.calls|;
    closedAfter := ReportsClosed(conn.state);
  }

  /** A handle that goes stale between two calls is replaced by one new handle. */
  method ReplaceStaleHandle() returns (created: nat, replaced: bool)
    ensures created == 2 && replaced
  {
    var cfg := NewConfig();
    var connector := new Connector(n => Open);
    var manager := new ConnectionManager(cfg, connector);
    var first := manager.GetConnection();
    first.state := Closed;
    var second := manager.GetConnection();
    created := |connector.calls|;
    replaced := first != second && manager.connection == second;
  }

  /** The singleton is created once, returned again for a call without a
      config, and replaced by a call with a config. */
  method SingletonLifecycle() returns (sameWithoutConfig: bool, replacedWithConfig: bool)
    ensures sameWithoutConfig && replacedWithConfig
  {
    var connector := new Connector(n => Open);
    var registry := new ManagerRegistry(connector);
    var first := registry.GetConnectionManager(null, None, []);
    var second := registry.GetConnectionManager(null, None, []);
    var cfg := NewConfig();
    var third := registry.GetConnectionManager(cfg, None, []);
    sameWithoutConfig := first == second;
    replacedWithConfig := third != first && third.config == cfg;
  }
}
