/** The connection manager both pipelines use: it builds the connection URI around the
    percent-encoded password, keeps the engine it created, and offers one bulk write with
    replace/append semantics that reports failure as `false` instead of raising.
    The relational store itself is modelled as a `Warehouse`: named tables of rows, whether
    the server can be reached, and which writes it commits. */
module Postgres {
  import opened Wrappers
  import PercentEncoding
  import Text

  /** `if_exists='replace'` or `if_exists='append'` of `DataFrame.to_sql`. */
  datatype WriteMode = Replace | Append

  const Scheme: string := "postgresql://"

  /** The URI `create_connection_string` formats. */
  function ConnectionString(username: string, password: string, host: string, port: string, database: string): string {
    Scheme + username + ":" + PercentEncoding.Quote(password) + "@" + host + ":" + port + "/" + database
  }

  /** Reads the user name and the password back out of a URI of this shape, as the URL pattern of
      SQLAlchemy, which `create_engine` hands the URI to, splits it: the user name runs to the first
      `:` and holds no `/`, the password runs from there to the first `@` and is percent-decoded.
      (A strict reader of section 3.2 of RFC 3986 would instead end the authority at the first
      `/`, which `quote` leaves in the password.) */
  function UserAndPassword(uri: string): Option<(string, string)> {
    if |uri| < |Scheme| || uri[..|Scheme|] != Scheme then None
    else
      var rest := uri[|Scheme|..];
      var at := Text.FirstIndex(rest, '@');
      if at < 0 then None else SplitUserInfo(rest[..at])
  }

  /** The user name before the first `:` of a userinfo, and the percent-decoded password after it. */
  function SplitUserInfo(userinfo: string): Option<(string, string)> {
    var colon := Text.FirstIndex(userinfo, ':');
    if colon < 0 || '/' in userinfo[..colon] then None
    else
      match PercentEncoding.Unquote(userinfo[colon + 1..])
      case None => None
      case Some(password) => Some((userinfo[..colon], password))
  }

  lemma FirstIndexAfter(a: string, c: char, b: string)
    requires c !in a
    ensures Text.FirstIndex(a + [c] + b, c) == |a|
  {
    var s := a + [c] + b;
    assert s[|a|] == c && s[..|a|] == a;
  }

  lemma UserAndPasswordOf(userinfo: string, tail: string)
    requires '@' !in userinfo
    ensures UserAndPassword(Scheme + userinfo + "@" + tail) == SplitUserInfo(userinfo)
  {
    var uri := Scheme + userinfo + "@" + tail;
    assert uri[..|Scheme|] == Scheme;
    assert uri[|Scheme|..] == userinfo + ['@'] + tail;
    FirstIndexAfter(userinfo, '@', tail);
    assert (userinfo + ['@'] + tail)[..|userinfo|] == userinfo;
  }

  lemma SplitUserInfoOf(username: string, password: string)
    requires ':' !in username && '/' !in username
    ensures SplitUserInfo(username + ":" + PercentEncoding.Quote(password)) == Some((username, password))
  {
    var q := PercentEncoding.Quote(password);
    PercentEncoding.QuoteRoundTrip(password);
    FirstIndexAfter(username, ':', q);
    var userinfo := username + [':'] + q;
    assert userinfo[|username| + 1..] == q;
    assert userinfo[..|username|] == username;
  }

  /** Whatever the password holds, the URI splits back into exactly that user name and password,
      provided the user name (which is not encoded) holds no `@`, no `:` and no `/`. */
  lemma ConnectionStringRoundTrip(username: string, password: string, host: string, port: string, database: string)
    requires '@' !in username && ':' !in username && '/' !in username
    ensures UserAndPassword(ConnectionString(username, password, host, port, database)) == Some((username, password))
  {
    var userinfo := username + ":" + PercentEncoding.Quote(password);
    var tail := host + ":" + port + "/" + database;
    PercentEncoding.QuoteHasNoDelimiters(password);
    assert '@' !in userinfo;
    assert ConnectionString(username, password, host, port, database) == Scheme + userinfo + "@" + tail;
    UserAndPasswordOf(userinfo, tail);
    SplitUserInfoOf(username, password);
  }

  /** The tables after `to_sql`: replace drops and recreates the table with `rows`; append adds
      `rows` at the end, creating the table when it does not exist. */
  function Written<R>(tables: map<string, seq<R>>, name: string, rows: seq<R>, mode: WriteMode): (t: map<string, seq<R>>)
    ensures t.Keys == tables.Keys + {name}
    ensures forall other :: other in tables && other != name ==> t[other] == tables[other]
    ensures mode == Replace ==> t[name] == rows
    ensures mode == Append ==> t[name] == (if name in tables then tables[name] else []) + rows
  {
    match mode
    case Replace => tables[name := rows]
    case Append => tables[name := (if name in tables then tables[name] else []) + rows]
  }

  /** Whether a reachable server commits a `to_sql` call, given the stored tables, the target
      table, the rows and the mode; `false` stands for the exception (a schema conflict on
      append, a violated constraint, a connection lost mid-write) that rolls the write back. */
  type Acceptance<!R> = (map<string, seq<R>>, string, seq<R>, WriteMode) -> bool

  /** The server commits every append. */
  ghost predicate AcceptsAppends<R(!new)>(accepts: Acceptance<R>) {
    forall tables, name, rows :: accepts(tables, name, rows, Append)
  }

  /** The tables after one `to_sql` call: written when the server is reachable and commits the
      write, as they were otherwise. */
  function Attempt<R>(tables: map<string, seq<R>>, name: string, rows: seq<R>, mode: WriteMode,
                      online: bool, accepts: Acceptance<R>): map<string, seq<R>>
  {
    if online && accepts(tables, name, rows, mode) then Written(tables, name, rows, mode) else tables
  }

  /** The relational store: named tables of rows, whether a connection to it can be opened, and
      which writes it commits once connected. */
  class Warehouse<R> {
    const reachable: bool
    const accepts: Acceptance<R>
    var tables: map<string, seq<R>>

    constructor (reachable: bool, accepts: Acceptance<R>, tables: map<string, seq<R>>)
      ensures this.reachable == reachable && this.accepts == accepts && this.tables == tables
    {
      this.reachable := reachable;
      this.accepts := accepts;
      this.tables := tables;
    }
  }

  /** `PostgreSQLManager`: the credentials, the engine (the URI it was created from, or `None`)
      and the store the engine reaches. */
  class PostgresManager<R> {
    const username: string
    const password: string
    const host: string
    const port: string
    const database: string
    const db: Warehouse<R>
    var engine: Option<string>

    /** `__init__` stores the credentials, sets `engine` to `None` and calls `connect()`, whose
        outcome it discards; `connect()` assigns the engine before it tries to open a connection. */
    constructor (username: string, password: string, host: string, port: string, database: string, db: Warehouse<R>)
      ensures this.username == username && this.password == password && this.host == host
      ensures this.port == port && this.database == database && this.db == db
      ensures engine == Some(ConnectionString(username, password, host, port, database))
    {
      this.username := username;
      this.password := password;
      this.host := host;
      this.port := port;
      this.database := database;
      this.db := db;
      engine := Some(ConnectionString(username, password, host, port, database));
    }

    function Uri(): string {
      ConnectionString(username, password, host, port, database)
    }

    /** Whether the engine reaches the server: a read or a write is then attempted there. */
    predicate Online()
      reads this, db
    {
      engine.Some? && db.reachable
    }

    /** Whether `pd.read_sql` on `table` through the engine succeeds. */
    predicate CanRead(table: string)
      reads this, db
    {
      engine.Some? && db.reachable && table in db.tables
    }

    /** `connect()`: the engine is assigned first, so it stays set even when opening a connection
        fails; the `OperationalError` becomes `false`. */
    method Connect() returns (ok: bool)
      modifies this`engine
      ensures engine == Some(Uri())
      ensures ok == db.reachable
    {
      engine := Some(Uri());
      if !db.reachable {
        return false;
      }
      return true;
    }

    /** `upload_data`: `false` without writing when there is no engine or nothing to write;
        otherwise `to_sql`, whose failure (an unreachable server, or a write the server does not
        commit) leaves the store as it was and is reported as `false`. */
    method UploadData(rows: seq<R>, table: string, mode: WriteMode) returns (ok: bool)
      modifies db`tables
      ensures ok <==> engine.Some? && |rows| > 0 && db.reachable && db.accepts(old(db.tables), table, rows, mode)
      ensures db.tables == if ok then Written(old(db.tables), table, rows, mode) else old(db.tables)
    {
      if engine.None? {
        return false;
      }
      if |rows| == 0 {
        return false;
      }
      if !db.reachable || !db.accepts(db.tables, table, rows, mode) {
        return false;
      }
      db.tables := Written(db.tables, table, rows, mode);
      return true;
    }

    /** `pd.read_sql(f"SELECT ... FROM {table}", self.engine)`: the stored rows, or `None` for the
        exception raised when there is no engine, the server cannot be reached or the table does
        not exist. */
    method ReadTable(table: string) returns (r: Option<seq<R>>)
      ensures r.Some? <==> CanRead(table)
      ensures r.Some? ==> r.value == db.tables[table]
    {
      if engine.None? || !db.reachable || table !in db.tables {
        return None;
      }
      return Some(db.tables[table]);
    }
  }
}
