/**
 * Finding working credentials (main.go:177-182, 206-258): the candidate option files are read in
 * order, each yields a DSN or is skipped, and the first one whose connection opens and answers a
 * ping ends the search.
 */
module Resolver {
  import opened Bytes
  import opened Database

  /** What read_cnf (main.go:56-96) returns: user, password, host and socket of [client]. */
  datatype Credential = Credential(user: string, password: string, host: string, socket: string)

  /**
   * The world outside the program: the option files and the file system (`readCnf`, which gives
   * all empty fields for a missing or unparseable file; `socketExists` for os.Stat), the
   * driver's sql.Open (`openFails`), and what each server does with pings, commands and
   * `SELECT VERSION()`; the failure oracles are indexed by the position of the exchange on its
   * connection.
   */
  datatype Env = Env(
    readCnf: string -> Credential,
    socketExists: string -> bool,
    openFails: string -> bool,
    pingFails: string -> nat -> bool,
    queryFails: string -> nat -> bool,
    version: string -> seq<byte>)

  /** The three option files tried before the command-line arguments (main.go:177). */
  const DefaultCnfFiles: seq<string> := ["~/.my.cnf", "/etc/mysql/root.cnf", "/etc/mysql/debian.cnf"]

  /** main.go:177-182: the defaults, then every positional argument in order. */
  method CandidateFiles(args: seq<string>) returns (files: seq<string>)
    ensures files == DefaultCnfFiles + args
  {
    files := DefaultCnfFiles;
    if |args| > 0 {
      for i := 0 to |args|
        invariant files == DefaultCnfFiles + args[..i]
      {
        files := files + [args[i]];
        assert args[..i + 1] == args[..i] + [args[i]];
      }
    }
    assert args[..|args|] == args;
  }

  function UnixDsn(c: Credential): string {
    c.user + ":" + c.password + "@unix(" + c.socket + ")/"
  }

  function TcpDsn(c: Credential): string {
    c.user + ":" + c.password + "@tcp(" + c.host + ")/"
  }

  /**
   * main.go:209-220: a socket that exists wins, even when a host is given as well; otherwise
   * a host; otherwise there is no DSN.
   */
  function ChooseDsn(c: Credential, socketExists: string -> bool): (dsn: string)
    ensures c.socket != "" && socketExists(c.socket) ==> dsn == UnixDsn(c)
    ensures !(c.socket != "" && socketExists(c.socket)) && c.host != "" ==> dsn == TcpDsn(c)
    ensures dsn == "" <==> !(c.socket != "" && socketExists(c.socket)) && c.host == ""
  {
    var dsn := if c.socket != "" && socketExists(c.socket) then UnixDsn(c) else "";
    if dsn == "" && c.host != "" then TcpDsn(c) else dsn
  }

  /** What became of one candidate. */
  datatype Attempt =
    | NoTarget                   // neither an existing socket nor a host (main.go:221-226)
    | NoAuth(dsn: string)        // a DSN, but the user or the password is empty (main.go:227-232)
    | OpenFailed(dsn: string)    // sql.Open refused the DSN (main.go:234-242)
    | PingFailed(dsn: string)    // opened, but the ping failed (main.go:246-253)
    | Connected(dsn: string)     // working credentials (main.go:256)

  function AttemptOf(env: Env, cnf: string): Attempt {
    var c := env.readCnf(cnf);
    var dsn := ChooseDsn(c, env.socketExists);
    if dsn == "" then NoTarget
    else if c.user == "" || c.password == "" then NoAuth(dsn)
    else if env.openFails(dsn) then OpenFailed(dsn)
    else if env.pingFails(dsn)(0) then PingFailed(dsn)
    else Connected(dsn)
  }

  /** How many candidates are read: up to and including the first one that connects. */
  function Tried(env: Env, files: seq<string>): (n: nat)
    ensures n <= |files|
  {
    if files == [] then 0
    else if AttemptOf(env, files[0]).Connected? then 1
    else 1 + Tried(env, files[1..])
  }

  /**
   * `dsn` at the end of a pass over one candidate. It is reset at the start of every pass
   * (main.go:209); an open or ping failure clears it again (main.go:240, 251), but a missing user
   * or password leaves it set (main.go:227-231).
   */
  function DsnAfter(a: Attempt): string {
    match a
    case NoAuth(d) => d
    case Connected(d) => d
    case _ => ""
  }

  /** `dsn` after the loop: only the last candidate read counts. */
  function FinalDsn(env: Env, read: seq<string>): string {
    if read == [] then "" else DsnAfter(AttemptOf(env, read[|read| - 1]))
  }

  datatype Option<T> = None | Some(value: T)

  /** The DSN of the connection `db` holds after the loop; None while `db` is nil. */
  function LastOpened(env: Env, read: seq<string>): Option<string> {
    if read == [] then None
    else match AttemptOf(env, read[|read| - 1])
      case OpenFailed(_) => None
      case PingFailed(d) => Some(d)
      case Connected(d) => Some(d)
      case _ => LastOpened(env, read[..|read| - 1])
  }

  /** The connection sql.Open returns for an accepted DSN. */
  ghost predicate OpenedFor(env: Env, db: Conn, dsn: string)
    reads db
  {
    db.dsn == dsn && db.queryFails == env.queryFails(dsn) && db.pingFails == env.pingFails(dsn) &&
    db.serverVersion == env.version(dsn) && db.trace == [Pinged]
  }

  /** The DSN a candidate hands to sql.Open, if it gets that far. */
  function OpenedBy(a: Attempt): seq<string> {
    match a
    case OpenFailed(d) => [d]
    case PingFailed(d) => [d]
    case Connected(d) => [d]
    case _ => []
  }

  /** The DSNs handed to sql.Open while the candidates `read` are tried, in order. */
  function OpensOf(env: Env, read: seq<string>): seq<string> {
    if read == [] then [] else OpensOf(env, read[..|read| - 1]) + OpenedBy(AttemptOf(env, read[|read| - 1]))
  }

  /** What one more candidate read does to the specification of the search. */
  lemma SearchSnoc(env: Env, read: seq<string>, cnf: string)
    ensures var a := AttemptOf(env, cnf);
      OpensOf(env, read + [cnf]) == OpensOf(env, read) + OpenedBy(a) &&
      FinalDsn(env, read + [cnf]) == DsnAfter(a) &&
      LastOpened(env, read + [cnf]) ==
        (if a.OpenFailed? then None
         else if a.PingFailed? || a.Connected? then Some(a.dsn)
         else LastOpened(env, read))
  {
    assert (read + [cnf])[..|read|] == read;
  }

  /**
   * Where the search stands after reading the candidates `read`: it has opened `opens`, holds
   * `dsn` and holds `db`, the connection of the last candidate that got a connection, if any.
   */
  ghost predicate Found(env: Env, read: seq<string>, opens: seq<string>, dsn: string, db: Conn?)
    reads db
  {
    opens == OpensOf(env, read) && dsn == FinalDsn(env, read) &&
    (db == null <==> LastOpened(env, read) == None) &&
    (db != null ==> LastOpened(env, read) == Some(db.dsn) && OpenedFor(env, db, db.dsn))
  }

  /** Trying one more candidate, as TryCandidate does, keeps the search where `Found` says. */
  lemma FoundSnoc(env: Env, read: seq<string>, cnf: string, opens: seq<string>, dsn: string, db: Conn?,
                  dsn': string, db': Conn?)
    requires Found(env, read, opens, dsn, db)
    requires var a := AttemptOf(env, cnf);
      dsn' == DsnAfter(a) &&
      (a.OpenFailed? ==> db' == null) &&
      (a.NoTarget? || a.NoAuth? ==> db' == db) &&
      (a.PingFailed? || a.Connected? ==> db' != null && OpenedFor(env, db', a.dsn))
    ensures Found(env, read + [cnf], opens + OpenedBy(AttemptOf(env, cnf)), dsn', db')
  {
    SearchSnoc(env, read, cnf);
  }

  /**
   * The calls the search makes into the world outside the program: read_cnf (main.go:56-96) and
   * sql.Open (main.go:234). Each call is recorded, so what the search reads and opens is visible.
   */
  class World {
    const env: Env
    /** Every option file read_cnf was asked for, in order. */
    var readFiles: seq<string>
    /** Every DSN sql.Open was given, in order. */
    var openedDsns: seq<string>

    constructor (env: Env)
      ensures this.env == env && readFiles == [] && openedDsns == []
    {
      this.env := env;
      readFiles := [];
      openedDsns := [];
    }

    /** read_cnf(cnf). */
    method ReadCnf(cnf: string) returns (c: Credential)
      modifies this`readFiles
      ensures readFiles == old(readFiles) + [cnf]
      ensures c == env.readCnf(cnf)
    {
      c := env.readCnf(cnf);
      readFiles := readFiles + [cnf];
    }

    /** sql.Open("mysql", dsn): nil on an error, otherwise a new connection that has sent nothing. */
    method Open(dsn: string) returns (db: Conn?)
      modifies this`openedDsns
      ensures openedDsns == old(openedDsns) + [dsn]
      ensures db == null <==> env.openFails(dsn)
      ensures db != null ==> fresh(db) && db.dsn == dsn && db.trace == []
      ensures db != null ==> db.queryFails == env.queryFails(dsn) && db.pingFails == env.pingFails(dsn)
      ensures db != null ==> db.serverVersion == env.version(dsn)
    {
      openedDsns := openedDsns + [dsn];
      if env.openFails(dsn) {
        db := null;
      } else {
        db := new Conn(dsn, env.queryFails(dsn), env.pingFails(dsn), env.version(dsn));
      }
    }
  }

  /**
   * One pass of the loop body of main.go:207-256 over the option file `cnf`, with `db` the
   * connection held so far. The `continue` statements become returns; `stop` is the `break`.
   */
  method TryCandidate(w: World, cnf: string, db: Conn?) returns (dsn: string, db': Conn?, stop: bool)
    modifies w`readFiles, w`openedDsns
    ensures w.readFiles == old(w.readFiles) + [cnf]
    ensures w.openedDsns == old(w.openedDsns) + OpenedBy(AttemptOf(w.env, cnf))
    ensures var a := AttemptOf(w.env, cnf);
      stop == a.Connected? && dsn == DsnAfter(a) &&
      (a.OpenFailed? ==> db' == null) &&
      (a.NoTarget? || a.NoAuth? ==> db' == db)
    ensures var a := AttemptOf(w.env, cnf);
      a.PingFailed? || a.Connected? ==> db' != null && fresh(db') && OpenedFor(w.env, db', a.dsn)
  {
    var env := w.env;
    db', stop := db, false;
    var c := w.ReadCnf(cnf);
    dsn := "";
    if c.socket != "" {
      if env.socketExists(c.socket) {
        dsn := UnixDsn(c);
      }
    }
    if dsn == "" {
      if c.host != "" {
        dsn := TcpDsn(c);
      }
    }
    if dsn == "" {
      return;
    }
    if c.user == "" || c.password == "" {
      return;
    }
    db' := w.Open(dsn);
    if db' == null {
      dsn := "";
      return;
    }
    var failed := db'.Ping();
    if failed {
      dsn := "";
      return;
    }
    stop := true;
  }

  /**
   * The credential search loop of main.go:206-258, in a world where nothing has been read or
   * opened yet. Only the candidates up to the first that connects are read, and only their DSNs
   * reach sql.Open.
   */
  method Resolve(w: World, files: seq<string>) returns (dsn: string, db: Conn?)
    requires w.readFiles == [] && w.openedDsns == []
    modifies w`readFiles, w`openedDsns
    ensures w.readFiles == files[..Tried(w.env, files)]
    ensures w.openedDsns == OpensOf(w.env, w.readFiles)
    ensures dsn == FinalDsn(w.env, w.readFiles)
    ensures db == null <==> LastOpened(w.env, w.readFiles) == None
    ensures db != null ==> LastOpened(w.env, w.readFiles) == Some(db.dsn) && OpenedFor(w.env, db, db.dsn)
    ensures db != null ==> fresh(db)
  {
    ghost var env := w.env;
    dsn := "";
    db := null;
    var i := 0;
    while i < |files|
      invariant 0 <= i <= |files| && w.readFiles == files[..i]
      invariant forall k :: 0 <= k < i ==> !AttemptOf(env, files[k]).Connected?
      invariant Found(env, w.readFiles, w.openedDsns, dsn, db)
      invariant db != null ==> fresh(db)
    {
      ghost var read, opens, dsn0, db0 := w.readFiles, w.openedDsns, dsn, db;
      var stop;
      dsn, db, stop := TryCandidate(w, files[i], db);
      FoundSnoc(env, read, files[i], opens, dsn0, db0, dsn, db);
      assert files[..i + 1] == files[..i] + [files[i]];
      if stop {
        FirstConnectionWins(env, files, i);
        return;
      }
      assert forall k :: 0 <= k < i + 1 ==> !AttemptOf(env, files[k]).Connected? by {
        assert !AttemptOf(env, files[i]).Connected?;
      }
      i := i + 1;
    }
    AllReadWithoutConnection(env, files);
    assert files[..|files|] == files;
  }

  /** The search stops at the first candidate that connects: it is the last one read. */
  lemma {:induction false} FirstConnectionWins(env: Env, files: seq<string>, k: nat)
    requires k < |files| && AttemptOf(env, files[k]).Connected?
    requires forall i :: 0 <= i < k ==> !AttemptOf(env, files[i]).Connected?
    ensures Tried(env, files) == k + 1
    ensures FinalDsn(env, files[..k + 1]) == AttemptOf(env, files[k]).dsn
    decreases k
  {
    if k > 0 {
      assert forall i :: 0 <= i < k - 1 ==> files[1..][i] == files[i + 1];
      FirstConnectionWins(env, files[1..], k - 1);
    }
  }

  /** Without a candidate that connects, every candidate is read. */
  lemma {:induction false} AllReadWithoutConnection(env: Env, files: seq<string>)
    requires forall i :: 0 <= i < |files| ==> !AttemptOf(env, files[i]).Connected?
    ensures Tried(env, files) == |files|
    decreases |files|
  {
    if files != [] {
      assert forall i :: 0 <= i < |files| - 1 ==> files[1..][i] == files[i + 1];
      AllReadWithoutConnection(env, files[1..]);
    }
  }

  /** A candidate that connects is the last one read. */
  lemma {:induction false} TriedEndsAtConnection(env: Env, files: seq<string>)
    requires Tried(env, files) < |files|
    ensures Tried(env, files) > 0 && AttemptOf(env, files[Tried(env, files) - 1]).Connected?
    decreases |files|
  {
    if !AttemptOf(env, files[0]).Connected? {
      TriedEndsAtConnection(env, files[1..]);
    }
  }

  /**
   * The exit-1 check of main.go:260-265 fires exactly when no candidate connects and the last
   * candidate was not one with a DSN but no user or password.
   */
  lemma NoCredentialsExactly(env: Env, files: seq<string>)
    ensures var read := files[..Tried(env, files)];
      FinalDsn(env, read) == "" <==>
        (forall i :: 0 <= i < |files| ==> !AttemptOf(env, files[i]).Connected?) &&
        (files == [] || !AttemptOf(env, files[|files| - 1]).NoAuth?)
  {
    var n := Tried(env, files);
    var read := files[..n];
    if forall i :: 0 <= i < |files| ==> !AttemptOf(env, files[i]).Connected? {
      AllReadWithoutConnection(env, files);
      if files != [] {
        assert read[|read| - 1] == files[|files| - 1];
        assert AttemptOf(env, files[|files| - 1]).NoAuth? ==> FinalDsn(env, read) == AttemptOf(env, files[|files| - 1]).dsn;
        assert AttemptOf(env, files[|files| - 1]).NoAuth? ==> ChooseDsn(env.readCnf(files[|files| - 1]), env.socketExists) != "";
      }
    } else {
      var k :| 0 <= k < |files| && AttemptOf(env, files[k]).Connected?;
      ConnectionEndsSearch(env, files, k);
      assert read[|read| - 1] == files[n - 1];
      assert ChooseDsn(env.readCnf(files[n - 1]), env.socketExists) != "";
    }
  }

  /** If some candidate connects, the search ends at one that connects, no later than it. */
  lemma {:induction false} ConnectionEndsSearch(env: Env, files: seq<string>, k: nat)
    requires k < |files| && AttemptOf(env, files[k]).Connected?
    ensures 0 < Tried(env, files) <= k + 1
    ensures AttemptOf(env, files[Tried(env, files) - 1]).Connected?
    decreases k
  {
    if !AttemptOf(env, files[0]).Connected? {
      assert files[1..][k - 1] == files[k];
      ConnectionEndsSearch(env, files[1..], k - 1);
      assert files[1..][Tried(env, files[1..]) - 1] == files[Tried(env, files) - 1];
    }
  }

  /**
   * The quirk of main.go:227-231 and 260: when nothing connects and the last candidate names a
   * socket or host but lacks a user or password, `dsn` stays set and the program goes on to
   * dbLock, with whatever connection was opened last (nil if none).
   */
  lemma LastCandidateWithoutPassword(env: Env, files: seq<string>)
    requires files != [] && AttemptOf(env, files[|files| - 1]).NoAuth?
    requires forall i :: 0 <= i < |files| ==> !AttemptOf(env, files[i]).Connected?
    ensures FinalDsn(env, files[..Tried(env, files)]) != ""
    ensures LastOpened(env, files[..Tried(env, files)]) == LastOpened(env, files[..|files| - 1])
  {
    AllReadWithoutConnection(env, files);
    var c := env.readCnf(files[|files| - 1]);
    assert ChooseDsn(c, env.socketExists) != "";
    assert files[..|files|] == files;
  }

  /** Without a candidate that reaches sql.Open, `db` stays nil. */
  lemma {:induction false} NothingOpened(env: Env, read: seq<string>)
    requires forall i :: 0 <= i < |read| ==> AttemptOf(env, read[i]).NoTarget? || AttemptOf(env, read[i]).NoAuth?
    ensures LastOpened(env, read) == None
    decreases |read|
  {
    if read != [] {
      var init := read[..|read| - 1];
      assert forall i :: 0 <= i < |init| ==> init[i] == read[i];
      NothingOpened(env, init);
    }
  }

  /** The connection `db` holds comes from the last sql.Open of the search, and no open means nil. */
  lemma {:induction false} LastOpenedIsLastOpen(env: Env, read: seq<string>)
    ensures OpensOf(env, read) == [] ==> LastOpened(env, read) == None
    ensures LastOpened(env, read).Some? ==>
      OpensOf(env, read) != [] && OpensOf(env, read)[|OpensOf(env, read)| - 1] == LastOpened(env, read).value
    decreases |read|
  {
    if read != [] {
      LastOpenedIsLastOpen(env, read[..|read| - 1]);
    }
  }

  /** Every DSN the search opens belongs to a candidate it read, so it opens at most one per candidate. */
  lemma {:induction false} OpensPerCandidate(env: Env, read: seq<string>)
    ensures |OpensOf(env, read)| <= |read|
    decreases |read|
  {
    if read != [] {
      OpensPerCandidate(env, read[..|read| - 1]);
    }
  }
}
