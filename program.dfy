/**
 * main (main.go:165-291) from the option files on: find credentials, stop with status 1 when
 * there are none, otherwise lock, hold, unlock, in that order and once each.
 */
module Program {
  import opened Bytes
  import opened Database
  import opened Resolver
  import opened Sequencer
  import opened Hold

  /** How a run ends. */
  datatype Outcome =
    | NoCredentials                                  // os.Exit(1) at main.go:260-265
    | NilConnection                                  // `dsn` set but `db` nil: dbLock dereferences nil
    | Released(trace: seq<Event>, passes: nat)       // every exchange with the server, and the hold passes run

  /**
   * The exchanges of a run that gets a connection `d` to a server reporting `version`: the
   * ping that validated the credentials, the lock commands, the hold loop's `passes` pings,
   * the unlock commands.
   */
  function ReleasedTrace(version: seq<byte>, passes: nat): seq<Event> {
    [Pinged] + Cmds(LockCommands(version)) + Pings(passes) + Cmds(QUnlock)
  }

  /** What a run does, stated on the specification functions of the other modules. */
  function Expected(env: Env, args: seq<string>, timeout: int, signalled: nat -> bool): Outcome {
    var files := DefaultCnfFiles + args;
    var read := files[..Tried(env, files)];
    if FinalDsn(env, read) == "" then NoCredentials
    else match LastOpened(env, read)
      case None => NilConnection
      case Some(d) =>
        var passes := HoldLength(env.pingFails(d), 1 + |LockCommands(env.version(d))|, signalled, timeout);
        Released(ReleasedTrace(env.version(d), passes), passes)
  }

  /**
   * main.go:177-182 and 206-286: `timeout` is the -timeout flag, `args` the positional
   * arguments, `signalled` when the signal handler's write becomes visible to the hold loop.
   */
  method Run(env: Env, args: seq<string>, timeout: int, signalled: nat -> bool) returns (out: Outcome)
    ensures out == Expected(env, args, timeout, signalled)
  {
    var files := CandidateFiles(args);
    var w := new World(env);
    var dsn, db := Resolve(w, files);
    ghost var read := w.readFiles;
    if dsn == "" {
      return NoCredentials;
    }
    if db == null {
      return NilConnection;
    }
    var passes := LockHoldUnlock(db, timeout, signalled);
    out := Released(db.trace, passes);
    ReleasedExpected(env, args, timeout, signalled, read, db.dsn, out);
  }

  /**
   * main.go:267-286, on the connection the search validated with one ping: lock, hold the
   * lock while the hold loop runs, unlock.
   */
  method LockHoldUnlock(db: Conn, timeout: int, signalled: nat -> bool) returns (passes: nat)
    requires db.trace == [Pinged]
    modifies db`trace
    ensures passes == HoldLength(db.pingFails, 1 + |LockCommands(db.serverVersion)|, signalled, timeout)
    ensures db.trace == ReleasedTrace(db.serverVersion, passes)
  {
    DbLock(db);
    var canExit;
    passes, canExit := Hold.Hold(db, timeout, signalled);
    DbUnlock(db);
  }

  lemma ReleasedExpected(env: Env, args: seq<string>, timeout: int, signalled: nat -> bool,
                         read: seq<string>, d: string, out: Outcome)
    requires read == (DefaultCnfFiles + args)[..Tried(env, DefaultCnfFiles + args)]
    requires FinalDsn(env, read) != "" && LastOpened(env, read) == Some(d)
    requires var passes := HoldLength(env.pingFails(d), 1 + |LockCommands(env.version(d))|, signalled, timeout);
      out == Released(ReleasedTrace(env.version(d), passes), passes)
    ensures out == Expected(env, args, timeout, signalled)
  {
  }

  /** Where each part of a released trace sits, for any list of lock commands. */
  lemma {:induction false} TraceLayout(lock: seq<string>, passes: nat, unlock: seq<string>)
    ensures var t := [Pinged] + Cmds(lock) + Pings(passes) + Cmds(unlock);
      var on := |lock|;
      t[0] == Pinged && t[1..on + 1] == Cmds(lock) &&
      (forall i :: on < i < on + 1 + passes ==> t[i] == Pinged) &&
      t[on + 1 + passes..] == Cmds(unlock)
  {
    var t := [Pinged] + Cmds(lock) + Pings(passes) + Cmds(unlock);
    var on := |lock|;
    assert t[1..on + 1] == Cmds(lock);
    assert t[on + 1 + passes..] == Cmds(unlock);
    forall i | on < i < on + 1 + passes
      ensures t[i] == Pinged
    {
      assert t[i] == Pings(passes)[i - on - 1];
    }
  }

  /** The layout of a trace whose lock commands end by turning read_only on. */
  lemma ReadOnlyLayout(lock: seq<string>, passes: nat)
    requires |lock| >= 3 && lock[|lock| - 1] == "SET GLOBAL read_only = ON;"
    ensures var t := [Pinged] + Cmds(lock) + Pings(passes) + Cmds(QUnlock);
      var on := |lock|;
      var off := |t| - 2;
      t[0] == Pinged &&
      t[1..on + 1] == Cmds(lock) &&
      (forall i :: 0 < i <= on ==> t[i].Cmd?) &&
      t[on] == Cmd("SET GLOBAL read_only = ON;") &&
      off - on - 1 == passes &&
      (forall i :: on < i < off ==> t[i] == Pinged) &&
      t[off..] == [Cmd("SET GLOBAL read_only = OFF;"), Cmd("UNLOCK TABLES;")]
  {
    TraceLayout(lock, passes, QUnlock);
    var t := [Pinged] + Cmds(lock) + Pings(passes) + Cmds(QUnlock);
    forall i | 0 < i <= |lock|
      ensures t[i] == Cmd(lock[i - 1])
    {
      assert t[i] == t[1..|lock| + 1][i - 1];
    }
  }

  /** dbLock's commands end by turning read_only on. */
  lemma LockEndsReadOnly(version: seq<byte>)
    ensures var lock := LockCommands(version);
      |lock| >= 3 && lock[|lock| - 1] == "SET GLOBAL read_only = ON;"
  {
    var lock := LockCommands(version);
    LockCommandsShape(version);
    assert lock[|lock| - 1] == lock[|lock| - 3..][2];
  }

  /**
   * The server is held read-only while the program waits: the first exchange is the ping
   * that validated the credentials, then come the lock commands, the last of which turns
   * read_only on; after it come only the hold loop's pings, `passes` of them, then read_only
   * is turned off and the tables unlocked.
   */
  lemma HeldBetweenLockAndUnlock(version: seq<byte>, passes: nat)
    ensures var t := ReleasedTrace(version, passes);
      var on := |LockCommands(version)|;
      var off := |t| - 2;
      t[0] == Pinged &&
      t[1..on + 1] == Cmds(LockCommands(version)) &&
      (forall i :: 0 < i <= on ==> t[i].Cmd?) &&
      t[on] == Cmd("SET GLOBAL read_only = ON;") &&
      off - on - 1 == passes &&
      (forall i :: on < i < off ==> t[i] == Pinged) &&
      t[off..] == [Cmd("SET GLOBAL read_only = OFF;"), Cmd("UNLOCK TABLES;")]
  {
    LockEndsReadOnly(version);
    ReadOnlyLayout(LockCommands(version), passes);
  }

  /**
   * main.go:267-286: in a released run, read_only is turned on by the last lock command, then
   * the hold loop only pings, then read_only is turned off and the tables unlocked; the hold
   * loop runs at most `max(timeout, 0)` passes and at least one when `timeout >= 1`.
   */
  lemma LockThenUnlock(env: Env, args: seq<string>, timeout: int, signalled: nat -> bool,
                       trace: seq<Event>, passes: nat)
    requires Expected(env, args, timeout, signalled) == Released(trace, passes)
    ensures var on := |trace| - 3 - passes;
      on >= 3 && trace[0] == Pinged &&
      (forall i :: 0 < i <= on ==> trace[i].Cmd?) &&
      trace[on] == Cmd("SET GLOBAL read_only = ON;") &&
      (forall i :: on < i < |trace| - 2 ==> trace[i] == Pinged) &&
      trace[|trace| - 2..] == [Cmd("SET GLOBAL read_only = OFF;"), Cmd("UNLOCK TABLES;")] &&
      passes <= (if timeout <= 0 then 0 else timeout) &&
      (timeout >= 1 ==> passes >= 1)
  {
    var version := ReleasedRun(env, args, timeout, signalled, trace, passes);
    LockEndsReadOnly(version);
    HeldBetweenLockAndUnlock(version, passes);
  }

  /** A released run's trace is `ReleasedTrace` of its server's version, with a bounded pass count. */
  lemma ReleasedRun(env: Env, args: seq<string>, timeout: int, signalled: nat -> bool,
                    trace: seq<Event>, passes: nat) returns (version: seq<byte>)
    requires Expected(env, args, timeout, signalled) == Released(trace, passes)
    ensures trace == ReleasedTrace(version, passes)
    ensures passes <= (if timeout <= 0 then 0 else timeout) && (timeout >= 1 ==> passes >= 1)
  {
    var files := DefaultCnfFiles + args;
    var d := LastOpened(env, files[..Tried(env, files)]).value;
    version := env.version(d);
    HoldBounded(env.pingFails(d), 1 + |LockCommands(version)|, signalled, timeout);
  }

  /** Status 1 exactly when nothing connects and the last candidate is not missing only its password. */
  lemma ExitsWithoutCredentials(env: Env, args: seq<string>, timeout: int, signalled: nat -> bool)
    ensures var files := DefaultCnfFiles + args;
      Expected(env, args, timeout, signalled).NoCredentials? <==>
        (forall i :: 0 <= i < |files| ==> !AttemptOf(env, files[i]).Connected?) &&
        !AttemptOf(env, files[|files| - 1]).NoAuth?
  {
    NoCredentialsExactly(env, DefaultCnfFiles + args);
  }

  /**
   * When no candidate reaches sql.Open and the last one has a socket or host but no user or
   * password, the exit check lets the run through with a nil connection.
   */
  lemma PasswordlessLastCandidateCrashes(env: Env, args: seq<string>, timeout: int, signalled: nat -> bool)
    requires var files := DefaultCnfFiles + args;
      (forall i :: 0 <= i < |files| ==> AttemptOf(env, files[i]).NoTarget? || AttemptOf(env, files[i]).NoAuth?) &&
      AttemptOf(env, files[|files| - 1]).NoAuth?
    ensures Expected(env, args, timeout, signalled) == NilConnection
  {
    var files := DefaultCnfFiles + args;
    LastCandidateWithoutPassword(env, files);
    AllReadWithoutConnection(env, files);
    assert files[..|files|] == files;
    NothingOpened(env, files);
  }
}
