/**
 * dbLock and dbUnlock (main.go:125-163): fixed lists of commands sent one after the other; a
 * command that fails is reported and the next one is sent anyway.
 */
module Sequencer {
  import opened Bytes
  import opened Ordinals
  import opened Database
  import VersionOrder

  /** qLock (main.go:23). */
  const QLock: seq<string> := ["FLUSH LOGS;", "FLUSH TABLES WITH READ LOCK;", "SET GLOBAL read_only = ON;"]
  /** qUnlock (main.go:24). */
  const QUnlock: seq<string> := ["SET GLOBAL read_only = OFF;", "UNLOCK TABLES;"]

  const FlushEngineLogs: string := "FLUSH ENGINE LOGS;"
  /** Servers newer than 5.5.0, by the comparison of main.go:127-128, get FLUSH ENGINE LOGS. */
  predicate FlushesEngineLogs(version: seq<byte>) {
    Greater(Ordinal(version), Ordinal(VersionOrder.V550))
  }

  /** The commands dbLock sends to a server that reports `version`. */
  function LockCommands(version: seq<byte>): seq<string> {
    (if FlushesEngineLogs(version) then [FlushEngineLogs] else []) + QLock
  }

  /**
   * The `for _, q := range ...` loop of dbLock and dbUnlock (main.go:135-147, 151-162): every
   * command is sent, in order, whatever became of the ones before it.
   */
  method SendAll(db: Conn, commands: seq<string>)
    modifies db`trace
    ensures db.trace == old(db.trace) + Cmds(commands)
  {
    ghost var start := db.trace;
    for i := 0 to |commands|
      invariant db.trace == start + Cmds(commands[..i])
    {
      var _ := db.Query(commands[i]);
      assert Cmds(commands[..i + 1]) == Cmds(commands[..i]) + [Cmd(commands[i])];
    }
    assert commands[..|commands|] == commands;
  }

  /** The version check of dbLock (main.go:127-128). */
  method NeedsFlush(version: seq<byte>) returns (flush: bool)
    ensures flush == FlushesEngineLogs(version)
  {
    var my := VersionOrdinal(version);
    var need := VersionOrdinal(VersionOrder.V550);
    flush := Greater(my, need);
  }

  /** dbLock (main.go:125-148), after dbGetVersion has returned `db.serverVersion`. */
  method DbLock(db: Conn)
    modifies db`trace
    ensures db.trace == old(db.trace) + Cmds(LockCommands(db.serverVersion))
  {
    ghost var start := db.trace;
    var flush := NeedsFlush(db.serverVersion);
    ghost var first := if flush then [FlushEngineLogs] else [];
    if flush {
      var _ := db.Query(FlushEngineLogs);
      CmdsSingle(FlushEngineLogs);
    } else {
      assert Cmds(first) == [];
    }
    assert db.trace == start + Cmds(first);
    SendAll(db, QLock);
    CmdsAppend(first, QLock);
  }

  /** dbUnlock (main.go:150-163). */
  method DbUnlock(db: Conn)
    modifies db`trace
    ensures db.trace == old(db.trace) + Cmds(QUnlock)
  {
    SendAll(db, QUnlock);
  }

  /**
   * dbLock sends FLUSH ENGINE LOGS first exactly when the server is newer than 5.5.0, and then
   * the three commands of qLock, in order.
   */
  lemma LockCommandsShape(version: seq<byte>)
    ensures var cs := LockCommands(version);
      (FlushesEngineLogs(version) <==> |cs| == 4 && cs[0] == FlushEngineLogs) &&
      cs[|cs| - 3..] == ["FLUSH LOGS;", "FLUSH TABLES WITH READ LOCK;", "SET GLOBAL read_only = ON;"]
  {
  }

  /** dbGetVersion returns "" when its query fails, and then the flush is not sent. */
  lemma NoFlushForEmptyVersion()
    ensures LockCommands([]) == QLock
  {
    var need := Ordinal(VersionOrder.V550);
    assert Ordinal([]) == [];
    assert !LexLess(need, []);
  }

  /** For dotted numeric versions, the flush is sent exactly to versions above 5.5.0. */
  lemma FlushForNewerVersions(cs: seq<nat>)
    requires VersionOrder.Fits(cs)
    ensures FlushesEngineLogs(VersionOrder.Render(cs)) <==> VersionOrder.ComponentsLess([5, 5, 0], cs)
  {
    VersionOrder.MinimumVersion();
    VersionOrder.OrdinalOrdersVersions([5, 5, 0], cs);
  }
}
