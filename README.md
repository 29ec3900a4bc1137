# golang-mysql-readonly-lock, modelled in Dafny

The program puts a MySQL server into a read-only state for a while and then takes it out again.
It works through the option files `~/.my.cnf`, `/etc/mysql/root.cnf`, `/etc/mysql/debian.cnf` and any
files named on the command line until one gives credentials that connect. Then it flushes and locks
the tables and sets `read_only`; `FLUSH ENGINE LOGS` is sent first when the server is newer than
5.5.0. It pings the server once a second until a timeout, a signal or a failed ping, and finally
undoes the lock. All of it lives in `main.go`.

The model has one module per part of that program:

- `Bytes` (bytes.dfy): Go strings as byte sequences and Go's string comparison (`LexLess`, `Greater`).
- `Ordinals` (ordinal.dfy): `VersionOrdinal`. The method keeps the source's loop, which grows `vo`
  and bumps the length byte `vo[j]` in place. It is proved equal to a declarative encoding,
  `Ordinal`. That encoding splits the input into pieces (one per non-digit byte, one per maximal
  digit run) and writes each run as a length byte followed by its digits, leading zeros dropped.
- `VersionOrder` (version_order.dfy): why dbLock may compare encodings as strings. For dotted
  numeric versions, the byte order of the encodings is the component-wise numeric order.
- `Database` (database.dfy): a fake `*sql.DB` connection. It records every exchange with the server
  in order, a command sent through `Query` or a ping, and takes its failures from oracles.
- `Sequencer` (sequencer.dfy): `dbLock` and `dbUnlock`.
- `Resolver` (resolver.dfy): the candidate list and the credential search loop of `main`.
- `Hold` (hold.dfy): the hold loop of `main`.
- `Program` (program.dfy): `main` from the option files on: search, the exit-1 check, then lock,
  hold and unlock. The trace of a released run shows the order: the validating ping, the lock
  commands ending with `read_only = ON`, only pings while the lock is held, then the unlock commands.

Where what the code evidently means and what it does differ, the model follows what it does:

- **The 255-digit limit.** The guard `vo[j]+1 > maxByte` (main.go:47) and its panic message
  "VersionOrdinal: invalid version" (main.go:48) show that a digit run longer than 255 digits was
  meant to abort VersionOrdinal. The guard is computed in Go `byte` arithmetic, so it never fires.
  The length byte wraps instead: a run of 256 significant digits gets length byte 0. The model
  keeps the wrap (`Inc`, `Wrap`) and writes the dead panic branch as `assert false`. It adds no
  precondition. `LongRunOrdersBelowOne` shows the effect: 256 nines order below "1". The ordering
  theorem assumes components of at most 255 digits.
- **The exit-1 check.** The message "No active auth credentials available!" (main.go:262) shows
  that status 1 was meant for "no option file gave working credentials". The code tests
  `dsn == ""` (main.go:260). A candidate that has a socket or host but no user or password
  `continue`s without clearing `dsn` (main.go:227-231). So when the last candidate is of that kind,
  the program goes on.
  - It goes on with whatever the last `sql.Open` (main.go:234) returned. That is the connection
    whose ping failed, when the last candidate that reached `sql.Open` was opened.
  - It is nil when that `sql.Open` failed, or when no candidate reached `sql.Open`. dbLock then
    dereferences nil. The model names that outcome `NilConnection` (`Resolver.LastOpened`).

## Model

| member | source | states |
|---|---|---|
| Bytes.LexLessCommonPrefix | main.go:128 | a common prefix does not change Go's string order |
| Bytes.LexLessFirstDifference | main.go:128 | once two equally long prefixes differ, what follows them does not affect the order |
| Bytes.LexLessSnoc | main.go:128 | how appending one byte to each of two equally long strings changes their order |
| Ordinals.Ordinal | main.go:27-54 | the specification of VersionOrdinal: the pieces of the version, each encoded; `VersionOrdinal` is proved to return it |
| Ordinals.Pieces | main.go:32-52 | the decomposition of a version string into pieces is empty exactly for the empty string |
| Ordinals.PiecesDecompose | main.go:32-52 | the pieces concatenate back to the input, every separator is a non-digit, every run is a non-empty maximal digit run, and the input ends in a run exactly when its last byte is a digit |
| Ordinals.PiecesSplit | main.go:35-38 | a non-digit byte divides the decomposition: the pieces of `x + [b] + y` are those of `x`, then `b`, then those of `y` |
| Ordinals.Significant | main.go:43-45 | dropping leading zeros never lengthens a run, keeps at least one digit, and leaves no leading zero in front of a longer run |
| Ordinals.SignificantDropsZeros | main.go:43-45 | the significant digits are a suffix of the run, and every dropped byte is a '0' |
| Ordinals.SignificantSnoc | main.go:43-51 | a digit after a run that is just "0" replaces it; any other digit is appended |
| Ordinals.IncIsModular | main.go:51 | the length byte increment is Go byte addition, modulo 256 |
| Ordinals.WrapIsModular | main.go:39-51 | the length byte of a run of n significant digits is n modulo 256 |
| Ordinals.WrapSucc | main.go:51 | counting digits in byte arithmetic agrees with incrementing the byte one digit at a time |
| Ordinals.LengthByteCounts | main.go:39-51 | for at most 255 digits, the length byte is the number of digits |
| Ordinals.OrdinalSplit | main.go:35-38 | a non-digit byte is copied unchanged and closes the run before it: the encoding of `x + [b] + y` is enc(x), then b, then enc(y) |
| Ordinals.OrdinalOfRun | main.go:39-51 | a maximal digit run is encoded as its length byte followed by its significant digits |
| Ordinals.RunLengthCounts | main.go:39-51 | the length byte of a run equals the number of digits emitted, for at most 255 of them |
| Ordinals.LeadingZeroCollapses | main.go:43-45 | a leading zero is dropped: "05" encodes as "5", "00" as "0" |
| Ordinals.SignificantOfZeros | main.go:43-45 | a run of zeros keeps a single zero |
| Ordinals.ZerosCollapse | main.go:43-45 | a run of zeros of any length encodes as length 1 followed by '0' |
| Ordinals.LongRunOrdersBelowOne | main.go:47-51 | the unchecked wrap: 256 nines get length byte 0 and order below "1" |
| Ordinals.OrdinalSnocSep | main.go:35-38 | one more non-digit byte: appended, and no run is open |
| Ordinals.OrdinalSnocNewRun | main.go:39-51 | a digit after a non-digit opens a run: length byte 0 pushed, digit appended, byte incremented to 1 |
| Ordinals.OrdinalSnocLoneZero | main.go:43-45 | a digit after a lone "0" overwrites that zero; the length byte stays 1 |
| Ordinals.OrdinalSnocGrow | main.go:50-51 | any other digit is appended and the open run's length byte incremented in byte arithmetic |
| Ordinals.OpenRunInRange | main.go:39-43 | while a run is open, `j` and `j+1` index into `vo` |
| Ordinals.EncodeByte | main.go:32-52 | one pass of the loop body turns the encoding of a prefix into that of the prefix plus one byte, and tracks the open run |
| Ordinals.VersionOrdinal | main.go:27-54 | the loop returns exactly the declarative encoding `Ordinal(version)`, for every input |
| VersionOrder.Digits | main.go:127 | decimal digits of a number: at least one, all digits, one digit exactly below 10, a leading '0' only for 0 |
| VersionOrder.ValueOfDigits | main.go:127 | reading the decimal digits of `n` back gives `n` |
| VersionOrder.DigitsInjective | main.go:127 | different numbers have different decimal representations |
| VersionOrder.DigitsBounds | main.go:127 | a k-digit number lies below 10^k, and at or above 10^(k-1) when k > 1 |
| VersionOrder.ShorterIsSmaller | main.go:127 | a number with fewer digits is smaller |
| VersionOrder.DigitsOrder | main.go:128 | for equal widths, byte order of the digits is numeric order |
| VersionOrder.Render | main.go:127 | the rendered version is empty exactly when it has no components |
| VersionOrder.OrdinalOfDigits | main.go:39-51 | a component of at most 255 digits is encoded as its digit count followed by its digits |
| VersionOrder.WidthsDecide | main.go:39-51 | components of different widths are ordered by their length bytes, which is their numeric order |
| VersionOrder.DigitsDecide | main.go:128 | different components of the same width are ordered by their digits, which is their numeric order |
| VersionOrder.HeadsDecide | main.go:128 | two different first components decide the order whatever follows them |
| VersionOrder.OrdinalHeadTail | main.go:35-51 | the encoding of a version is the code of its first component followed by the dot and the encoding of the rest |
| VersionOrder.OrdinalOrdersVersions | main.go:27-128 | for components of at most 255 digits: encodings compare as strings exactly as the versions compare component by component, numerically, with a proper prefix smaller |
| VersionOrder.TailsOrder | main.go:127-128 | with equal first components, the rest decides the order |
| VersionOrder.LongerComponentWins | main.go:127-128 | a component with more digits always beats one with fewer |
| VersionOrder.RenderExamples | main.go:127 | [5,10,1] renders as "5.10.1" and [5,5,0] as "5.5.0" |
| VersionOrder.MinimumVersion | main.go:127 | 5.5.0 is a version the ordering theorem covers, and renders as the string dbLock compares against |
| VersionOrder.NewerThanMinimum | main.go:127-128 | VersionOrdinal("5.10.1") > VersionOrdinal("5.5.0"), although "5.10.1" < "5.5.0" as plain strings |
| Database.Conn.constructor | main.go:234 | a freshly opened connection has exchanged nothing with the server |
| Database.Conn.Query | main.go:141-146 | the command is sent, and recorded at the end of the trace, whether or not it fails; the failure is the oracle at that position |
| Database.Conn.Ping | main.go:273-279 | a ping is recorded at the end of the trace, and fails as the oracle says for that position |
| Sequencer.LockCommands | main.go:125-147 | the specification of what dbLock sends: FLUSH ENGINE LOGS when the version is newer than 5.5.0, then qLock |
| Sequencer.SendAll | main.go:136-147 | the trace grows by exactly the commands of the list, in order, whatever became of the earlier ones |
| Sequencer.NeedsFlush | main.go:126-128 | the version check decides the flush exactly as `FlushesEngineLogs` of the server version |
| Sequencer.DbLock | main.go:125-148 | the trace grows by exactly FLUSH ENGINE LOGS (when the server is newer than 5.5.0) followed by the three commands of qLock, whatever their outcomes |
| Sequencer.DbUnlock | main.go:150-163 | the trace grows by exactly `read_only = OFF` then `UNLOCK TABLES`, whatever their outcomes |
| Sequencer.LockCommandsShape | main.go:125-147 | FLUSH ENGINE LOGS leads exactly when the version is newer than 5.5.0, and the lock commands always end with the three qLock commands |
| Sequencer.NoFlushForEmptyVersion | main.go:105-128 | the empty version (what dbGetVersion returns when its query fails) gets no FLUSH ENGINE LOGS |
| Sequencer.FlushForNewerVersions | main.go:127-128 | for dotted numeric versions, the flush is sent exactly when the version is above 5.5.0 component-wise |
| Resolver.CandidateFiles | main.go:177-182 | the candidate list is the three defaults followed by the positional arguments, in order |
| Resolver.ChooseDsn | main.go:209-220 | an existing socket gives the unix DSN even if a host is set; otherwise a host gives the tcp DSN; otherwise there is no DSN |
| Resolver.AttemptOf | main.go:207-256 | the specification of one pass over a candidate: no target, no user or password, failed open, failed ping or connected, decided in the order the loop body tests them |
| Resolver.Tried | main.go:206-258 | the search never reads more candidates than there are |
| Resolver.FinalDsn | main.go:209-256 | the specification of `dsn` after the loop: what the last candidate read left in it |
| Resolver.LastOpened | main.go:234-256 | the specification of `db` after the loop: the result of the last `sql.Open`, nil when that open failed or none happened |
| Resolver.OpensOf | main.go:207-256 | the specification of the DSNs handed to `sql.Open` while a list of candidates is read: one per candidate that has a target and a user and password, in order |
| Resolver.SearchSnoc | main.go:207-256 | one more candidate read extends the DSNs opened by the one it opens, leaves `dsn` as its own attempt dictates, and replaces the held connection only when it reaches `sql.Open` |
| Resolver.FoundSnoc | main.go:207-256 | a pass that ends as its attempt says keeps the opened DSNs, `dsn` and `db` equal to their specifications for the candidates read so far |
| Resolver.World.constructor | main.go:203-206 | before the search nothing has been read or opened |
| Resolver.World.ReadCnf | main.go:208 | read_cnf returns the fields of the option file, and the file is recorded as read |
| Resolver.World.Open | main.go:234 | sql.Open records the DSN it is given; it returns nil exactly when it fails, and otherwise a new connection for that DSN that has sent nothing |
| Resolver.TryCandidate | main.go:207-256 | one pass over a candidate reads that file and nothing else, hands `sql.Open` its DSN exactly when it has a target and a user and password, and ends as its attempt says: the DSN left behind, the connection held afterwards (nil after a failed Open, a new pinged one after a successful Open), and whether the loop breaks |
| Resolver.Resolve | main.go:206-258 | the files read_cnf is called on are exactly the candidates up to the first that connects, the DSNs `sql.Open` is given are exactly those of these candidates that reach it, `dsn` is what the last one read dictates, and the connection held is the one opened last (nil if the last Open failed or none happened) |
| Resolver.FirstConnectionWins | main.go:256 | the first candidate that connects is the last one read, and its DSN is kept |
| Resolver.AllReadWithoutConnection | main.go:206-258 | when nothing connects, every candidate is read |
| Resolver.TriedEndsAtConnection | main.go:256 | a search that stops before the end of the list stopped at a candidate that connected |
| Resolver.ConnectionEndsSearch | main.go:256 | if some candidate connects, the search ends no later than it, at a candidate that connects |
| Resolver.NoCredentialsExactly | main.go:209-260 | `dsn` is empty after the loop exactly when no candidate connects and the last one is not a DSN without user or password |
| Resolver.LastCandidateWithoutPassword | main.go:227-260 | when nothing connects and the last candidate lacks a user or password, `dsn` stays set and the connection held is the one opened before it |
| Resolver.NothingOpened | main.go:221-232 | when no candidate reaches sql.Open, `db` stays nil |
| Resolver.LastOpenedIsLastOpen | main.go:234-256 | without any `sql.Open` the connection is nil, and a connection held after the search belongs to the last DSN opened |
| Resolver.OpensPerCandidate | main.go:207-256 | the search calls `sql.Open` at most once per candidate it reads |
| Hold.HoldLength | main.go:270-284 | the specification of how many passes the hold loop runs |
| Hold.HoldFrom | main.go:270-284 | from any pass on, the count never goes back, and runs one more pass while the timeout allows |
| Hold.Hold | main.go:270-284 | the loop runs `HoldLength` passes, the trace grows by exactly one ping per pass, and `canExit` is set exactly when the last check saw a failed ping or the signal |
| Hold.HoldBounded | main.go:270 | at most `max(timeout, 0)` passes |
| Hold.AtLeastOnePing | main.go:270-274 | with a timeout of 1 or more, at least one ping, even if `canExit` is already set |
| Hold.HoldFromNoEarlyExit | main.go:281-283 | every check before the last one saw `canExit` clear |
| Hold.HoldFromTimeout | main.go:270 | without a failed ping or a signal, the loop runs the full timeout |
| Hold.HoldFromExits | main.go:274-283 | a check that sees a failed ping or the signal ends the loop at that pass or earlier |
| Hold.HoldFromStops | main.go:281-283 | a loop that ends before its timeout ended at a check that saw `canExit` |
| Hold.HoldLengthExactly | main.go:270-284 | the number of passes is `n` exactly when no check before pass `n` saw `canExit`, and pass `n` either saw it or was the last the timeout allows |
| Hold.SignalEndsHold | main.go:270-283 | a signal visible at the check of pass k ends the loop by pass k |
| Program.Expected | main.go:177-286 | the specification of a run, built from the specifications of the search, dbLock, the hold loop and dbUnlock |
| Program.Run | main.go:177-286 | a run ends as `Expected` says: status 1 without a DSN, a nil-connection crash, or a trace of the validating ping, the lock commands, the hold pings and the unlock commands, in that order |
| Program.ReleasedExpected | main.go:267-286 | a released run's trace and pass count are those `Expected` gives |
| Program.LockHoldUnlock | main.go:267-286 | on a connection validated by one ping, the trace becomes the ping, the lock commands, `HoldLength` pings and the unlock commands, in that order |
| Program.HeldBetweenLockAndUnlock | main.go:267-286 | after the validating ping come the lock commands, the last of which sets `read_only = ON`, then only the hold pings, then `read_only = OFF` and `UNLOCK TABLES` |
| Program.ReleasedRun | main.go:267-286 | a released run's trace is the `ReleasedTrace` of its server version, and its pass count is bounded by the timeout |
| Program.LockThenUnlock | main.go:267-286 | in a released run the validating ping comes first, then only commands up to `read_only = ON`, then exactly `passes` pings and nothing else, then `read_only = OFF` and `UNLOCK TABLES`; the hold ran at most `max(timeout, 0)` passes and at least one when `timeout >= 1` |
| Program.ExitsWithoutCredentials | main.go:260-265 | status 1 exactly when nothing connects and the last candidate is not one without user or password |
| Program.PasswordlessLastCandidateCrashes | main.go:227-267 | when no candidate reaches sql.Open and the last lacks a user or password, the run goes on past the exit check with a nil connection |

## Left out

- read_cnf (main.go:56-96): the `os.Stat` check and the INI parsing are file I/O and a foreign library. They are the oracle `Env.readCnf`, which gives all empty fields for a missing or unparseable file; `World.ReadCnf` records each call.
- The `os.Stat` of the socket (main.go:212) is the oracle `Env.socketExists`.
- dbGetVersion (main.go:98-123): its `SELECT VERSION()` query and its row scanning are not modelled. The version it returns is the connection's `serverVersion`, "" when its query fails. That query is not in the recorded trace.
- dbGetVersion's scan and row errors (main.go:108-121) call `log_e.Fatal`, which ends the process, only when `-quiet` is not given; with `-quiet` the run goes on with whatever was scanned. Neither path is modelled: in the model dbGetVersion always returns.
- sql.Open, db.Ping and db.Query are `World.Open`, which records each DSN it is given, the fake connection of `Database`, and the oracles `openFails`, `pingFails` and `queryFails`. Opening the same DSN twice gives connections with the same failure oracles.
- `defer db.Close()` (main.go:243): closing connections is not modelled.
- Database.Conn: one `Conn` stands for a whole `*sql.DB`, which is a pool of server sessions. dbLock and dbUnlock (main.go:129, 141, 156) discard the `*Rows` that `db.Query` returns without closing them, so successive commands may run on different sessions. In particular, `UNLOCK TABLES` need not reach the session that holds `FLUSH TABLES WITH READ LOCK`. The model records the order in which commands are sent, not which session runs each one.
- The signal goroutine and `signal.Notify` (main.go:187-195) run concurrently. They are the oracle `signalled(k)`: whether the goroutine's write to `canExit` is visible at the check of pass `k`. The oracle is not required to be monotone. Instead the flag the loop reads is sticky within a run, and the loop stops at the first check that sees it.
- `time.Sleep` (main.go:271): the model counts passes instead of waiting.
- Flag parsing (main.go:167-175): the timeout and the positional arguments are parameters of `Program.Run`.
- The verbose and quiet printing and the error logging are not modelled. In the parts that are modelled they do not affect control flow; dbGetVersion's `log_e.Fatal`, above, is the exception. `os.Exit(1)` is the outcome `NoCredentials`.
- Program.Run: the nil dereference inside dbLock is reported as the outcome `NilConnection` rather than modelled as a Go panic.
