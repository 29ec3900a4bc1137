/**
 * The part of `database/sql` the program uses, as a fake connection that records what it
 * exchanges with the server, in order: `db.Query` records the command it is given, `db.Ping`
 * records a ping, and each reports failure from an oracle indexed by the position of the
 * exchange. What the server does with a command is not modelled.
 */
module Database {
  import opened Bytes

  /** One exchange with the server. */
  datatype Event = Cmd(q: string) | Pinged

  /** The events of sending `qs`, in order. */
  function Cmds(qs: seq<string>): seq<Event> {
    seq(|qs|, i requires 0 <= i < |qs| => Cmd(qs[i]))
  }

  /** Sending `a` and then `b` is sending `a + b`. */
  lemma CmdsAppend(a: seq<string>, b: seq<string>)
    ensures Cmds(a + b) == Cmds(a) + Cmds(b)
  {
  }

  lemma CmdsSingle(q: string)
    ensures Cmds([q]) == [Cmd(q)]
  {
  }

  /** The events of `n` pings. */
  function Pings(n: nat): seq<Event> {
    seq(n, _ => Pinged)
  }

  class Conn {
    /** The data source name the connection was opened with. */
    const dsn: string
    /** Whether a command sent as exchange number k fails. */
    const queryFails: nat -> bool
    /** Whether a ping sent as exchange number k fails. */
    const pingFails: nat -> bool
    /** What dbGetVersion (main.go:98-123) reads from this server; "" when its query fails. */
    const serverVersion: seq<byte>

    /** Every exchange so far, in order. */
    var trace: seq<Event>

    /** sql.Open with a DSN it accepts: nothing has been sent yet. */
    constructor (dsn: string, queryFails: nat -> bool, pingFails: nat -> bool, serverVersion: seq<byte>)
      ensures this.dsn == dsn && this.queryFails == queryFails && this.pingFails == pingFails
      ensures this.serverVersion == serverVersion
      ensures trace == []
    {
      this.dsn := dsn;
      this.queryFails := queryFails;
      this.pingFails := pingFails;
      this.serverVersion := serverVersion;
      trace := [];
    }

    /** `db.Query(q)`: the command is sent whether or not it then fails. */
    method Query(q: string) returns (failed: bool)
      modifies this`trace
      ensures trace == old(trace) + [Cmd(q)]
      ensures failed == queryFails(|old(trace)|)
    {
      failed := queryFails(|trace|);
      trace := trace + [Cmd(q)];
    }

    /** `db.Ping()`. */
    method Ping() returns (failed: bool)
      modifies this`trace
      ensures trace == old(trace) + [Pinged]
      ensures failed == pingFails(|old(trace)|)
    {
      failed := pingFails(|trace|);
      trace := trace + [Pinged];
    }
  }
}
