/**
 * The hold loop of main.go:270-284: once a second, ping the server; a failed ping, or the
 * signal handler of main.go:187-195, sets `canExit`, and the loop stops at the first check
 * that sees it set, or after `timeout` passes. Time is not modelled: passes are counted.
 */
module Hold {
  import opened Database

  /**
   * Whether the check of pass `k` sees `canExit` set by this pass: its ping (the connection's
   * exchange number `base + k`) failed, or the signal handler's write is visible by then.
   * `signalled` is the visibility of that write at each check.
   */
  predicate ExitsAt(pingFails: nat -> bool, base: nat, signalled: nat -> bool, k: nat) {
    pingFails(base + k) || signalled(k)
  }

  /** How many passes run, counting from pass `k` on. */
  function HoldFrom(pingFails: nat -> bool, base: nat, signalled: nat -> bool, timeout: int, k: nat): (n: nat)
    ensures n >= k && (k < timeout ==> n > k)
    decreases timeout - k
  {
    if k >= timeout then k
    else if ExitsAt(pingFails, base, signalled, k) then k + 1
    else HoldFrom(pingFails, base, signalled, timeout, k + 1)
  }

  /** How many passes the hold loop runs. */
  function HoldLength(pingFails: nat -> bool, base: nat, signalled: nat -> bool, timeout: int): nat {
    HoldFrom(pingFails, base, signalled, timeout, 0)
  }

  /**
   * main.go:270-284. The signal handler (main.go:194) may set `canExit` before the loop starts;
   * here the method's own flag starts false and such an early write is what `signalled(0)` reports.
   */
  method Hold(db: Conn, timeout: int, signalled: nat -> bool) returns (passes: nat, canExit: bool)
    modifies db`trace
    ensures passes == HoldLength(db.pingFails, |old(db.trace)|, signalled, timeout)
    ensures db.trace == old(db.trace) + Pings(passes)
    ensures canExit <==> passes > 0 && ExitsAt(db.pingFails, |old(db.trace)|, signalled, passes - 1)
  {
    ghost var start := db.trace;
    ghost var base := |start|;
    canExit := false;
    passes := 0;
    var i := 0;
    while i < timeout
      invariant 0 <= i && (i == 0 || i <= timeout)
      invariant db.trace == start + Pings(i) && passes == i
      invariant HoldFrom(db.pingFails, base, signalled, timeout, i) == HoldLength(db.pingFails, base, signalled, timeout)
      invariant !canExit && (i > 0 ==> !ExitsAt(db.pingFails, base, signalled, i - 1))
    {
      var failed := db.Ping();
      assert Pings(i + 1) == Pings(i) + [Pinged];
      passes := passes + 1;
      if failed {
        canExit := true;
      }
      if signalled(i) {
        canExit := true;
      }
      if canExit {
        break;
      }
      i := i + 1;
    }
  }

  /** The loop runs at most `max(timeout, 0)` passes. */
  lemma {:induction false} HoldFromBounded(pingFails: nat -> bool, base: nat, signalled: nat -> bool, timeout: int, k: nat)
    ensures HoldFrom(pingFails, base, signalled, timeout, k) <= if k >= timeout then k else timeout
    decreases timeout - k
  {
    if k < timeout && !ExitsAt(pingFails, base, signalled, k) {
      HoldFromBounded(pingFails, base, signalled, timeout, k + 1);
    }
  }

  lemma HoldBounded(pingFails: nat -> bool, base: nat, signalled: nat -> bool, timeout: int)
    ensures HoldLength(pingFails, base, signalled, timeout) <= if timeout <= 0 then 0 else timeout
  {
    HoldFromBounded(pingFails, base, signalled, timeout, 0);
  }

  /** The first pass pings before looking at `canExit`: with a timeout of 1 or more, at least one ping. */
  lemma AtLeastOnePing(pingFails: nat -> bool, base: nat, signalled: nat -> bool, timeout: int)
    requires timeout >= 1
    ensures HoldLength(pingFails, base, signalled, timeout) >= 1
  {
  }

  /** The loop keeps going while no check sees `canExit`: every pass before the last one saw it clear. */
  lemma {:induction false} HoldFromNoEarlyExit(pingFails: nat -> bool, base: nat, signalled: nat -> bool, timeout: int, k: nat, j: nat)
    requires k <= j && j + 1 < HoldFrom(pingFails, base, signalled, timeout, k)
    ensures !ExitsAt(pingFails, base, signalled, j)
    decreases timeout - k
  {
    if k < timeout && !ExitsAt(pingFails, base, signalled, k) && k < j {
      HoldFromNoEarlyExit(pingFails, base, signalled, timeout, k + 1, j);
    }
  }

  /** Without failed pings or a signal, the loop runs `timeout` passes. */
  lemma {:induction false} HoldFromTimeout(pingFails: nat -> bool, base: nat, signalled: nat -> bool, timeout: int, k: nat)
    requires forall j :: k <= j < timeout ==> !ExitsAt(pingFails, base, signalled, j)
    ensures HoldFrom(pingFails, base, signalled, timeout, k) == if k >= timeout then k else timeout
    decreases timeout - k
  {
    if k < timeout {
      HoldFromTimeout(pingFails, base, signalled, timeout, k + 1);
    }
  }

  /** A check that sees `canExit` set ends the loop at that pass, or earlier. */
  lemma {:induction false} HoldFromExits(pingFails: nat -> bool, base: nat, signalled: nat -> bool, timeout: int, k: nat, j: nat)
    requires k <= j < timeout && ExitsAt(pingFails, base, signalled, j)
    ensures HoldFrom(pingFails, base, signalled, timeout, k) <= j + 1
    decreases j - k
  {
    if !ExitsAt(pingFails, base, signalled, k) {
      HoldFromExits(pingFails, base, signalled, timeout, k + 1, j);
    }
  }

  /** A loop that stops before its timeout stops at a check that saw `canExit`. */
  lemma {:induction false} HoldFromStops(pingFails: nat -> bool, base: nat, signalled: nat -> bool, timeout: int, k: nat)
    requires k < timeout && HoldFrom(pingFails, base, signalled, timeout, k) < timeout
    ensures ExitsAt(pingFails, base, signalled, HoldFrom(pingFails, base, signalled, timeout, k) - 1)
    decreases timeout - k
  {
    if !ExitsAt(pingFails, base, signalled, k) {
      HoldFromStops(pingFails, base, signalled, timeout, k + 1);
    }
  }

  /**
   * The number of passes, characterised: the loop stops after pass `n` exactly when no
   * earlier check saw `canExit`, and pass `n` either saw it or was the last one allowed.
   */
  lemma HoldLengthExactly(pingFails: nat -> bool, base: nat, signalled: nat -> bool, timeout: int, n: nat)
    ensures HoldLength(pingFails, base, signalled, timeout) == n <==>
      (forall j :: 0 <= j < n - 1 ==> !ExitsAt(pingFails, base, signalled, j)) &&
      (if timeout <= 0 then n == 0
       else 1 <= n <= timeout && (n == timeout || ExitsAt(pingFails, base, signalled, n - 1)))
  {
    var h := HoldLength(pingFails, base, signalled, timeout);
    HoldBounded(pingFails, base, signalled, timeout);
    forall j | 0 <= j < h - 1
      ensures !ExitsAt(pingFails, base, signalled, j)
    {
      HoldFromNoEarlyExit(pingFails, base, signalled, timeout, 0, j);
    }
    if 0 < timeout && h < timeout {
      HoldFromStops(pingFails, base, signalled, timeout, 0);
    }
    if n != h && (forall j :: 0 <= j < n - 1 ==> !ExitsAt(pingFails, base, signalled, j)) && 1 <= n <= timeout {
      if n < h {
        assert !ExitsAt(pingFails, base, signalled, n - 1);
      }
    }
  }

  /** A signal visible at the check of pass `k` ends the loop by then. */
  lemma SignalEndsHold(pingFails: nat -> bool, base: nat, signalled: nat -> bool, timeout: int, k: nat)
    requires signalled(k) && k < timeout
    ensures HoldLength(pingFails, base, signalled, timeout) <= k + 1
  {
    HoldFromExits(pingFails, base, signalled, timeout, 0, k);
  }
}
