/**
 Properties of the lock that relate several calls: round trips through
 acquire and release, what a refresh does to the old and new tickets, what
 a sequence of transitions by other parties can and cannot do to a live
 lease, and what the crash flag tells the next holder.
 */
module LockProperties {
  import opened Machine
  import opened TimestampLock
  import opened Blocking

  // ---------------------------------------------------------------------
  // Round trips
  // ---------------------------------------------------------------------

  /** Unlocking with the ticket a successful trylock handed out frees the
      word, provided nothing changed the word in between. */
  lemma AcquireThenUnlock(platform: Platform, now: u64, word: u64, timeoutSec: i32,
                          ticket: u64, crash: i32, wake: Wake)
    requires TryLock(now, word, word, timeoutSec, ticket, crash).code == Ok
    ensures var a := TryLock(now, word, word, timeoutSec, ticket, crash);
            var u := Unlock(platform, a.word, a.ticket, wake);
            u.word == 0 && u.code != TimedOut && (wake == Woke ==> u.code == Ok)
  {
  }

  /** The same round trip through the blocking loop: the ticket a pass of
      `Lock` hands out is the word that pass installed, so it unlocks. */
  lemma LockThenUnlock(platform: Platform, r: Round, timeoutSec: i32, ticket: u64, crash: i32, wake: Wake)
    requires LockStep(platform, r, timeoutSec, ticket, crash).Acquired?
    ensures var s := LockStep(platform, r, timeoutSec, ticket, crash);
            var t := TryLock(r.tryClock, r.seen, r.word, timeoutSec, ticket, crash);
            t.word == s.ticket && Unlock(platform, t.word, s.ticket, wake).word == 0
  {
  }

  /** A successful refresh replaces the ticket: the new one unlocks, and the
      old one now fails with ETIMEDOUT and leaves the word alone, unless the
      refresh happened to write the same value back. */
  lemma RefreshReplacesTicket(platform: Platform, now: u64, word: u64, ticket: u64,
                              postponeSec: i32, wake: Wake)
    requires Refresh(now, word, ticket, postponeSec).code == Ok
    ensures var p := Refresh(now, word, ticket, postponeSec);
            Unlock(platform, p.word, p.ticket, wake).word == 0 &&
            (ticket != p.ticket ==> Unlock(platform, p.word, ticket, wake) == Release(TimedOut, p.word))
  {
  }

  // ---------------------------------------------------------------------
  // What the code does not promise
  // ---------------------------------------------------------------------

  /** Refresh sets the expiry relative to the current time, not to the old
      expiry, so the new ticket can be smaller than the old one. */
  lemma RefreshCanMoveExpiryBack()
    ensures var p := Refresh(50, 100, 100, 10);
            p.code == Ok && p.ticket == 60 && p.ticket < 100
  {
  }

  /** Unlock and refresh never compare the word with the clock: a ticket
      whose lease has run out still works as long as nobody has taken the
      lock since. */
  lemma ExpiredTicketStillWorks(platform: Platform, now: u64, ticket: u64, postponeSec: i32, wake: Wake)
    requires 0 < ticket < now
    ensures Unlock(platform, ticket, ticket, wake).word == 0
    ensures Refresh(now, ticket, ticket, postponeSec).code == Ok
  {
  }

  /** A negative timeout reaching below zero wraps around: the installed
      lease then lies near the end of the 64-bit range and blocks everyone
      else practically for ever. */
  lemma NegativeTimeoutWraps(now: u64, seen: u64, timeoutSec: i32, ticket: u64, crash: i32)
    requires 0 < now && seen < now && now + timeoutSec < 0
    ensures var a := TryLock(now, seen, seen, timeoutSec, ticket, crash);
            a.code == Ok && a.word == a.ticket == now + timeoutSec + U64_LIMIT &&
            a.word >= U64_LIMIT - 0x8000_0000
  {
  }

  /** A timeout of exactly `-now` installs 0: trylock reports success and
      hands out ticket 0, while the word reads "unlocked" to everyone else. */
  lemma TimeoutCancellingNowLeavesWordFree(now: u64, seen: u64, timeoutSec: i32, ticket: u64, crash: i32)
    requires 0 < now && seen < now && now + timeoutSec == 0
    ensures var a := TryLock(now, seen, seen, timeoutSec, ticket, crash);
            a.code == Ok && a.word == 0 && a.ticket == 0 &&
            TryLock(now, a.word, a.word, timeoutSec, a.ticket, a.crash).code == Ok
  {
  }

  /** A lease whose expiry is the very second of the clock reading still
      counts as held: trylock takes over only words strictly before now. */
  lemma ExpiryIsInclusive(word: u64, timeoutSec: i32, ticket: u64, crash: i32)
    requires word != 0
    ensures TryLock(word, word, word, timeoutSec, ticket, crash).code == Again
    ensures word < U64_LIMIT - 1 ==> TryLock(word + 1, word, word, timeoutSec, ticket, crash).code == Ok
  {
  }

  // ---------------------------------------------------------------------
  // Crash detection
  // ---------------------------------------------------------------------

  /** A holder that never unlocks loses the lock once its expiry has passed,
      and the next acquirer is told that it crashed. */
  lemma ExpiredLeaseTakenWithCrash(now: u64, expiry: u64, timeoutSec: i32, ticket: u64, crash: i32)
    requires 0 < expiry < now
    ensures var a := TryLock(now, expiry, expiry, timeoutSec, ticket, crash);
            a.code == Ok && a.crash == 1 && a.word == AddInt(now, timeoutSec)
  {
  }

  /** One transition of the word, as a run without interference sees it. */
  datatype Op =
    | TryLockOp(now: u64, timeoutSec: i32)
    | UnlockOp(ticket: u64)
    | RefreshOp(now: u64, ticket: u64, postponeSec: i32)

  /** The word after `op`. The word an unlock leaves does not depend on the
      platform or on the wake call, so one of them stands for all. */
  function Apply(word: u64, op: Op): u64
  {
    match op
    case TryLockOp(now, t) => TryLock(now, word, word, t, 0, 0).word
    case UnlockOp(tk) => Unlock(Linux, word, tk, Woke).word
    case RefreshOp(now, tk, p) => Refresh(now, word, tk, p).word
  }

  /** The word after the transitions `ops`, in order. */
  function ApplyAll(word: u64, ops: seq<Op>): u64
  {
    if |ops| == 0 then word else Apply(ApplyAll(word, ops[..|ops| - 1]), ops[|ops| - 1])
  }

  /** An operation by someone who does not hold `ticket`, at a moment when
      the lease `ticket` has not run out. */
  predicate Foreign(op: Op, ticket: u64)
  {
    match op
    case TryLockOp(now, _) => now <= ticket
    case UnlockOp(tk) => tk != ticket
    case RefreshOp(_, tk, _) => tk != ticket
  }

  /** Mutual exclusion: while a lease is live, no transition by anyone
      without its ticket changes the word. */
  lemma {:induction false} ForeignOpsKeepLease(ticket: u64, ops: seq<Op>)
    requires forall i :: 0 <= i < |ops| ==> Foreign(ops[i], ticket)
    ensures ApplyAll(ticket, ops) == ticket
  {
    if |ops| > 0 {
      var prefix := ops[..|ops| - 1];
      forall i | 0 <= i < |prefix|
        ensures Foreign(prefix[i], ticket)
      {
        assert prefix[i] == ops[i];
      }
      ForeignOpsKeepLease(ticket, prefix);
      assert Foreign(ops[|ops| - 1], ticket);
    }
  }

  /** Timeouts and postpones that are positive and do not overflow. */
  predicate SaneDuration(op: Op)
  {
    match op
    case TryLockOp(now, t) => 0 < t && now + t < U64_LIMIT
    case UnlockOp(_) => true
    case RefreshOp(now, _, p) => 0 < p && now + p < U64_LIMIT
  }

  /** The last transition in `ops` that changed the word, if any. */
  datatype Writer = NoWriter | WrittenBy(op: Op)

  function LastWriter(word: u64, ops: seq<Op>): Writer
  {
    if |ops| == 0 then NoWriter
    else
      var before := ApplyAll(word, ops[..|ops| - 1]);
      if Apply(before, ops[|ops| - 1]) != before then WrittenBy(ops[|ops| - 1])
      else LastWriter(word, ops[..|ops| - 1])
  }

  /** With sane durations, the word is 0 exactly when the last transition
      that changed it was an unlock (or, if none did, it started at 0). */
  lemma {:induction false} ZeroWordMeansReleased(word: u64, ops: seq<Op>)
    requires forall i :: 0 <= i < |ops| ==> SaneDuration(ops[i])
    ensures ApplyAll(word, ops) == 0 <==>
              match LastWriter(word, ops)
              case NoWriter => word == 0
              case WrittenBy(op) => op.UnlockOp?
  {
    if |ops| > 0 {
      var prefix := ops[..|ops| - 1];
      forall i | 0 <= i < |prefix|
        ensures SaneDuration(prefix[i])
      {
        assert prefix[i] == ops[i];
      }
      ZeroWordMeansReleased(word, prefix);
      assert SaneDuration(ops[|ops| - 1]);
    }
  }

  /** The crash flag after a history: the next successful acquire reports a
      crash exactly when the lock was not released by an unlock. */
  lemma {:induction false} CrashFlagAfterHistory(word: u64, ops: seq<Op>, now: u64, timeoutSec: i32, ticket: u64, crash: i32)
    requires forall i :: 0 <= i < |ops| ==> SaneDuration(ops[i])
    requires var w := ApplyAll(word, ops); TryLock(now, w, w, timeoutSec, ticket, crash).code == Ok
    ensures var w := ApplyAll(word, ops);
            TryLock(now, w, w, timeoutSec, ticket, crash).crash == 0 <==>
              match LastWriter(word, ops)
              case NoWriter => word == 0
              case WrittenBy(op) => op.UnlockOp?
  {
    ZeroWordMeansReleased(word, ops);
  }

  // ---------------------------------------------------------------------
  // The blocking loop
  // ---------------------------------------------------------------------

  /** On Windows the loop as written gives up when the wait on a crashed
      holder's word times out: WaitOnAddress returns FALSE and the loop
      returns -EAGAIN, although retrying would take the lock with the crash
      flag set. The corrected step sleeps and retries. */
  lemma WindowsCrashedHolderAbortsLock()
    ensures LockStepAsWritten(Windows, Round(100, 100, 105, 105, 105, Expired), 1, 0, 0) == Failed(Again)
    ensures LockStep(Windows, Round(100, 100, 105, 105, 105, Expired), 1, 0, 0) == Continue(Slept(5, Milliseconds(5000)))
    ensures LockStep(Windows, Round(106, 106, 105, 105, 105, Expired), 1, 0, 0) == Acquired(107, 1)
  {
  }

  /** The loop as written and the corrected loop agree on every pass except
      one on Windows whose wait timed out. */
  lemma LoopsAgreeExceptWindowsTimeout(platform: Platform, r: Round, timeoutSec: i32, ticket: u64, crash: i32)
    requires platform == Linux || r.wait != Expired
    ensures LockStepAsWritten(platform, r, timeoutSec, ticket, crash) == LockStep(platform, r, timeoutSec, ticket, crash)
  {
  }

  /** A word equal to the loop's clock reading is neither taken (trylock
      counts it as held) nor waited on (the loop waits only on later words),
      so the loop goes straight round again until the clock moves on. */
  lemma WordAtClockSpins(platform: Platform, w: u64, wait: WaitResult, timeoutSec: i32, ticket: u64, crash: i32)
    ensures LockStep(platform, Round(w, w, w, w, w, wait), timeoutSec, ticket, crash) == Continue(NoSleep)
  {
  }

  /** The DWORD timeout on Windows can wrap all the way to 0, so that the
      wait returns at once: 2^29 seconds become 2^32 * 125 milliseconds. */
  lemma WindowsWaitTimeoutCanBeZero()
    ensures WaitArgsFor(Windows, 536870912) == Milliseconds(0)
  {
  }

  /** When the clock read at the top of the loop fails, the loop sleeps for
      as many seconds as the absolute expiry in the word, not until it. */
  lemma ClockFailureSleepsForAbsoluteExpiry(platform: Platform, r: Round, timeoutSec: i32, ticket: u64, crash: i32)
    requires r.clock == 0 && r.tryClock == 0 && r.reloaded > 0 && !r.wait.WaitError?
    ensures LockStep(platform, r, timeoutSec, ticket, crash) == Continue(Slept(r.reloaded, WaitArgsFor(platform, r.reloaded)))
  {
  }
}
