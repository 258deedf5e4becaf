/**
 The blocking acquire `timestamp_lock`: a loop that calls trylock, and when
 that fails and the word still holds a future expiry, sleeps on the word
 until it is woken or that expiry comes. One pass of the loop is the pure
 function `LockStep` over what the pass observes from outside (a `Round`);
 the loop itself is the method `Lock`, run over a finite sequence of rounds.
 */
module Blocking {
  import opened Machine
  import opened TimestampLock

  /** How the wait system call came back. `WaitError` stands for any error
      other than the four ordinary returns. */
  datatype WaitResult =
    | Woken          // a waker signalled the word (or the wake was spurious)
    | WordChanged    // the word no longer held the expected value
    | Interrupted    // a signal interrupted the wait
    | Expired        // the timeout elapsed
    | WaitError(errno: nat)

  /** What the loop does after the wait. */
  datatype Verdict = KeepTrying | GiveUp(code: Code)

  /** The loop's reading of the wait result, as the code is written. On
      Linux the futex call's EAGAIN, EINTR and ETIMEDOUT returns mean
      "retry" and any other error is returned. On Windows every FALSE from
      WaitOnAddress ends the loop with -EAGAIN, and WaitOnAddress also
      returns FALSE when its timeout elapses. */
  function WaitVerdictAsWritten(platform: Platform, wait: WaitResult): (v: Verdict)
    ensures v.GiveUp? <==> wait.WaitError? || (platform == Windows && wait == Expired)
    ensures platform == Windows && v.GiveUp? ==> v.code == Again
  {
    match (platform, wait)
    case (Linux, WaitError(e)) => GiveUp(SysError(e))
    case (Windows, WaitError(_)) => GiveUp(Again)
    case (Windows, Expired) => GiveUp(Again)
    case _ => KeepTrying
  }

  /** The loop's reading of the wait result with a timed-out wait retried
      on both platforms. The Linux branch already does this with ETIMEDOUT,
      and the wait is bounded by the lease's expiry precisely so that the
      loop can retry once the lease is over. */
  function WaitVerdict(platform: Platform, wait: WaitResult): (v: Verdict)
    ensures v.GiveUp? <==> wait.WaitError?
    ensures wait.WaitError? ==>
              v.code == (if platform == Linux then SysError(wait.errno) else Again)
    // the correction only concerns a timed-out wait on Windows
    ensures platform == Linux || wait != Expired ==> v == WaitVerdictAsWritten(platform, wait)
  {
    match (platform, wait)
    case (Linux, WaitError(e)) => GiveUp(SysError(e))
    case (Windows, WaitError(_)) => GiveUp(Again)
    case _ => KeepTrying
  }

  /** How long the loop sleeps: from `now` until the expiry held in the
      reloaded word. It is only asked for when that expiry is later than
      `now`, so the unsigned subtraction does not wrap. */
  function WaitSeconds(reloaded: u64, now: u64): (d: u64)
    requires reloaded > now
    ensures 0 < d && now + d == reloaded
  {
    Sub(reloaded, now)
  }

  /** The timeout argument handed to the wait call. */
  datatype WaitArgs =
    | Timespec(sec: i64, nsec: int)   // futex: a relative timespec
    | Milliseconds(ms: u32)           // WaitOnAddress: a DWORD of milliseconds

  /** The timeout for a sleep of `d` seconds. Linux adds 1000 ns and stores
      the seconds in the signed `tv_sec`; Windows multiplies by 1000 in 64
      bits and passes the result as a 32-bit DWORD, which keeps the exact
      value only up to 4294967 seconds. */
  function WaitArgsFor(platform: Platform, d: u64): (a: WaitArgs)
    ensures platform == Linux ==> a.Timespec? && a.nsec == 1000
    ensures platform == Linux && d < I64_LIMIT ==> a.sec == d
    ensures platform == Windows ==> a.Milliseconds?
    ensures platform == Windows && d * 1000 < U32_LIMIT ==> a.ms == d * 1000
    ensures platform == Windows && U32_LIMIT <= d * 1000 ==> a.ms < d * 1000
  {
    match platform
    case Linux => Timespec(ToTimeT(d), 1000)
    case Windows => Milliseconds(ToDword(Times1000(d)))
  }

  /** Everything one pass of the loop observes from outside: the clock read
      at the top of the loop, then trylock's own clock read, the value its
      load saw and the value the word held at its swap, then the value of
      the word reloaded after a failure, and how a wait would come back. */
  datatype Round = Round(clock: u64, tryClock: u64, seen: u64, word: u64, reloaded: u64, wait: WaitResult)

  /** Whether a pass slept, and for how long. */
  datatype Sleep = NoSleep | Slept(seconds: u64, args: WaitArgs)

  /** The outcome of one pass: the lock is taken (with the values stored in
      `*ticket` and `*crash`), the loop returns an error (leaving both
      untouched), or the loop goes round again. */
  datatype Step = Acquired(ticket: u64, crash: i32) | Failed(code: Code) | Continue(sleep: Sleep)

  /** One pass, given trylock's result `t` and the loop's reading of the
      wait `verdict`. */
  function Decide(platform: Platform, r: Round, t: Acquire, verdict: Verdict): (s: Step)
    // the loop breaks out with 0 exactly when trylock returned 0, keeping
    // what trylock stored in *ticket and *crash
    ensures s.Acquired? <==> t.code == Ok
    ensures s.Acquired? ==> s.ticket == t.ticket && s.crash == t.crash
    // after an -EAGAIN it waits only on a word later than the loop's clock
    // reading, and exactly until that word's expiry
    ensures t.code == Again ==> (s.Continue? && s.sleep.NoSleep? <==> r.reloaded <= r.clock)
    ensures s.Continue? && s.sleep.Slept? ==>
              t.code == Again && r.reloaded > r.clock && r.clock + s.sleep.seconds == r.reloaded &&
              s.sleep.args == WaitArgsFor(platform, s.sleep.seconds) && verdict == KeepTrying
    // it returns an error only for a trylock code other than 0 and -EAGAIN,
    // or when the verdict on a wait gives up, and then with that code
    ensures s.Failed? <==> t.code != Ok && (t.code != Again || (r.reloaded > r.clock && verdict.GiveUp?))
    ensures s.Failed? && t.code == Again ==> s.code == verdict.code
  {
    if t.code == Ok then
      Acquired(t.ticket, t.crash)
    else if t.code != Again then
      Failed(t.code)
    else if r.reloaded > r.clock then
      var d := WaitSeconds(r.reloaded, r.clock);
      match verdict
      case KeepTrying => Continue(Slept(d, WaitArgsFor(platform, d)))
      case GiveUp(c) => Failed(c)
    else
      Continue(NoSleep)
  }

  /** One pass of `timestamp_lock`'s loop as the code is written. */
  function LockStepAsWritten(platform: Platform, r: Round, timeoutSec: i32, ticket: u64, crash: i32): (s: Step)
    ensures s.Acquired? <==> TryLock(r.tryClock, r.seen, r.word, timeoutSec, ticket, crash).code == Ok
    ensures s.Acquired? ==>
              var t := TryLock(r.tryClock, r.seen, r.word, timeoutSec, ticket, crash);
              s.ticket == t.ticket && s.crash == t.crash
    ensures s.Continue? && s.sleep.Slept? ==>
              r.reloaded > r.clock && r.clock + s.sleep.seconds == r.reloaded &&
              s.sleep.args == WaitArgsFor(platform, s.sleep.seconds)
    ensures s.Continue? && s.sleep.NoSleep? ==> r.reloaded <= r.clock
    // it returns an error on a failed wait and, on Windows, on a timed-out one
    ensures s.Failed? <==> TryLock(r.tryClock, r.seen, r.word, timeoutSec, ticket, crash).code == Again &&
                           r.reloaded > r.clock && WaitVerdictAsWritten(platform, r.wait).GiveUp?
    ensures s.Failed? ==> s.code == (if platform == Linux then SysError(r.wait.errno) else Again)
  {
    var t := TryLock(r.tryClock, r.seen, r.word, timeoutSec, ticket, crash);
    Decide(platform, r, t, WaitVerdictAsWritten(platform, r.wait))
  }

  /** One pass of `timestamp_lock`'s loop, with a timed-out wait retried. */
  function LockStep(platform: Platform, r: Round, timeoutSec: i32, ticket: u64, crash: i32): (s: Step)
    // the loop ends with 0 exactly when trylock succeeded in this pass, and
    // then *ticket and *crash hold what trylock stored
    ensures s.Acquired? <==> TryLock(r.tryClock, r.seen, r.word, timeoutSec, ticket, crash).code == Ok
    ensures s.Acquired? ==>
              var t := TryLock(r.tryClock, r.seen, r.word, timeoutSec, ticket, crash);
              s.ticket == t.ticket && s.crash == t.crash
    // it sleeps only when the reloaded word is later than the loop's clock
    // reading, and then exactly until that expiry
    ensures s.Continue? && s.sleep.Slept? ==>
              r.reloaded > r.clock && r.clock + s.sleep.seconds == r.reloaded &&
              s.sleep.args == WaitArgsFor(platform, s.sleep.seconds)
    ensures s.Continue? && s.sleep.NoSleep? ==> r.reloaded <= r.clock
    // it returns an error only when the wait itself failed
    ensures s.Failed? <==> !s.Acquired? && r.reloaded > r.clock && r.wait.WaitError?
    ensures s.Failed? ==> s.code == (if platform == Linux then SysError(r.wait.errno) else Again)
  {
    var t := TryLock(r.tryClock, r.seen, r.word, timeoutSec, ticket, crash);
    Decide(platform, r, t, WaitVerdict(platform, r.wait))
  }

  /** The result of running the loop over a finite sequence of rounds. When
      the rounds run out before the loop returns, the caller is still
      blocked. */
  datatype Outcome =
    | Locked(ticket: u64, crash: i32, round: nat)
    | LockFailed(code: Code, round: nat)
    | StillWaiting

  /** `timestamp_lock` run over the observations in `rounds`, one per pass. */
  method Lock(platform: Platform, rounds: seq<Round>, timeoutSec: i32, ticket: u64, crash: i32)
    returns (o: Outcome)
    // every pass before the last one went round again
    ensures !o.StillWaiting? ==> o.round < |rounds|
    ensures !o.StillWaiting? ==>
              forall j :: 0 <= j < o.round ==> LockStep(platform, rounds[j], timeoutSec, ticket, crash).Continue?
    ensures o.StillWaiting? ==>
              forall j :: 0 <= j < |rounds| ==> LockStep(platform, rounds[j], timeoutSec, ticket, crash).Continue?
    // the lock is taken only by a successful trylock in the last pass, and
    // the ticket is the expiry that trylock installed
    ensures o.Locked? ==> LockStep(platform, rounds[o.round], timeoutSec, ticket, crash) == Acquired(o.ticket, o.crash)
    ensures o.Locked? ==>
              var r := rounds[o.round];
              var t := TryLock(r.tryClock, r.seen, r.word, timeoutSec, ticket, crash);
              t.code == Ok && o.ticket == t.word == AddInt(r.tryClock, timeoutSec) &&
              (o.crash == 1 <==> r.word != 0) && (o.crash == 0 <==> r.word == 0)
    // an error comes only from a failed wait in the last pass
    ensures o.LockFailed? ==> LockStep(platform, rounds[o.round], timeoutSec, ticket, crash) == Failed(o.code)
    ensures o.LockFailed? ==>
              var r := rounds[o.round];
              TryLock(r.tryClock, r.seen, r.word, timeoutSec, ticket, crash).code == Again &&
              r.reloaded > r.clock && r.wait.WaitError? &&
              o.code == (if platform == Linux then SysError(rounds[o.round].wait.errno) else Again)
  {
    var i := 0;
    while i < |rounds|
      invariant 0 <= i <= |rounds|
      invariant forall j :: 0 <= j < i ==> LockStep(platform, rounds[j], timeoutSec, ticket, crash).Continue?
    {
      var s := LockStep(platform, rounds[i], timeoutSec, ticket, crash);
      match s
      case Acquired(tk, cr) =>
        return Locked(tk, cr, i);
      case Failed(c) =>
        return LockFailed(c, i);
      case Continue(_) =>
        i := i + 1;
    }
    return StillWaiting;
  }
}
