# timestamp_lock, modelled in Dafny

A model of `timestamp_lock`: a self-expiring mutual-exclusion lock held in
one shared 64-bit word. The word is 0 when the lock is free. Any other value
is the absolute second, since 1 January 1970, at which the current lease
runs out. A holder that crashes cannot block the others for ever: once its
expiry has passed, the next `trylock` takes the lock over and reports
`crash = 1`.

Each operation ends in one compare-and-swap on the word. So each is modelled
as a pure function from the word, the clock reading and the caller's
out-variables to the return code, the new word and the new out-variables:

- `machine.dfy` (module `Machine`): the C types `u64`, `int`, `DWORD` and
  `time_t` as subsets of `int`. It also holds the wrapping arithmetic the C
  code performs: `now + timeout_sec`, `old_word - now`, `* 1000`, and the
  narrowing casts.
- `clock.dfy` (module `Clock`): `timestamp_utc` on both targets. The result 0
  means "the clock could not be read".
- `timestamp_lock.dfy` (module `TimestampLock`): `timestamp_trylock`,
  `timestamp_unlock` and `timestamp_refreshlock`.
  - `trylock` loads the word and then swaps it, in two separate atomic steps.
    The model therefore takes both the value the load saw (`seen`) and the
    value the word holds when the swap runs (`word`). A lost race is the
    case where they differ.
- `blocking.dfy` (module `Blocking`): `timestamp_lock`.
  - `LockStep` models one pass of its retry loop, given what the pass
    observes (a `Round`): two clock readings, the word as trylock and the
    reload see it, and how the wait came back.
  - `Lock` runs the loop over a finite sequence of rounds.
- `properties.dfy` (module `LockProperties`): properties that relate
  several calls.
  - Round trips through acquire and release.
  - What a refresh does to the old and new tickets.
  - Mutual exclusion: while a lease is live, a sequence of transitions by
    parties without its ticket never changes the word.
  - The meaning of the crash flag after any history of transitions.

Where the header's comments suggest more than the code does, the model
follows the code:

- The header says refresh moves the timeout "into the future"
  (timestamp_lock.h:43-50). The code sets the new expiry to
  `now + postpone_sec`, measured from the current time and not from the old
  expiry. The new ticket is therefore not always greater than the old one
  (`RefreshCanMoveExpiryBack`).
- The header describes ETIMEDOUT as "already unlocked due to the
  expiration" (timestamp_lock.h:37-40). But unlock and refresh never
  compare the word with the clock: refresh reads the clock only to compute
  the new expiry. A ticket whose lease has run out still unlocks or
  refreshes if nobody took the lock in the meantime
  (`ExpiredTicketStillWorks`). ETIMEDOUT comes only once another party has
  changed the word.

## Model

| member | source | states |
|---|---|---|
| Machine.AddInt | timestamp_lock.c:66 | `now + timeout_sec` converts the C `int` to `u64` and wraps modulo 2^64. Within range it is the plain sum; below zero or past 2^64 it is shifted by 2^64 |
| Machine.Sub | timestamp_lock.c:125 | unsigned subtraction is the plain difference when it does not underflow; otherwise it wraps by 2^64 |
| Machine.Times1000 | timestamp_lock.c:119 | the 64-bit seconds-to-milliseconds product is exact when it fits and smaller when it wraps |
| Machine.ToDword | timestamp_lock.c:115-119 | passing a `u64` as the `DWORD` timeout keeps the value when it fits in 32 bits and makes it smaller otherwise |
| Machine.ToTimeT | timestamp_lock.c:125 | storing the `u64` duration in the signed `tv_sec` keeps it below 2^63 and makes it negative from 2^63 up |
| Machine.FromTimeT | timestamp_lock.c:26 | returning `tv_sec` as `u64` keeps non-negative seconds and wraps negative ones to 2^63 or above |
| Clock.LinuxTimestamp | timestamp_lock.c:19-26 | a failed `clock_gettime` yields 0; otherwise the result is the seconds field |
| Clock.WindowsTimestamp | timestamp_lock.c:28-38 | for a FILETIME after 1970, the result is the number of whole seconds since the Unix epoch, rounded down |
| Clock.EpochSecondReadsAsFailure | timestamp_lock.c:24-25 | a clock that reads exactly second 0 gives the same 0 as a failed read |
| Clock.WindowsTimestampMonotone | timestamp_lock.c:38 | a later FILETIME never converts to an earlier second |
| TimestampLock.CompareExchange | timestamp_lock.c:72 | the atomic compare-and-swap used at lines 72, 144 and 172: it swaps exactly when the word holds the expected value. On failure the word is unchanged; on success it holds the desired value |
| TimestampLock.TryLock | timestamp_lock.c:52-89 | returns only 0 or -EAGAIN. It succeeds exactly when the clock was read, the word it saw is before `now`, and the word did not change before the swap. On failure the word, `*ticket` and `*crash` are untouched. On success the word and `*ticket` both become `now + timeout_sec`, and `*crash` is 1 iff the replaced word was nonzero. With a positive, non-overflowing timeout: old word < now < new word |
| TimestampLock.Unlock | timestamp_lock.c:138-157 | a ticket different from the word gives -ETIMEDOUT and leaves the word unchanged. The matching ticket sets the word to 0 whatever the clock says. The result is then 0, unless the Linux wake failed, in which case it is that errno, with the word still freed |
| TimestampLock.Refresh | timestamp_lock.c:159-178 | a failed clock read gives -EAGAIN and a stale ticket gives -ETIMEDOUT; both leave the word and `*ticket` unchanged. Otherwise the word and `*ticket` both become `now + postpone_sec`. With a positive, non-overflowing postpone the new expiry lies after `now` |
| Blocking.WaitVerdictAsWritten | timestamp_lock.c:113-132 | as written, the loop gives up on any wait error. On Windows it also gives up when the wait times out, and then always returns -EAGAIN |
| Blocking.WaitVerdict | timestamp_lock.c:113-132 | corrected reading: the loop gives up exactly on a wait error, returning the errno on Linux and -EAGAIN on Windows. Every other wait result, including a timeout, means retry. It differs from the as-written verdict only for a timed-out wait on Windows |
| Blocking.WaitSeconds | timestamp_lock.c:111-125 | the sleep is computed only when the reloaded word is later than `now`, so `old_word - now` is positive and ends exactly at the expiry |
| Blocking.WaitArgsFor | timestamp_lock.c:113-126 | on Linux the timeout is a timespec with 1000 ns and the seconds kept exactly below 2^63. On Windows it is milliseconds: exactly `d * 1000` when that fits in a DWORD, and smaller otherwise |
| Blocking.Decide | timestamp_lock.c:99-133 | the loop body after trylock. It breaks with 0 exactly when trylock returned 0, keeping trylock's ticket and crash flag, and returns any other code that is not -EAGAIN. After -EAGAIN it goes round without sleeping exactly when the reloaded word is not after `now`. Otherwise it sleeps until that word's expiry, or returns the code the wait verdict gives up with |
| Blocking.LockStepAsWritten | timestamp_lock.c:93-134 | one pass of the loop as written. It acquires iff trylock succeeded, with trylock's ticket and crash flag. It sleeps only when the reloaded word is after `now`, and then until that expiry. It fails iff trylock failed, the reloaded word is after `now` and the as-written verdict gives up: with the errno on Linux, and with -EAGAIN on Windows, including for a timed-out wait |
| Blocking.LockStep | timestamp_lock.c:93-134 | one pass, with the corrected verdict. It returns 0 exactly when trylock succeeded, with trylock's ticket and crash flag. It sleeps only when the reloaded word is later than `now`, and then until that expiry. It fails only on a wait error, with the errno on Linux and -EAGAIN on Windows |
| Blocking.Lock | timestamp_lock.c:91-136 | every pass before the last went round again. The result is exactly what the last pass's `LockStep` gives. A lock is obtained only by that pass's successful trylock, whose ticket is `now + timeout_sec` and whose crash flag reports a nonzero previous word. An error comes only from that pass when its trylock failed, it waited on a later word, and the wait failed |
| LockProperties.AcquireThenUnlock | timestamp_lock.h:31-41 | unlocking with the ticket trylock returned frees the word, when nothing changed the word in between |
| LockProperties.LockThenUnlock | timestamp_lock.h:19-41 | the ticket the blocking loop returns is the word it installed, so unlocking with it frees the word |
| LockProperties.RefreshReplacesTicket | timestamp_lock.h:43-56 | after a successful refresh the new ticket unlocks. The old ticket, if different, gets -ETIMEDOUT and leaves the word unchanged |
| LockProperties.RefreshCanMoveExpiryBack | timestamp_lock.c:165 | refresh counts the new expiry from `now`, so it can be earlier than the old ticket |
| LockProperties.ExpiredTicketStillWorks | timestamp_lock.c:138-178 | unlock and refresh succeed with a ticket whose lease has already run out |
| LockProperties.NegativeTimeoutWraps | timestamp_lock.c:66 | for every clock reading and negative timeout whose sum is below zero, trylock succeeds and installs `now + timeout_sec + 2^64`, within 2^31 of the top of the range |
| LockProperties.TimeoutCancellingNowLeavesWordFree | timestamp_lock.c:66-77 | a timeout of exactly `-now` makes trylock succeed with ticket 0 and word 0, so the next trylock takes the lock straight away |
| LockProperties.ExpiryIsInclusive | timestamp_lock.c:63-64 | a word equal to `now` still counts as held; one second later it can be taken over |
| LockProperties.ExpiredLeaseTakenWithCrash | timestamp_lock.h:10-12 | once a holder's expiry has passed, trylock takes the lock and reports `crash = 1` |
| LockProperties.ForeignOpsKeepLease | timestamp_lock.c:52-178 | mutual exclusion: while a lease is live, any sequence of trylocks, unlocks and refreshes by parties without its ticket leaves the word equal to the ticket |
| LockProperties.ZeroWordMeansReleased | timestamp_lock.c:63-77 | with positive, non-overflowing durations, the word is 0 after a history exactly when the last transition that changed it was an unlock. If no transition changed it, the word is 0 exactly when it started at 0 |
| LockProperties.CrashFlagAfterHistory | timestamp_lock.h:10-12 | after any such history, the next acquire reports `crash = 0` exactly when the previous lease ended in an unlock, or there never was one |
| LockProperties.WindowsCrashedHolderAbortsLock | timestamp_lock.c:115-120 | the counterexample for the finding below: the as-written Windows loop returns -EAGAIN when a crashed holder's lease runs out during the wait. The corrected loop sleeps, retries, and takes the lock with `crash = 1` |
| LockProperties.LoopsAgreeExceptWindowsTimeout | timestamp_lock.c:113-132 | the as-written and the corrected pass are equal on every round, except on Windows when the wait timed out |
| LockProperties.WordAtClockSpins | timestamp_lock.c:63-64 | a word equal to the clock reading is neither taken (line 63 counts it as held) nor waited on (line 111 waits only on later words), so the pass goes round again without sleeping |
| LockProperties.WindowsWaitTimeoutCanBeZero | timestamp_lock.c:119 | a sleep of 2^29 seconds becomes a DWORD timeout of 0 ms on Windows |
| LockProperties.ClockFailureSleepsForAbsoluteExpiry | timestamp_lock.c:95-125 | when the loop's clock read fails, the loop sleeps for as many seconds as the absolute expiry value, not until that expiry |

## Findings

| source | as written | input that shows it | evidently intended | confidence | as-written member | corrected member |
|---|---|---|---|---|---|---|
| timestamp_lock.c:115-120 | every FALSE from `WaitOnAddress` makes `timestamp_lock` return -EAGAIN. `WaitOnAddress` also returns FALSE, with ERROR_TIMEOUT, when its timeout elapses | a holder with ticket 105 crashes. A waiter at second 100 sleeps 5000 ms, and nobody wakes it. The wait times out, and the loop returns -EAGAIN instead of retrying (`LockProperties.WindowsCrashedHolderAbortsLock`) | treat a timed-out wait as a retry, as the Linux branch does with ETIMEDOUT (line 130). The next pass then takes the expired lease with `crash = 1` | medium (depends on the documented Win32 behaviour of `WaitOnAddress`), not executed | Blocking.LockStepAsWritten | Blocking.WaitVerdict |

`Blocking.LockStep` and `Blocking.Lock` use the corrected verdict. On Linux
they are identical to the code as written, and on Windows they differ only
after a timed-out wait (`LockProperties.LoopsAgreeExceptWindowsTimeout`).

`Blocking.Decide` keeps the loop's branch for a trylock code other than 0
or -EAGAIN (lines 102-103), although `TimestampLock.TryLock`'s contract
shows that this branch is never taken.

## Left out

- The wait and wake system calls themselves: `futex`, `WaitOnAddress` and
  `WakeByAddressAll`. Their outcomes are parameters: `WaitResult` for the
  wait, and `Wake` for the Linux wake. The Windows wake cannot fail. The
  futex wait compares only the low 32 bits of the word; this is not
  modelled.
- The clock system calls. The clock reading is a parameter `now`. The
  conversions of the call results to seconds are modelled in `Clock`.
- Memory fences and atomic memory orderings, including the fence after a
  crash-flagged acquire. They have no meaning in a sequential model.
- Concurrency beyond the two observations of one trylock. Other threads'
  changes to the word between calls appear as the word values passed in
  (`seen`, `word`, `reloaded`), not as interleaved threads.
- The duplicated MSVC compare-and-swap branches. They perform the same swap
  as the GCC branches, so only one is modelled.
- Numeric errno values. Return codes use the abstract `Code` type. A wait
  error other than EAGAIN, EINTR or ETIMEDOUT stands for its errno.
- Blocking.Lock: the C loop runs for ever until it returns. The model runs
  over a finite sequence of rounds and reports `StillWaiting` when they run
  out, because an unbounded loop cannot be written here.
- Machine.ToTimeT: assumes a 64-bit `time_t`. On a target with a 32-bit
  `time_t`, line 125 would also truncate the sleep to 32 bits; that is not
  modelled.
- Machine.FromTimeT: assumes a 64-bit `time_t`, as the seconds returned at
  line 26 are on 64-bit Linux.
- The stress test in `test.c`. It spawns threads and contains no lock logic.
