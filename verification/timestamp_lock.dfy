/**
 The lease lock over one 64-bit word. The word is 0 when the lock is free;
 any other value is the absolute second at which the current lease runs
 out. Every operation ends in one compare-and-swap on the word, so each is
 a pure function from the word (and the clock reading, and the caller's
 out-variables) to the return code, the new word and the new out-variables.

 `trylock` reads the word and then swaps it, two separate atomic steps;
 another contender may change the word in between. The model therefore
 takes both the value the load saw (`seen`) and the value the word holds
 when the swap runs (`word`); in a run without interference they are equal.
 */
module TimestampLock {
  import opened Machine

  /** The value the operations return: 0, or a negated error code. */
  datatype Code =
    | Ok
      /** -EAGAIN: the section is locked, the swap lost a race, or the clock
          could not be read */
    | Again
      /** -ETIMEDOUT: the word no longer holds the caller's ticket */
    | TimedOut
      /** any other -errno, passed up from the wait or wake system call */
    | SysError(errno: nat)

  /** The two targets whose wait/wake calls differ. */
  datatype Platform = Linux | Windows

  /** Outcome of an atomic compare-and-swap: whether it swapped, and the word after it. */
  datatype Swap = Swap(swapped: bool, word: u64)

  function CompareExchange(word: u64, expected: u64, desired: u64): (s: Swap)
    // it swaps exactly when the word holds the expected value
    ensures s.swapped <==> word == expected
    // a failed swap leaves the word as it was; a successful one installs `desired`
    ensures !s.swapped ==> s.word == word
    ensures s.swapped ==> s.word == desired
  {
    if word == expected then Swap(true, desired) else Swap(false, word)
  }

  /** What `trylock` and `lock` leave behind: the return code, the lock
      word, and the caller's `*ticket` and `*crash`. */
  datatype Acquire = Acquire(code: Code, word: u64, ticket: u64, crash: i32)

  /** A lease is live at `now` while the word holds a time not before `now`;
      `trylock` refuses to take it over. */
  predicate Live(word: u64, now: u64)
  {
    word >= now
  }

  /** `timestamp_trylock`. `now` is the clock reading (0 for a failed read),
      `seen` the value loaded from the word, `word` the value the word holds
      when the swap runs, and `ticket`/`crash` the caller's variables before
      the call. */
  function TryLock(now: u64, seen: u64, word: u64, timeoutSec: i32, ticket: u64, crash: i32): (r: Acquire)
    // trylock has exactly two outcomes
    ensures r.code == Ok || r.code == Again
    // it succeeds exactly when the clock was read, the lease it saw had run
    // out, and nobody changed the word before the swap
    ensures r.code == Ok <==> now != 0 && !Live(seen, now) && seen == word
    // on failure nothing is touched: not the word, not *ticket, not *crash
    ensures r.code == Again ==> r == Acquire(Again, word, ticket, crash)
    // on success the word and *ticket both hold the new expiry now + timeout
    ensures r.code == Ok ==> r.ticket == r.word == AddInt(now, timeoutSec)
    // *crash reports whether a lease was left behind without an unlock
    ensures r.code == Ok ==> (r.crash == 1 <==> word != 0) && (r.crash == 0 <==> word == 0)
    // with a positive timeout that does not overflow, the new lease lies in
    // the future and the replaced one in the past
    ensures r.code == Ok && 0 < timeoutSec && now + timeoutSec < U64_LIMIT ==>
              word < now < r.word
  {
    if now == 0 then
      Acquire(Again, word, ticket, crash)
    else if Live(seen, now) then
      Acquire(Again, word, ticket, crash)
    else
      var newWord := AddInt(now, timeoutSec);
      var swap := CompareExchange(word, seen, newWord);
      if !swap.swapped then
        Acquire(Again, swap.word, ticket, crash)
      else
        Acquire(Ok, swap.word, newWord, if seen > 0 then 1 else 0)
  }

  /** What `unlock` leaves behind: the return code and the lock word. */
  datatype Release = Release(code: Code, word: u64)

  /** Outcome of the wake-all call that follows a successful unlock. Only
      the Linux call can fail; the Windows one returns nothing. */
  datatype Wake = Woke | WakeFailed(errno: nat)

  /** `timestamp_unlock`. It never reads the clock: it swaps the word from
      `ticket` to 0 whether or not the lease has run out, and then wakes
      the waiters. */
  function Unlock(platform: Platform, word: u64, ticket: u64, wake: Wake): (r: Release)
    // a ticket that is no longer in the word changes nothing
    ensures word != ticket ==> r == Release(TimedOut, word)
    // the holder's ticket always frees the word, even if the wake fails
    ensures word == ticket ==> r.word == 0 && r.code != TimedOut
    // after freeing the word the result is 0 unless the Linux wake failed
    ensures word == ticket ==>
              (r.code == Ok <==> platform == Windows || wake == Woke) &&
              (platform == Linux && wake.WakeFailed? ==> r.code == SysError(wake.errno))
  {
    var swap := CompareExchange(word, ticket, 0);
    if !swap.swapped then
      Release(TimedOut, swap.word)
    else
      match (platform, wake)
      case (Linux, WakeFailed(e)) => Release(SysError(e), swap.word)
      case _ => Release(Ok, swap.word)
  }

  /** What `refreshlock` leaves behind: the return code, the lock word and
      the caller's `*ticket`. */
  datatype Postpone = Postpone(code: Code, word: u64, ticket: u64)

  /** `timestamp_refreshlock`. Like unlock it does not check whether the
      lease has run out: it swaps the word from `ticket` to
      `now + postponeSec` and hands the new value back as the ticket. */
  function Refresh(now: u64, word: u64, ticket: u64, postponeSec: i32): (r: Postpone)
    // three outcomes
    ensures r.code == Ok || r.code == Again || r.code == TimedOut
    // a failed clock read changes nothing
    ensures now == 0 ==> r == Postpone(Again, word, ticket)
    // a ticket no longer in the word changes nothing
    ensures now != 0 && word != ticket ==> r == Postpone(TimedOut, word, ticket)
    // otherwise the word and *ticket move together to now + postpone
    ensures r.code == Ok <==> now != 0 && word == ticket
    ensures r.code == Ok ==> r.word == r.ticket == AddInt(now, postponeSec)
    // with a positive postpone that does not overflow, the new expiry is in the future
    ensures r.code == Ok && 0 < postponeSec && now + postponeSec < U64_LIMIT ==> Live(r.word, now) && r.word != now
  {
    if now == 0 then
      Postpone(Again, word, ticket)
    else
      var newWord := AddInt(now, postponeSec);
      var swap := CompareExchange(word, ticket, newWord);
      if !swap.swapped then
        Postpone(TimedOut, swap.word, ticket)
      else
        Postpone(Ok, swap.word, newWord)
  }
}
