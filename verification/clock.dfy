/**
 The time source `timestamp_utc`: whole seconds since 1 January 1970, with
 0 standing for "the clock could not be read". The system calls themselves
 are outside the model; what they report arrives as a parameter.
 */
module Clock {
  import opened Machine

  /** What `clock_gettime(CLOCK_REALTIME)` reported on Linux. */
  datatype ClockCall = CallFailed | CallOk(tvSec: i64)

  /** The Linux time source: 0 when the call fails, otherwise the seconds
      field converted to `u64`. */
  function LinuxTimestamp(call: ClockCall): (now: u64)
    ensures call.CallFailed? ==> now == 0
    ensures call.CallOk? && 0 <= call.tvSec ==> now == call.tvSec
  {
    match call
    case CallFailed => 0
    case CallOk(s) => FromTimeT(s)
  }

  /** 100-nanosecond intervals between 1601-01-01 and 1970-01-01. */
  const FILETIME_UNIX_OFFSET: u64 := 116444736000000000

  /** 100-nanosecond intervals in one second. */
  const FILETIME_TICKS_PER_SECOND: u64 := 10000000

  /** The Windows time source: a FILETIME (100 ns ticks since 1601) turned
      into whole Unix seconds, rounding down. */
  function WindowsTimestamp(fileTime: u64): (now: u64)
    ensures FILETIME_UNIX_OFFSET <= fileTime ==>
              now * FILETIME_TICKS_PER_SECOND <= fileTime - FILETIME_UNIX_OFFSET
              < (now + 1) * FILETIME_TICKS_PER_SECOND
  {
    Sub(fileTime, FILETIME_UNIX_OFFSET) / FILETIME_TICKS_PER_SECOND
  }

  /** A clock that reads exactly the epoch second is indistinguishable from
      a failed read: the lock treats both as "couldn't read the time". */
  lemma EpochSecondReadsAsFailure(fileTime: u64)
    requires FILETIME_UNIX_OFFSET <= fileTime < FILETIME_UNIX_OFFSET + FILETIME_TICKS_PER_SECOND
    ensures WindowsTimestamp(fileTime) == 0
    ensures LinuxTimestamp(CallOk(0)) == LinuxTimestamp(CallFailed)
  {
  }

  /** Later file times never give an earlier Unix second (as long as both
      lie after 1970). */
  lemma WindowsTimestampMonotone(a: u64, b: u64)
    requires FILETIME_UNIX_OFFSET <= a <= b
    ensures WindowsTimestamp(a) <= WindowsTimestamp(b)
  {
  }
}
