/** Instants and durations, in nanoseconds. */
module Clock {

  type Time = int

  function Seconds(n: int): int {
    n * 1_000_000_000
  }

  function Hours(n: int): int {
    n * 3_600_000_000_000
  }

  /** Whole seconds since `start`; zero if the clock has not reached it. */
  function ElapsedSecs(start: Time, now: Time): nat {
    if now < start then 0 else (now - start) / 1_000_000_000
  }
}
