/** The minimum display time of the preloader (`onWindowLoadEnforcePreloader`
    in script/main.js): when the window has loaded, the page waits whatever
    is left of 3000 ms since the script started before it initialises. Times
    are integer milliseconds read from the clock; the clock itself is a
    parameter. */
module Preloader {
  /** The preloader's minimum display time in milliseconds. */
  const MinPreloaderMs: int := 3000

  function Max(a: int, b: int): int {
    if a >= b then a else b
  }

  /** The delay before initialisation when the load event is handled at
      `now` and the script started at `start`. */
  function Remaining(now: int, start: int): (r: int)
    ensures 0 <= r <= MinPreloaderMs
    ensures now - start >= MinPreloaderMs ==> r == 0
    ensures 0 <= now - start < MinPreloaderMs ==> (now - start) + r == MinPreloaderMs
    ensures now - start <= 0 ==> r == MinPreloaderMs
  {
    var elapsed := Max(0, now - start);
    Max(0, MinPreloaderMs - elapsed)
  }

  /** Initialisation never starts before the 3000 ms floor: when the clock did
      not run backwards, the moment the delay ends is at least 3000 ms after
      the start, and it is exactly that moment when the load came early. */
  lemma InitNotEarly(now: int, start: int)
    requires start <= now
    ensures now + Remaining(now, start) >= start + MinPreloaderMs
    ensures now - start < MinPreloaderMs ==> now + Remaining(now, start) == start + MinPreloaderMs
  {
  }

  /** A later load never waits longer, and it waits exactly as much less as it
      is later until the floor is reached. */
  lemma RemainingShrinks(now1: int, now2: int, start: int)
    requires start <= now1 <= now2
    ensures Remaining(now2, start) <= Remaining(now1, start)
    ensures now2 - start <= MinPreloaderMs ==> Remaining(now1, start) - Remaining(now2, start) == now2 - now1
  {
  }
}
