/** The waits of the two reconnect loops (pcap_source.go and transmitter.go), in seconds. */
module Backoff {
  import opened Wrappers

  const INITIAL_DELAY: nat := 1
  const MAX_DELAY: nat := 30

  /** The update of the delay after a failed attempt. */
  function NextDelay(delay: nat): nat {
    if delay < MAX_DELAY then if delay * 2 > MAX_DELAY then MAX_DELAY else delay * 2 else delay
  }

  /** The wait before attempt k, counted from 0. */
  function Delay(k: nat): nat {
    if k == 0 then INITIAL_DELAY else NextDelay(Delay(k - 1))
  }

  /** The time at which attempt n-1 is made when the attempts themselves take none. */
  function TotalWait(n: nat): nat {
    if n == 0 then 0 else TotalWait(n - 1) + Delay(n - 1)
  }

  function Power2(k: nat): nat {
    if k == 0 then 1 else 2 * Power2(k - 1)
  }

  lemma {:induction false} DelayIsCappedDoubling(k: nat)
    ensures Delay(k) == if Power2(k) < MAX_DELAY then Power2(k) else MAX_DELAY
    ensures Power2(k) < MAX_DELAY <==> k < 5
  {
    if k > 0 {
      DelayIsCappedDoubling(k - 1);
      if k == 5 { assert Power2(5) == 2 * (2 * (2 * Power2(2))); }
      if k == 4 { assert Power2(4) == 2 * (2 * Power2(2)); }
      if k == 3 { assert Power2(3) == 2 * Power2(2); }
    }
  }

  lemma {:induction false} TotalWaitIs(n: nat)
    ensures n <= 5 ==> TotalWait(n) == Power2(n) - 1
    ensures n > 5 ==> TotalWait(n) == 31 + 30 * (n - 5)
  {
    if n > 0 {
      TotalWaitIs(n - 1);
      DelayIsCappedDoubling(n - 1);
      if n == 6 { assert Power2(5) == 2 * (2 * (2 * Power2(2))); }
    }
  }

  /**
    The loop against an interface that can be opened from a given time on, and a context that may be
    cancelled: it ends at the first attempt that finds the interface, less than MAX_DELAY after that
    became possible, unless the context was cancelled before. When the timer and the cancellation
    are due at the same instant, either may win.
   */
  method Reconnect(available: nat, cancelled: Option<nat>) returns (reached: Option<nat>, attempts: nat)
    ensures reached.Some? ==>
              && reached.value == TotalWait(attempts) && attempts > 0
              && available <= reached.value < available + MAX_DELAY
              && forall n | 0 < n < attempts :: TotalWait(n) < available
    ensures reached.None? ==>
              && cancelled.Some? && cancelled.value <= TotalWait(attempts + 1)
              && (attempts > 0 ==> TotalWait(attempts) <= cancelled.value)
              && forall n | 0 < n <= attempts :: TotalWait(n) < available
    ensures reached.Some? && cancelled.Some? ==> reached.value <= cancelled.value
  {
    var now, delay := 0, INITIAL_DELAY;
    attempts := 0;
    while true
      invariant delay == Delay(attempts) && 1 <= delay <= MAX_DELAY
      invariant now == TotalWait(attempts)
      invariant now == 0 || now < available
      invariant forall n | 0 < n <= attempts :: TotalWait(n) < available
      invariant attempts > 0 && cancelled.Some? ==> now <= cancelled.value
      decreases available + 1 - now
    {
      if cancelled.Some? && cancelled.value <= now + delay {
        var timerWins := *;
        if cancelled.value < now + delay || !timerWins {
          return None, attempts;
        }
      }
      now := now + delay;
      attempts := attempts + 1;
      if available <= now {
        return Some(now), attempts;
      }
      if delay < MAX_DELAY {
        delay := delay * 2;
        if delay > MAX_DELAY {
          delay := MAX_DELAY;
        }
      }
    }
  }
}
