/** The bounded wait for a capture after the page has loaded and settled:
    sleep 500 ms at a time while nothing is captured and less than 60 s have
    gone by. Time is the `waited` counter alone; whether the capture flag is
    up after `k` sleeps is the caller-supplied `capturedAfter(k)`. */
module Poll {

  const PollInterval: nat := 500
  const MaxWait: nat := 60000

  /** The most sleeps the loop can take. */
  const MaxTicks: nat := MaxWait / PollInterval

  /** The wait loop. `captured` is the flag as the check after the loop reads
      it. The loop stops at the first tick where the flag is up, or at the
      deadline, and the flag is never up at an earlier tick. */
  method WaitForCapture(capturedAfter: nat -> bool) returns (waited: nat, ticks: nat, captured: bool)
    ensures waited == ticks * PollInterval
    ensures waited % PollInterval == 0 && waited <= MaxWait
    ensures ticks <= 120
    ensures captured == capturedAfter(ticks)
    ensures captured || waited == MaxWait
    ensures forall k :: 0 <= k < ticks ==> !capturedAfter(k)
    ensures !captured <==> forall k :: 0 <= k <= MaxTicks ==> !capturedAfter(k)
  {
    waited := 0;
    ticks := 0;
    while !capturedAfter(ticks) && waited < MaxWait
      invariant waited == ticks * PollInterval
      invariant waited <= MaxWait
      invariant forall k :: 0 <= k < ticks ==> !capturedAfter(k)
      decreases MaxWait - waited
    {
      waited := waited + PollInterval;
      ticks := ticks + 1;
    }
    captured := capturedAfter(ticks);
  }
}
