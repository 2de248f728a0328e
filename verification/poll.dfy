/**
 The connection poll of `connectToWiFi`: after the join request, test the
 radio status once per `delay(1000)` until it reports connected or 10000 ms
 have elapsed since the attempt started.
 */
module Poll {

  /** The loop gives up once this many milliseconds have elapsed. */
  const TimeoutMs: nat := 10000

  /** Each iteration waits this long before testing again. */
  const DelayMs: nat := 1000

  /** Upper bound on the number of delays one attempt can take. */
  const MaxDelays: nat := TimeoutMs / DelayMs

  /** The radio as the loop observes it after `WiFi.begin`:
      `status(k)` says whether `WiFi.status()` reports connected at the k-th
      test of the loop condition, and `lag(k)` is the time the k-th iteration
      takes beyond its `delay(1000)` (printing, scheduling). */
  datatype Radio = Radio(status: nat -> bool, lag: nat -> nat)

  /** `millis() - startAttemptTime` at the k-th test of the loop condition. */
  function Elapsed(r: Radio, k: nat): (t: nat)
    ensures t >= DelayMs * k
  {
    if k == 0 then 0 else Elapsed(r, k - 1) + DelayMs + r.lag(k - 1)
  }

  /** The clock never runs backwards: from test j to test k the elapsed time
      grows by at least the k - j delays in between. */
  lemma {:induction false} ElapsedGrows(r: Radio, j: nat, k: nat)
    requires j <= k
    ensures Elapsed(r, k) >= Elapsed(r, j) + DelayMs * (k - j)
    decreases k - j
  {
    if j < k {
      ElapsedGrows(r, j, k - 1);
    }
  }

  /** The loop condition of `connectToWiFi` fails at test k: stop polling. */
  predicate StopsAt(r: Radio, k: nat)
  {
    r.status(k) || Elapsed(r, k) >= TimeoutMs
  }

  /** The first test at or after `k` at which the loop stops. */
  function FirstStop(r: Radio, k: nat): (p: nat)
    ensures k <= p && StopsAt(r, p)
    ensures forall j :: k <= j < p ==> !StopsAt(r, j)
    ensures p <= if k <= MaxDelays then MaxDelays else k
    decreases MaxDelays - k
  {
    if StopsAt(r, k) then k else FirstStop(r, k + 1)
  }

  /** Number of delays one attempt takes. */
  function Delays(r: Radio): nat
  {
    FirstStop(r, 0)
  }

  /** The attempt leaves the device connected: the status read after the loop
      (taken to be the status at the test that ended it) is connected. */
  predicate Succeeds(r: Radio)
  {
    r.status(Delays(r))
  }

  /** What one attempt reports to its caller: whether the device is connected
      after the loop, and how many delays the loop took. */
  datatype Attempted = Attempted(connected: bool, delays: nat)

  /** Reports the poll loop can produce: at most ten delays, and a failed
      attempt has waited at least once (no time has elapsed at the first test). */
  predicate Possible(a: Attempted)
  {
    a.delays <= MaxDelays && (a.connected || a.delays >= 1)
  }

  type AttemptOutcome = a: Attempted | Possible(a) witness Attempted(true, 0)

  /** The report of the attempt observing radio `r`. */
  function PollOutcome(r: Radio): (a: AttemptOutcome)
    ensures a.connected <==> Succeeds(r)
    ensures a.delays == Delays(r)
  {
    Attempted(Succeeds(r), Delays(r))
  }

  /** The poll loop of `connectToWiFi`. It stops at the first test where the
      radio is connected or 10000 ms have elapsed, so it runs at most ten
      iterations; the attempt succeeded iff the radio was connected then. */
  method PollForConnection(r: Radio) returns (delays: nat, elapsed: nat, connected: bool)
    ensures delays <= MaxDelays
    ensures elapsed == Elapsed(r, delays) && elapsed >= DelayMs * delays
    ensures connected == r.status(delays)
    ensures !connected ==> elapsed >= TimeoutMs
    ensures forall j :: 0 <= j < delays ==> !StopsAt(r, j)
    ensures Attempted(connected, delays) == PollOutcome(r)
  {
    delays := 0;
    elapsed := 0;
    while !r.status(delays) && elapsed < TimeoutMs
      invariant elapsed == Elapsed(r, delays)
      invariant forall j :: 0 <= j < delays ==> !StopsAt(r, j)
      decreases TimeoutMs - elapsed
    {
      elapsed := elapsed + DelayMs + r.lag(delays);
      delays := delays + 1;
    }
    assert StopsAt(r, delays);
    assert delays == FirstStop(r, 0);
    connected := r.status(delays);
  }

  /** A radio that reports connected from the d-th test on, without lag. */
  function ConnectsAt(d: nat): Radio
  {
    Radio(k => k >= d, k => 0)
  }

  /** A radio that never connects and whose d-th iteration overruns the
      timeout by itself (d >= 1). */
  function OverrunsAt(d: nat): Radio
  {
    Radio(k => false, k => if k + 1 == d then TimeoutMs else 0)
  }

  /** The attempt over `ConnectsAt(d)` succeeds after exactly `d` delays. */
  lemma ConnectsAtOutcome(d: nat)
    requires d <= MaxDelays
    ensures PollOutcome(ConnectsAt(d)) == Attempted(true, d)
  {
    var r := ConnectsAt(d);
    forall j: nat | j < d
      ensures !StopsAt(r, j)
    {
      ElapsedWithoutLag(r, j);
    }
    FirstStopIsFirst(r, d);
  }

  /** The attempt over `OverrunsAt(d)` fails after exactly `d` delays. */
  lemma OverrunsAtOutcome(d: nat)
    requires 1 <= d <= MaxDelays
    ensures PollOutcome(OverrunsAt(d)) == Attempted(false, d)
  {
    var r := OverrunsAt(d);
    forall j: nat | j < d
      ensures !StopsAt(r, j)
    {
      ElapsedWithoutLag(r, j);
    }
    ElapsedWithoutLag(r, d - 1);
    assert StopsAt(r, d);
    FirstStopIsFirst(r, d);
  }

  /** Every possible report comes from some radio: the attempt succeeds after
      `d` delays when the radio connects at the d-th test, and fails after `d`
      delays when the d-th iteration runs past the timeout. */
  lemma PollOutcomeRealizable(a: AttemptOutcome)
    ensures exists r :: PollOutcome(r) == a
  {
    if a.connected {
      ConnectsAtOutcome(a.delays);
      assert PollOutcome(ConnectsAt(a.delays)) == a;
    } else {
      OverrunsAtOutcome(a.delays);
      assert PollOutcome(OverrunsAt(a.delays)) == a;
    }
  }

  /** A test that stops the loop, with none before it stopping, is the first stop. */
  lemma FirstStopIsFirst(r: Radio, d: nat)
    requires StopsAt(r, d)
    requires forall j: nat :: j < d ==> !StopsAt(r, j)
    ensures Delays(r) == d
  {
  }

  /** A radio that never connects makes the attempt wait out the full
      timeout: exactly ten delays when each iteration takes exactly 1000 ms. */
  lemma NeverConnectsTimesOut(r: Radio)
    requires forall k :: !r.status(k)
    requires forall k :: r.lag(k) == 0
    ensures Delays(r) == MaxDelays && !Succeeds(r)
    ensures Elapsed(r, Delays(r)) == TimeoutMs
  {
    ElapsedWithoutLag(r, MaxDelays);
  }

  /** With no lag in the first k iterations, the k-th test happens exactly k
      delays after the start. */
  lemma {:induction false} ElapsedWithoutLag(r: Radio, k: nat)
    requires forall j: nat :: j < k ==> r.lag(j) == 0
    ensures Elapsed(r, k) == DelayMs * k
  {
    if k > 0 {
      ElapsedWithoutLag(r, k - 1);
      assert r.lag(k - 1) == 0;
    }
  }

  /** A radio already connected at the first test makes the attempt succeed
      without any delay. */
  lemma ConnectedAtOnce(r: Radio)
    requires r.status(0)
    ensures Delays(r) == 0 && Succeeds(r)
  {
  }

  /** A failed attempt has waited out the whole timeout before giving up. */
  lemma FailedAttemptWaitsTimeout(r: Radio)
    requires !Succeeds(r)
    ensures Elapsed(r, Delays(r)) >= TimeoutMs
  {
  }
}
