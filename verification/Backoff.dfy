/** The error streak of the upload task and the backoff it causes, over whole runs of iterations. */
module Backoff {

  const THRESHOLD: nat := 5
  const BASE_MS: nat := 500
  const MAX_MS: nat := 5000

  type Streak = s: nat | s <= 255  // s_http_error_streak is a uint8_t

  /** How one iteration of camera_upload_task ended. */
  datatype Outcome =
    | Suspended            // the camera was suspended: no backoff, no upload
    | Idle                 // no frame, or the frame was already sent
    | Failed(twice: bool)  // one error, counted twice when the server could not be reached
    | Sent

  function CountError(s: Streak): Streak { if s < 255 then s + 1 else s }

  function AtMost255(n: nat): Streak { if n < 255 then n else 255 }

  function NextStreak(s: Streak, o: Outcome): Streak {
    match o
    case Failed(twice) => if twice then CountError(CountError(s)) else CountError(s)
    case Sent => 0
    case _ => s
  }

  lemma NextStreakIs(s: Streak, twice: bool)
    ensures NextStreak(s, Failed(twice)) == AtMost255(s + if twice then 2 else 1)
    ensures NextStreak(s, Sent) == 0 && NextStreak(s, Idle) == NextStreak(s, Suspended) == s
  {
  }

  /** BASE_MS << step, in milliseconds, for a streak at or above the threshold. */
  function DelayMs(s: Streak): nat {
    if s < THRESHOLD then 0
    else
      var step := if s - THRESHOLD > 3 then 3 else s - THRESHOLD;
      var ms := BASE_MS * (if step == 0 then 1 else if step == 1 then 2 else if step == 2 then 4 else 8);
      if ms > MAX_MS then MAX_MS else ms
  }

  lemma DelayIs(s: Streak)
    ensures DelayMs(s) == if s < 5 then 0 else if s == 5 then 500 else if s == 6 then 1000
                          else if s == 7 then 2000 else 4000
  {
  }

  function SleepOf(s: Streak, o: Outcome): nat { if o.Suspended? then 0 else DelayMs(s) }

  /** The streak, and the total backoff slept, after the iterations `run` started at streak `s`. */
  function StreakAfter(s: Streak, run: seq<Outcome>): Streak {
    if run == [] then s else NextStreak(StreakAfter(s, run[..|run| - 1]), run[|run| - 1])
  }

  function SleptOver(s: Streak, run: seq<Outcome>): nat {
    if run == [] then 0
    else SleptOver(s, run[..|run| - 1]) + SleepOf(StreakAfter(s, run[..|run| - 1]), run[|run| - 1])
  }

  function Failures(run: seq<Outcome>): nat {
    if run == [] then 0 else Failures(run[..|run| - 1]) + if run[|run| - 1].Failed? then 1 else 0
  }

  /** The least backoff that `n` failures in a row can cost. */
  function LeastSleep(n: nat): nat {
    if n <= 5 then 0 else if n == 6 then 500 else if n == 7 then 1500 else 3500 + 4000 * (n - 8)
  }

  lemma DelayIsMonotone(s: Streak, t: Streak)
    requires s <= t
    ensures DelayMs(s) <= DelayMs(t) <= 4000
  {
  }

  /** Over any iterations without a success, however many suspensions and idle waits lie between the
      failures and whether or not they count twice or saturate the counter. */
  lemma {:induction false} FailuresCostTime(s: Streak, run: seq<Outcome>)
    requires Sent !in run
    ensures StreakAfter(s, run) >= s
    ensures StreakAfter(s, run) >= if Failures(run) <= 255 then Failures(run) else 255
    ensures SleptOver(s, run) >= LeastSleep(Failures(run))
  {
    if run != [] {
      FailuresCostTime(s, run[..|run| - 1]);
    }
  }

  lemma {:induction false} RunInTwo(s: Streak, a: seq<Outcome>, b: seq<Outcome>)
    ensures StreakAfter(s, a + b) == StreakAfter(StreakAfter(s, a), b)
    ensures SleptOver(s, a + b) == SleptOver(s, a) + SleptOver(StreakAfter(s, a), b)
  {
    if b == [] {
      assert a + b == a;
    } else {
      RunInTwo(s, a, b[..|b| - 1]);
      assert (a + b)[..|a + b| - 1] == a + b[..|b| - 1];
    }
  }

  /** The backoff bound: in any stretch of a run without a success, eight failures cost at least 3.5 s
      of sleep, and every further one at least 4 s. */
  lemma BackoffBound(s: Streak, before: seq<Outcome>, stretch: seq<Outcome>)
    requires Sent !in stretch && Failures(stretch) >= 8
    ensures SleptOver(s, before + stretch) - SleptOver(s, before) >= 3500 + 4000 * (Failures(stretch) - 8)
  {
    RunInTwo(s, before, stretch);
    FailuresCostTime(StreakAfter(s, before), stretch);
  }

  /** The bound is exact: single errors straight after a success sleep no longer than that. */
  lemma {:induction false} BoundIsReached(n: nat)
    ensures var run := seq(n, _ => Failed(false));
            Failures(run) == n && SleptOver(0, run) == LeastSleep(n)
            && StreakAfter(0, run) == if n <= 255 then n else 255
  {
    if n > 0 {
      BoundIsReached(n - 1);
      assert seq(n, _ => Failed(false))[..n - 1] == seq(n - 1, _ => Failed(false));
    }
  }

  /** A server that cannot be reached counts twice: `n` connect errors straight after a success leave the
      streak at 2n, or 255, and sleep nothing for the first three, one second for the fourth and then four. */
  lemma {:induction false} ConnectErrors(n: nat)
    ensures var run := seq(n, _ => Failed(true));
            && StreakAfter(0, run) == (if 2 * n < 255 then 2 * n else 255)
            && SleptOver(0, run) == if n <= 3 then 0 else 1000 + 4000 * (n - 4)
  {
    if n > 0 {
      ConnectErrors(n - 1);
      assert seq(n, _ => Failed(true))[..n - 1] == seq(n - 1, _ => Failed(true));
    }
  }

  lemma {:induction false} IdleRun(s: Streak, k: nat)
    ensures var run := seq(k, _ => Idle); StreakAfter(s, run) == s && SleptOver(s, run) == k * DelayMs(s)
  {
    if k > 0 {
      IdleRun(s, k - 1);
      assert seq(k, _ => Idle)[..k - 1] == seq(k - 1, _ => Idle);
    }
  }

  /** Waiting for a frame costs the backoff too, and so does the iteration that succeeds; after it there is
      none. After eight or more single errors, k idle iterations and a success sleep four seconds each. */
  lemma RecoveryCost(n: nat, k: nat)
    requires n >= 8
    ensures var run := seq(n, _ => Failed(false)) + seq(k, _ => Idle) + [Sent];
            SleptOver(0, run) == 3500 + 4000 * (n - 8) + 4000 * (k + 1) && StreakAfter(0, run) == 0
  {
    hide StreakAfter, SleptOver, DelayMs;
    var failed, idle := seq(n, _ => Failed(false)), seq(k, _ => Idle);
    BoundIsReached(n);
    RunInTwo(0, failed, idle);
    IdleRun(StreakAfter(0, failed), k);
    DelayIs(StreakAfter(0, failed));
    RunInTwo(0, failed + idle, [Sent]);
    SentRun(StreakAfter(0, failed + idle));
  }

  lemma SentRun(s: Streak)
    ensures StreakAfter(s, [Sent]) == 0 && SleptOver(s, [Sent]) == DelayMs(s)
  {
    assert [Sent][..0] == [];
  }
}
