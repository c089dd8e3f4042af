/**
 Deadlines, heartbeat intervals, byte limits and reconnect waits. Durations are Go's: nanoseconds in
 a signed 64-bit integer that wraps around.
 */
module Clamps {
  import opened Bytes

  const MILLISECOND: int := 1_000_000
  const SECOND: int := 1_000_000_000

  const BACKOFF_MIN: int := 500 * MILLISECOND
  const BACKOFF_MAX: int := 60 * SECOND
  const DEFAULT_HEARTBEAT: int := 25 * SECOND
  const MIN_HEARTBEAT: int := 5 * SECOND
  const MAX_HEARTBEAT: int := 120 * SECOND
  const MAX_DEADLINE: int := 60 * SECOND
  const DEFAULT_DEADLINE: int := 15 * SECOND

  type Int64 = n: int | -0x8000_0000_0000_0000 <= n < 0x8000_0000_0000_0000

  /** The low 64 bits of a result, as a signed number. */
  function Wrap(n: int): (w: Int64)
    ensures (exists k: int :: n == w + k * 0x1_0000_0000_0000_0000)
    ensures -0x8000_0000_0000_0000 <= n < 0x8000_0000_0000_0000 ==> w == n
  {
    var low := n % 0x1_0000_0000_0000_0000;
    assert n == low + (n / 0x1_0000_0000_0000_0000) * 0x1_0000_0000_0000_0000;
    if low >= 0x8000_0000_0000_0000 then
      assert n == low - 0x1_0000_0000_0000_0000 + (n / 0x1_0000_0000_0000_0000 + 1) * 0x1_0000_0000_0000_0000;
      low - 0x1_0000_0000_0000_0000
    else low
  }

  // ---- deadlines --------------------------------------------------------------------------------

  function Deadline(ms: Int64): (d: Int64)
    ensures 0 < d <= 60_000_000_000
  {
    var d := Wrap(ms * MILLISECOND);
    if d <= 0 then DEFAULT_DEADLINE else if d > MAX_DEADLINE then MAX_DEADLINE else d
  }

  /** The deadline as it is documented: what was asked for, 15 s when nothing was, 60 s at most. */
  function IntendedDeadline(ms: int): int {
    if ms <= 0 then 15_000_000_000 else if ms > 60_000 then 60_000_000_000 else ms * 1_000_000
  }

  /** It is that for every request whose nanoseconds fit, and exactly when the product keeps its side. */
  lemma {:induction false} DeadlineIsIntended(ms: Int64)
    ensures -9_223_372_036_854 <= ms <= 9_223_372_036_854 ==> Deadline(ms) == IntendedDeadline(ms)
    ensures var d := Wrap(ms * MILLISECOND);
      Deadline(ms) == IntendedDeadline(ms) <==>
        d == ms * MILLISECOND || (if ms > 0 then d >= 60_000_000_000 else d <= 0 || d == 15_000_000_000)
  {}

  /** The first request that wraps: it asks for 292 years and gets the 15 s of no request at all. */
  lemma {:induction false} HugeDeadlineWraps()
    ensures Deadline(9_223_372_036_855) == DEFAULT_DEADLINE
    ensures IntendedDeadline(9_223_372_036_855) == MAX_DEADLINE
  {
    assert 9_223_372_036_855 * MILLISECOND - 0x1_0000_0000_0000_0000 < 0;
  }

  // ---- heartbeats -------------------------------------------------------------------------------

  /** The interval negotiated in a welcome frame. */
  function Heartbeat(seconds: Int64): (h: Int64)
    ensures 5_000_000_000 <= h <= 120_000_000_000
  {
    var h := Wrap(seconds * SECOND);
    if seconds > 0 && MIN_HEARTBEAT <= h <= MAX_HEARTBEAT then h else DEFAULT_HEARTBEAT
  }

  function IntendedHeartbeat(seconds: int): int {
    if 5 <= seconds <= 120 then seconds * 1_000_000_000 else 25_000_000_000
  }

  lemma {:induction false} HeartbeatIsIntended(seconds: Int64)
    ensures seconds <= 9_223_372_036 ==> Heartbeat(seconds) == IntendedHeartbeat(seconds)
    ensures var h := Wrap(seconds * SECOND);
      Heartbeat(seconds) == IntendedHeartbeat(seconds) <==>
        seconds <= 120 || h == DEFAULT_HEARTBEAT || h < MIN_HEARTBEAT || h > MAX_HEARTBEAT
  {}

  lemma {:induction false} HugeHeartbeatWraps()
    ensures var seconds := 30 + 0x80_0000_0000_0000;
      Heartbeat(seconds) == 30 * SECOND && IntendedHeartbeat(seconds) == DEFAULT_HEARTBEAT
  {
    assert 0x80_0000_0000_0000 * SECOND == 1_953_125 * 0x1_0000_0000_0000_0000;
  }

  // ---- byte limits ------------------------------------------------------------------------------

  function MaxBytes(asked: Int64, verbDefault: Int64): (n: Int64)
    requires verbDefault > 0
    ensures 0 < n <= verbDefault
    ensures 0 < asked <= verbDefault ==> n == asked
    ensures asked <= 0 || asked > verbDefault ==> n == verbDefault
  {
    if asked <= 0 || asked > verbDefault then verbDefault else asked
  }

  // ---- reconnecting -----------------------------------------------------------------------------

  /** `BACKOFF_MIN << min(attempt-1, 12)`, capped. */
  function Ceiling(attempt: int): (d: int)
    requires attempt >= 1
    ensures 500_000_000 <= d <= 60_000_000_000
  {
    var shift := if attempt - 1 < 12 then attempt - 1 else 12;
    SmallPowers();
    Pow2Grows(shift, 12);
    var d := Wrap(BACKOFF_MIN * Pow2(shift));
    if d > BACKOFF_MAX then BACKOFF_MAX else d
  }

  /** `Int63n(d)`: some number below d, here the number drawn modulo d. */
  function Below(draw: nat, d: int): (r: int)
    requires d > 0
    ensures 0 <= r < d && (draw < d ==> r == draw)
  {
    draw % d
  }

  function Min(a: int, b: int): int { if a < b then a else b }

  lemma {:induction false} Pow2Grows(i: nat, j: nat)
    requires i <= j
    ensures Pow2(i) <= Pow2(j)
  {
    if i < j {
      Pow2Grows(i, j - 1);
    }
  }

  lemma {:induction false} SmallPowers()
    ensures Pow2(6) == 64 && Pow2(7) == 128 && Pow2(12) == 4096
  {
    assert Pow2(3) == 8;
    assert Pow2(6) == 64;
    assert Pow2(9) == 512;
  }

  /** Neither the shift nor the limit of twelve ever shows: the ceiling doubles up to the cap. */
  lemma {:induction false} CeilingDoubles(attempt: int)
    requires attempt >= 1
    ensures Ceiling(attempt) == Min(60_000_000_000, 500_000_000 * Pow2(attempt - 1))
  {
    SmallPowers();
    if attempt - 1 <= 12 {
      Pow2Grows(attempt - 1, 12);
    } else {
      Pow2Grows(12, attempt - 1);
    }
  }

  function Backoff(attempt: int, draw: nat): int
    requires attempt >= 1
  {
    Below(draw, Ceiling(attempt)) + BACKOFF_MIN
  }

  /** Every wait of the half-open interval can be drawn and no other. */
  lemma {:induction false} BackoffRange(attempt: int, wait: int)
    requires attempt >= 1
    ensures (exists draw: nat :: Backoff(attempt, draw) == wait) <==>
      500_000_000 <= wait < Ceiling(attempt) + 500_000_000
  {
    if BACKOFF_MIN <= wait < Ceiling(attempt) + BACKOFF_MIN {
      var draw: nat := wait - BACKOFF_MIN;
      assert Backoff(attempt, draw) == wait;
    }
  }

  /** The documented cap of 60 s is kept by every draw up to the seventh attempt, then exactly by those up to 59.5 s. */
  lemma {:induction false} CapIsPassed(attempt: int, draw: nat)
    requires attempt >= 1
    ensures Backoff(attempt, draw) <= 60_000_000_000 <==>
      attempt <= 7 || Below(draw, 60_000_000_000) <= 59_500_000_000
  {
    CeilingDoubles(attempt);
    SmallPowers();
    if attempt <= 7 {
      Pow2Grows(attempt - 1, 6);
    } else {
      Pow2Grows(7, attempt - 1);
    }
  }

  /** Such a draw: the wait is a nanosecond short of 60.5 s. */
  lemma {:induction false} LongestWait()
    ensures Backoff(8, 59_999_999_999) == 60_499_999_999
  {
    CeilingDoubles(8);
    SmallPowers();
  }

  /** One turn of `Run`: whether a session came up, and the number drawn for the wait after it. */
  datatype Try = Try(connected: bool, draw: nat)

  /** Attempts since the last session that came up, the one after it included. */
  function Streak(tries: seq<Try>): nat {
    if tries == [] then 0
    else if tries[|tries| - 1].connected then 1
    else Streak(tries[..|tries| - 1]) + 1
  }

  /** It reaches back to the last try that came up, that one included, or to the first of all. */
  lemma {:induction false} StreakReachesBack(tries: seq<Try>)
    ensures var n, k := |tries|, Streak(tries);
      && k <= n && (k == 0 <==> n == 0)
      && (forall i :: n - k < i < n ==> !tries[i].connected)
      && (k > 0 ==> tries[n - k].connected || k == n)
  {
    if tries == [] {
    } else {
      StreakReachesBack(tries[..|tries| - 1]);
    }
  }

  /** Within the jittered, doubling bounds after the `k`-th attempt in a row. */
  predicate InBounds(wait: int, k: nat) {
    k >= 1 && 500_000_000 <= wait < Min(60_000_000_000, 500_000_000 * Pow2(k - 1)) + 500_000_000
  }

  /** The waits of one life of the process, until its context is cancelled. */
  method Run(tries: seq<Try>) returns (waits: seq<int>)
    ensures |waits| == |tries|
    ensures forall i :: 0 <= i < |tries| ==> InBounds(waits[i], Streak(tries[..i + 1]))
    ensures forall i :: 0 <= i < |tries| && tries[i].connected ==> waits[i] < 1_000_000_000
  {
    waits := [];
    var attempt := 0;
    for i := 0 to |tries|
      invariant |waits| == i && attempt == Streak(tries[..i])
      invariant forall j :: 0 <= j < i ==> InBounds(waits[j], Streak(tries[..j + 1]))
      invariant forall j :: 0 <= j < i && tries[j].connected ==> waits[j] < 1_000_000_000
    {
      assert tries[..i + 1][..i] == tries[..i];
      if tries[i].connected {
        attempt := 0;
      }
      attempt := attempt + 1;
      var wait := Backoff(attempt, tries[i].draw);
      CeilingDoubles(attempt);
      assert attempt == 1 ==> Ceiling(attempt) <= BACKOFF_MIN * Pow2(0) == BACKOFF_MIN;
      waits := waits + [wait];
    }
  }
}
