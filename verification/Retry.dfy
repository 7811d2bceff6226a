/** Retry schedules: the send backoff after failed transmissions and the reconnect loop.
    Durations are in nanoseconds. */
module Retry {
  import opened Bits

  const SECOND: int := 1_000_000_000
  const FIVE_MINUTES: int := 300 * SECOND
  const TWO_HOURS: int := 7200 * SECOND
  const HEALTHY_SESSION: int := 5 * SECOND

  function Min(a: int, b: int): int { if a < b then a else b }

  /** The pause after `fails` failed transmissions in a row. */
  function BackoffFor(fails: int): int {
    if fails < 3 then 0 else Min(TWO_HOURS, FIVE_MINUTES * Pow2(fails - 3))
  }

  lemma {:induction false} Pow2Grows(m: nat, n: nat)
    requires m <= n
    ensures Pow2(m) <= Pow2(n)
  {
    if m < n { Pow2Strict(m, n); }
  }

  /** More failures never shorten the pause, and from the third on there is one. */
  lemma BackoffMonotone(m: int, n: int)
    requires m <= n
    ensures 0 <= BackoffFor(m) <= BackoffFor(n) <= TWO_HOURS
    ensures BackoffFor(n) > 0 <==> n >= 3
  {
    if 3 <= m { Pow2Grows(m - 3, n - 3); }
  }

  /** All pauses, in seconds. */
  lemma BackoffTable(fails: int)
    ensures BackoffFor(fails) == 1_000_000_000 *
            if fails < 3 then 0 else if fails >= 8 then 7200 else [300, 600, 1200, 2400, 4800][fails - 3]
  {
    if fails >= 8 { Pow2Grows(5, fails - 3); }
    SmallPowers();
  }

  lemma SmallPowers()
    ensures Pow2(0) == 1 && Pow2(1) == 2 && Pow2(2) == 4 && Pow2(3) == 8 && Pow2(4) == 16 && Pow2(5) == 32
  {
    assert Pow2(3) == 8;
  }

  /** The doubling loop with its early exit computes the capped power. */
  method ComputeBackoff(fails: int) returns (d: int)
    ensures d == BackoffFor(fails)
  {
    if fails < 3 { return 0; }
    d := FIVE_MINUTES;
    var i := 3;
    while i < fails
      invariant 3 <= i <= fails
      invariant d == FIVE_MINUTES * Pow2(i - 3)
    {
      if d >= TWO_HOURS {
        Pow2Grows(i - 3, fails - 3);
        break;
      }
      d := d * 2;
      i := i + 1;
    }
    if d > TWO_HOURS { d := TWO_HOURS; }
  }

  /** The pause before redial number `attempt`. */
  function WsBackoff(attempt: nat): int {
    var a := if attempt > 10 then 10 else attempt;
    Min(60 * SECOND, SECOND * Pow2(a))
  }

  /** The clamp of the exponent at 10 is invisible: the pause is min(60 s, 2^attempt s). */
  lemma WsBackoffClosedForm(attempt: nat)
    ensures WsBackoff(attempt) == Min(60 * SECOND, SECOND * Pow2(attempt))
  {
    if attempt > 10 {
      Pow2Grows(10, attempt);
      Pow2Values();
      Pow2Grows(7, 10);
    }
  }

  /** All redial pauses, in seconds. */
  lemma WsBackoffTable(attempt: nat)
    ensures WsBackoff(attempt) == 1_000_000_000 * if attempt >= 6 then 60 else [1, 2, 4, 8, 16, 32][attempt]
  {
    WsBackoffClosedForm(attempt);
    SmallPowers();
    if attempt >= 6 {
      Pow2Grows(6, attempt);
      assert Pow2(6) == 64;
    }
  }

  /** One pass of the reconnect loop: the dial failed, or a session was served. */
  datatype Dial = DialFailed | Session(lasted: int)

  /** Pass h is the latest successful handshake up to pass i, or the start of the program. */
  ghost predicate Since(dials: seq<Dial>, h: int, i: int) {
    0 <= h <= i < |dials| && (h == 0 || dials[h].Session?) && forall j | h < j <= i :: dials[j].DialFailed?
  }

  /** Every pause is min(60 s, 2^j s), j pauses after the latest handshake or the start. */
  ghost predicate Schedule(dials: seq<Dial>, delays: seq<int>) {
    |delays| == |dials|
    && forall h, i | Since(dials, h, i) :: delays[i] == Min(60 * SECOND, SECOND * Pow2(i - h))
  }

  /** The reconnect loop: the pause after each pass depends only on how many pauses there were
      since the latest successful handshake. */
  method RunWS(dials: seq<Dial>) returns (delays: seq<int>)
    ensures Schedule(dials, delays)
  {
    var attempt: nat := 0;
    delays := [];
    var n := 0;
    while n < |dials|
      invariant 0 <= n <= |dials| && |delays| == n
      invariant forall h, i | Since(dials, h, i) && i < n :: delays[i] == Min(60 * SECOND, SECOND * Pow2(i - h))
      invariant n == 0 ==> attempt == 0
      invariant forall h, i | Since(dials, h, i) && i == n - 1 :: attempt == n - h
    {
      ghost var before := attempt;
      if dials[n].Session? {
        attempt := 0;
        if dials[n].lasted >= HEALTHY_SESSION { attempt := 0; }
      }
      forall h | Since(dials, h, n) ensures attempt == n - h {
        if h < n { assert Since(dials, h, n - 1); }
      }
      WsBackoffClosedForm(attempt);
      delays := delays + [WsBackoff(attempt)];
      attempt := attempt + 1;
      n := n + 1;
    }
  }

  lemma {:induction false} SinceExists(dials: seq<Dial>, i: nat) returns (h: int)
    requires i < |dials|
    ensures Since(dials, h, i)
  {
    if dials[i].Session? || i == 0 {
      h := i;
    } else {
      h := SinceExists(dials, i - 1);
    }
  }

  /** How long a session lasted never matters: any two runs that agree on which dials
      succeeded have the same pauses, so the healthy-session reset changes nothing. */
  lemma SessionLengthInert(d1: seq<Dial>, p1: seq<int>, d2: seq<Dial>, p2: seq<int>)
    requires |d1| == |d2| && Schedule(d1, p1) && Schedule(d2, p2)
    requires forall i | 0 <= i < |d1| :: d1[i].Session? == d2[i].Session?
    ensures p1 == p2
    ensures forall i | 0 <= i < |d1| && d1[i].Session? :: p1[i] == SECOND
  {
    hide Min, Pow2;
    forall i | 0 <= i < |d1| ensures p1[i] == p2[i] {
      var h := SinceExists(d1, i);
      assert Since(d2, h, i);
    }
    forall i | 0 <= i < |d1| && d1[i].Session? ensures p1[i] == SECOND {
      assert Since(d1, i, i);
      OneSecond();
    }
  }

  lemma OneSecond()
    ensures Min(60 * SECOND, SECOND * Pow2(0)) == SECOND
  {
  }
}
