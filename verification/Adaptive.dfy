/** The adaptive rate controller. */
module Adaptive {
  import opened Arithmetic

  const ADAPT_INTERVAL: real := 5.0
  const ADAPT_CLEAR_WINDOWS := 2
  const ADAPT_MIN_RATE := 100

  /** What a decision reads and writes. */
  datatype RateState = RateState(rate: int, streak: nat)

  /** One decision window. The factors 0.8 and 1.1 are taken as exact fractions, rounded down. */
  function Decide(initial: int, s: RateState, failing: bool): RateState {
    if failing then
      var lower := Max(ADAPT_MIN_RATE, s.rate * 8 / 10);
      if lower < s.rate then RateState(lower, 0) else s
    else
      var streak := s.streak + 1;
      if streak >= ADAPT_CLEAR_WINDOWS && s.rate < initial then
        RateState(Min(initial, Max(s.rate * 11 / 10, s.rate + 1)), streak)
      else RateState(s.rate, streak)
  }

  /** When the last decision was made, and the number of failures by then. */
  datatype Mark = Mark(time: real, failTotal: int)

  /** A tick decides nothing in the grace period or too soon after the last decision. */
  predicate Due(grace: real, startTime: real, mark: Mark, now: real) {
    now - startTime > grace && now - mark.time >= ADAPT_INTERVAL
  }

  /** `_per_worker_rate`; 0 means unlimited. */
  function PerWorkerRate(rate: int, workers: nat): int
    requires workers >= 1
  {
    if rate <= 0 then 0 else Max(1, rate / workers)
  }

  class RateController {
    const initial: int
    const grace: real
    const slots: array<int>       // rate_limit_array
    var rateLimit: int
    var adaptLast: real
    var clearStreak: nat
    var lastFailTotal: int

    ghost predicate Valid()
      reads this, slots
    {
      slots.Length >= 1
      && forall w :: 0 <= w < slots.Length ==> slots[w] == PerWorkerRate(rateLimit, slots.Length)
    }

    ghost function State(): RateState
      reads this
    {
      RateState(rateLimit, clearStreak)
    }

    ghost function LastMark(): Mark
      reads this
    {
      Mark(adaptLast, lastFailTotal)
    }

    constructor (initial: int, workers: nat, grace: real, startTime: real)
      requires workers >= 1
      ensures Valid() && fresh(slots) && slots.Length == workers && this.initial == initial && this.grace == grace
      ensures State() == RateState(initial, 0) && LastMark() == Mark(startTime, 0)
    {
      this.initial, this.grace := initial, grace;
      rateLimit, clearStreak, lastFailTotal, adaptLast := initial, 0, 0, startTime;
      slots := new int[workers](_ => PerWorkerRate(initial, workers));
    }

    /** `_set_rate_limit`. */
    method SetRateLimit(newLimit: int)
      requires slots.Length >= 1
      modifies `rateLimit, slots
      ensures Valid() && rateLimit == newLimit
    {
      rateLimit := newLimit;
      var rpw := PerWorkerRate(rateLimit, slots.Length);
      for idx := 0 to slots.Length
        invariant forall w :: 0 <= w < idx ==> slots[w] == rpw
        invariant rateLimit == newLimit
      {
        slots[idx] := rpw;
      }
    }

    /** `_adaptive_tick`. A due tick is one decision on the failures since the last one. */
    method Tick(now: real, startTime: real, failTotal: int, lastWarning: real) returns (warned: real)
      requires Valid()
      modifies this, slots
      ensures Valid()
      ensures var due := Due(grace, startTime, old(LastMark()), now);
              && State() == (if due then Decide(initial, old(State()), failTotal > old(lastFailTotal))
                             else old(State()))
              && LastMark() == (if due then Mark(now, failTotal) else old(LastMark()))
              && warned == if rateLimit != old(rateLimit) && now - lastWarning > 10.0 then now else lastWarning
    {
      warned := lastWarning;
      if now - startTime <= grace { return; }
      if now - adaptLast < ADAPT_INTERVAL { return; }
      adaptLast := now;
      var fails := failTotal - lastFailTotal;
      lastFailTotal := failTotal;
      if fails > 0 {
        var newLimit := Max(ADAPT_MIN_RATE, rateLimit * 8 / 10);
        if newLimit < rateLimit {
          SetRateLimit(newLimit);
          clearStreak := 0;
          if now - lastWarning > 10.0 { warned := now; }
        }
      } else {
        clearStreak := clearStreak + 1;
        if clearStreak >= ADAPT_CLEAR_WINDOWS && rateLimit < initial {
          var newLimit := Min(initial, Max(rateLimit * 11 / 10, rateLimit + 1));
          if newLimit > rateLimit {
            SetRateLimit(newLimit);
            if now - lastWarning > 10.0 { warned := now; }
          }
        }
      }
    }
  }

  // ----- Every run of decisions -----

  /** The state after a sequence of windows; true is a window with send failures. */
  function After(initial: int, s: RateState, windows: seq<bool>): RateState
  {
    if windows == [] then s
    else Decide(initial, After(initial, s, windows[..|windows| - 1]), windows[|windows| - 1])
  }

  /** The rate never leaves [min(initial, 100), initial]. */
  lemma {:induction false} RateStaysInBounds(initial: int, windows: seq<bool>)
    requires initial > 0
    ensures Min(initial, ADAPT_MIN_RATE) <= After(initial, RateState(initial, 0), windows).rate <= initial
  {
    if windows != [] { RateStaysInBounds(initial, windows[..|windows| - 1]); }
  }

  /** A limit of 0 or less means unlimited, and stays as it is. */
  lemma {:induction false} UnlimitedStays(initial: int, windows: seq<bool>)
    requires initial <= 0
    ensures After(initial, RateState(initial, 0), windows).rate == initial
  {
    if windows != [] { UnlimitedStays(initial, windows[..|windows| - 1]); }
  }

  /** With a positive rate no slot is ever 0, which would mean unlimited, and the slots together
      do not exceed the rate, or one packet per second and worker; rounding loses less than that. */
  lemma SlotsShareTheRate(rate: int, slots: seq<int>)
    requires rate > 0 && slots != []
    requires forall w :: 0 <= w < |slots| ==> slots[w] == PerWorkerRate(rate, |slots|)
    ensures forall w :: 0 <= w < |slots| ==> slots[w] >= 1
    ensures rate - |slots| < Sum(slots) <= Max(rate, |slots|)
  {
    ShareFits(rate, |slots|);
    SumOfEqual(slots, PerWorkerRate(rate, |slots|));
  }

  lemma ShareFits(rate: int, n: nat)
    requires rate > 0 && n >= 1
    ensures PerWorkerRate(rate, n) >= 1 && rate - n < n * PerWorkerRate(rate, n) <= Max(rate, n)
  {
    var q := rate / n;
    DivNonNegative(rate, n);
    if q == 0 { assert PerWorkerRate(rate, n) == 1; } else { DigitOfQuotient(rate, n); }
  }

  // ----- Every run of the controller -----

  /** What the main loop passes to a tick: the time, and the failures of all workers so far. */
  datatype Reading = Reading(now: real, failTotal: int)

  function MarkAfter(grace: real, startTime: real, readings: seq<Reading>): Mark {
    if readings == [] then Mark(startTime, 0)
    else
      var n := |readings| - 1;
      var mark, r := MarkAfter(grace, startTime, readings[..n]), readings[n];
      if Due(grace, startTime, mark, r.now) then Mark(r.now, r.failTotal) else mark
  }

  /** The decision windows of a run: one for each tick that was due. */
  function WindowsOf(grace: real, startTime: real, readings: seq<Reading>): seq<bool> {
    if readings == [] then []
    else
      var n := |readings| - 1;
      var mark, r := MarkAfter(grace, startTime, readings[..n]), readings[n];
      WindowsOf(grace, startTime, readings[..n])
      + if Due(grace, startTime, mark, r.now) then [r.failTotal > mark.failTotal] else []
  }

  /** The controller over a whole scan: whatever the ticks read, its rate stays within bounds and the
      slots of the workers share it. Stopping anywhere, this holds at every moment of a scan. */
  method RunTicks(initial: int, workers: nat, grace: real, startTime: real, readings: seq<Reading>)
    returns (c: RateController)
    requires workers >= 1
    ensures fresh(c) && c.Valid() && c.slots.Length == workers
    ensures c.State() == After(initial, RateState(initial, 0), WindowsOf(grace, startTime, readings))
    ensures initial > 0 ==> Min(initial, ADAPT_MIN_RATE) <= c.rateLimit <= initial
    ensures initial > 0 ==> (forall w :: 0 <= w < workers ==> c.slots[w] >= 1)
                            && c.rateLimit - workers < Sum(c.slots[..]) <= Max(c.rateLimit, workers)
    ensures initial <= 0 ==> c.rateLimit == initial && forall w :: 0 <= w < workers ==> c.slots[w] == 0
  {
    c := new RateController(initial, workers, grace, startTime);
    var warned := 0.0;
    for i := 0 to |readings|
      invariant fresh(c) && fresh(c.slots) && c.Valid() && c.slots.Length == workers
      invariant c.initial == initial && c.grace == grace
      invariant c.LastMark() == MarkAfter(grace, startTime, readings[..i])
      invariant c.State() == After(initial, RateState(initial, 0), WindowsOf(grace, startTime, readings[..i]))
    {
      assert readings[..i + 1][..i] == readings[..i];
      OneMoreWindow(initial, RateState(initial, 0), WindowsOf(grace, startTime, readings[..i]));
      warned := c.Tick(readings[i].now, startTime, readings[i].failTotal, warned);
    }
    assert readings[..|readings|] == readings;
    var windows := WindowsOf(grace, startTime, readings);
    if initial > 0 {
      RateStaysInBounds(initial, windows);
      SlotsShareTheRate(c.rateLimit, c.slots[..]);
      assert forall w :: 0 <= w < workers ==> c.slots[w] == c.slots[..][w];
    } else {
      UnlimitedStays(initial, windows);
    }
  }

  lemma OneMoreWindow(initial: int, s: RateState, windows: seq<bool>)
    ensures windows + [] == windows
    ensures forall failing ::
      After(initial, s, windows + [failing]) == Decide(initial, After(initial, s, windows), failing)
  {
    forall failing
      ensures After(initial, s, windows + [failing]) == Decide(initial, After(initial, s, windows), failing)
    {
      assert (windows + [failing])[..|windows|] == windows;
    }
  }

  // ----- The floating-point factors -----

  /** The doubles written 0.8 and 1.1. */
  const DOWN: real := 3602879701896397.0 / 4503599627370496.0
  const UP: real := 2476979795053773.0 / 2251799813685248.0

  const TWO53: real := 9007199254740992.0

  /** What round-to-nearest guarantees of a product p of two doubles, 0 <= p < 2^53: the result is off
      by at most p / 2^53, and it does not cross an integer, since integers are doubles. */
  predicate RoundsTo(p: real, y: real) {
    && p - p / TWO53 <= y <= p + p / TWO53
    && p.Floor as real <= y <= (p.Floor + 1) as real
  }

  /** `int(rate * 0.8)` and `int(rate * 1.1)` in doubles are the exact fractions rounded down, for
      every rate below 2^48. */
  lemma FactorsExact(rate: int, y: real)
    requires 0 <= rate < 0x1_0000_0000_0000
    ensures RoundsTo(rate as real * DOWN, y) ==> y.Floor == rate * 8 / 10
    ensures RoundsTo(rate as real * UP, y) ==> y.Floor == rate * 11 / 10
  {
    ScaleExact(rate, 8, rate as real * DOWN, y);
    ScaleExact(rate, 11, rate as real * UP, y);
  }

  /** A product that exceeds a number of tenths by less than a twentieth, rounded and truncated. */
  lemma ScaleExact(rate: int, tenths: int, p: real, y: real)
    requires rate >= 0 && tenths >= 0
    requires (rate * tenths) as real / 10.0 <= p < (rate * tenths) as real / 10.0 + 0.05
    requires p / TWO53 < 0.05
    ensures RoundsTo(p, y) ==> y.Floor == rate * tenths / 10
  {
    var q, r := rate * tenths / 10, rate * tenths % 10;
    assert rate * tenths == 10 * q + r;
    assert (rate * tenths) as real / 10.0 == q as real + r as real / 10.0;
    assert p.Floor == q;
    if RoundsTo(p, y) { assert y < (q + 1) as real; }
  }

  // ----- How far one window moves the rate -----

  /** A failing window above the floor takes a fifth off, rounded down, but stops at the floor of 100;
      so do the doubles. At or below the floor it changes nothing. */
  lemma BackOff(initial: int, s: RateState)
    ensures var t := Decide(initial, s, true);
            if s.rate <= 100 then t == s
            else
              && t.streak == 0 && 100 <= t.rate < s.rate
              && (10 * t.rate <= 8 * s.rate < 10 * t.rate + 10 || (t.rate == 100 && 8 * s.rate < 1000))
              && forall y: real :: s.rate < 0x1_0000_0000_0000 && RoundsTo(s.rate as real * DOWN, y) ==>
                   t.rate == Max(100, y.Floor)
  {
    forall y: real | 100 < s.rate < 0x1_0000_0000_0000 && RoundsTo(s.rate as real * DOWN, y)
      ensures Decide(initial, s, true).rate == Max(100, y.Floor)
    {
      FactorsExact(s.rate, y);
    }
  }

  /** The second clear window in a row, and each one after it, adds a tenth, rounded down, but at least
      1, and stops at the initial rate; so do the doubles. The first one only counts. */
  lemma Raise(initial: int, s: RateState)
    requires s.rate > 0
    ensures var t := Decide(initial, s, false);
            && t.streak == s.streak + 1
            && if s.streak == 0 || s.rate >= initial then t.rate == s.rate
               else
                 && s.rate < t.rate <= initial
                 && (t.rate < initial ==>
                       10 * t.rate <= 11 * s.rate < 10 * t.rate + 10 || (t.rate == s.rate + 1 && s.rate < 10))
                 && (t.rate == initial ==> 10 * initial <= 11 * s.rate || initial == s.rate + 1)
                 && forall y: real :: s.rate < 0x1_0000_0000_0000 && RoundsTo(s.rate as real * UP, y) ==>
                      t.rate == Min(initial, Max(y.Floor, s.rate + 1))
  {
    forall y: real | s.streak > 0 && s.rate < initial && s.rate < 0x1_0000_0000_0000 && RoundsTo(s.rate as real * UP, y)
      ensures Decide(initial, s, false).rate == Min(initial, Max(y.Floor, s.rate + 1))
    {
      FactorsExact(s.rate, y);
    }
  }

  function Failing(n: nat): seq<bool> { seq(n, _ => true) }

  function Power(b: nat, n: nat): nat { if n == 0 then 1 else b * Power(b, n - 1) }

  /** n failing windows in a row bring the rate down to four fifths to the n-th, or to the floor. */
  lemma {:induction false} FailuresBackOff(initial: int, s: RateState, n: nat)
    requires s.rate >= 100
    ensures var t := After(initial, s, Failing(n));
            100 <= t.rate <= s.rate && (t.rate == 100 || Power(5, n) * t.rate <= Power(4, n) * s.rate)
  {
    if n > 0 {
      assert Failing(n)[..n - 1] == Failing(n - 1);
      FailuresBackOff(initial, s, n - 1);
      var r, t := After(initial, s, Failing(n - 1)), After(initial, s, Failing(n));
      assert t == Decide(initial, r, true);
      BackOff(initial, r);
      hide Decide, After;
      if t.rate > 100 { FourFifths(Power(5, n - 1), t.rate, r.rate, Power(4, n - 1) * s.rate); }
    }
  }

  lemma FourFifths(p: nat, t: nat, r: nat, bound: int)
    requires 5 * t <= 4 * r && p * r <= bound
    ensures 5 * p * t <= 4 * bound
  {
    MulMonotone(5 * t, 4 * r, p);
    assert 5 * p * t == 5 * t * p && 4 * r * p == 4 * (p * r);
  }

  /** So the rate is at the floor as soon as four fifths to the n-th take it below 101. */
  lemma FailuresReachFloor(initial: int, s: RateState, n: nat)
    requires s.rate >= 100 && Power(4, n) * s.rate < 101 * Power(5, n)
    ensures After(initial, s, Failing(n)).rate == 100
  {
    hide After, Power;
    FailuresBackOff(initial, s, n);
    var t := After(initial, s, Failing(n));
    if t.rate > 100 { MulMonotone(101, t.rate, Power(5, n)); }
  }

  // ----- When decisions are made -----

  /** Decisions are at least 5 seconds apart, the first at least 5 seconds after the start and past the
      grace period; and no tick past the grace period leaves one out that is 5 seconds old. */
  lemma {:induction false} DecisionTimes(grace: real, startTime: real, readings: seq<Reading>)
    ensures var mark, windows := MarkAfter(grace, startTime, readings), WindowsOf(grace, startTime, readings);
            && 5.0 * |windows| as real <= mark.time - startTime
            && (windows != [] ==> mark.time - startTime > grace)
            && (windows == [] ==> mark == Mark(startTime, 0))
            && (readings != [] ==>
                  var now := readings[|readings| - 1].now; now - startTime <= grace || now - mark.time < 5.0)
  {
    if readings != [] { DecisionTimes(grace, startTime, readings[..|readings| - 1]); }
  }

  // ----- Recovery -----

  function Clear(n: nat): seq<bool> { seq(n, _ => false) }

  /** n clear windows in a row raise the rate by at least n - 1, up to the initial rate. */
  lemma {:induction false} ClearWindowsRaise(initial: int, s: RateState, n: nat)
    requires s.rate <= initial
    ensures var t := After(initial, s, Clear(n));
            s.rate <= t.rate <= initial && t.streak == s.streak + n && t.rate >= Min(initial, s.rate + n - 1)
  {
    if n > 0 {
      assert Clear(n)[..n - 1] == Clear(n - 1);
      ClearWindowsRaise(initial, s, n - 1);
    }
  }

  /** After any run, 1 + (initial - rate) clear windows in a row restore the initial rate. */
  lemma Recovers(initial: int, windows: seq<bool>, n: nat)
    requires initial > 0
    requires n >= 1 + (initial - After(initial, RateState(initial, 0), windows).rate)
    ensures After(initial, After(initial, RateState(initial, 0), windows), Clear(n)).rate == initial
  {
    RateStaysInBounds(initial, windows);
    ClearWindowsRaise(initial, After(initial, RateState(initial, 0), windows), n);
  }

  // ----- Hysteresis, and where it does not hold -----

  /** A failing window is meant to restart the count of clear windows. The very next clear window
      raises the rate all the same exactly when the failing one found the rate at or below the floor
      of 100 with a clear window already counted: there is no reduction, and so no reset. */
  lemma RaiseRightAfterFailureIff(initial: int, s: RateState)
    ensures var failed := Decide(initial, s, true);
            Decide(initial, failed, false).rate > failed.rate <==>
            s.rate <= ADAPT_MIN_RATE && s.streak >= 1 && s.rate < initial
  {
  }

  /** In every run a raise comes in a clear window, and the window before it was clear too unless
      the rate was at or below the floor. */
  lemma RaiseFollowsTwoClear(initial: int, windows: seq<bool>)
    requires initial > 0 && |windows| >= 2
    requires After(initial, RateState(initial, 0), windows).rate >
             After(initial, RateState(initial, 0), windows[..|windows| - 1]).rate
    ensures !windows[|windows| - 1]
    ensures windows[|windows| - 2] ==>
            After(initial, RateState(initial, 0), windows[..|windows| - 2]).rate <= ADAPT_MIN_RATE
  {
    var n := |windows|;
    assert windows[..n - 1][..n - 2] == windows[..n - 2];
    RaiseRightAfterFailureIff(initial, After(initial, RateState(initial, 0), windows[..n - 2]));
  }

  /** Down to the floor, then clear, failing, clear: raised after a single clear window. */
  lemma FloorRaise()
    ensures After(101, RateState(101, 0), [true, false, true]).rate == 100
    ensures After(101, RateState(101, 0), [true, false, true, false]).rate == 101
  {
    var w := [true, false, true, false];
    assert w[..3] == [true, false, true] && w[..3][..2] == [true, false] && w[..3][..2][..1] == [true];
    assert [true, false, true][..2] == [true, false] && [true, false][..1] == [true] && [true][..0] == [];
    assert After(101, RateState(101, 0), [true]) == RateState(100, 0);
    assert After(101, RateState(101, 0), [true, false]) == RateState(100, 1);
    assert After(101, RateState(101, 0), [true, false, true]) == RateState(100, 1);
  }
}
