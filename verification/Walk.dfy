/** The send workers' walk over the probe indices, whatever the index-to-probe mapping is. */
module Walk {
  import opened Arithmetic
  import opened Partition

  const MAX_BLACKLIST_ATTEMPTS := 10000

  /** A probe handed to send: which address, which port, which UDP payload. */
  datatype Probe = Probe(ip: nat, port: nat, payload: nat)

  /** The index space [0, total): which indices lead to a public address, and the probe of each. */
  datatype Track = Track(total: nat, public: nat -> bool, probe: nat -> Probe) {
    predicate Public(n: nat) { public(n) }

    function Probe(n: nat): Probe { probe(n) }

    /** No index leads to a blacklisted address. */
    ghost predicate AllPublic() { forall n: nat :: n < total ==> Public(n) }
  }

  /** What a worker sees of the run flag after skipping index n. */
  predicate SeesStop(stopped: nat -> bool, n: nat) { stopped(n) }

  datatype Outcome =
    | Filled    // the batch is full
    | Finished  // ran past the last index
    | Tripped   // more than MAX_BLACKLIST_ATTEMPTS blacklisted candidates in a row
    | Stopped   // saw the run flag cleared by someone else

  datatype Batch = Batch(probes: seq<Probe>, next: nat, outcome: Outcome) {
    /** A batch that trips or is stopped is dropped unsent. */
    predicate Sent() { outcome.Filled? || outcome.Finished? }
  }

  /** Where a search for the next public index ends: at that index (Filled), or short of one. */
  datatype Hop = Hop(at: nat, outcome: Outcome)

  /** The next public index from cur on. */
  function Next(t: Track, stopped: nat -> bool, cur: nat, step: nat, attempts: nat): (h: Hop)
    requires step >= 1
    ensures h.at >= cur && (h.outcome.Filled? ==> h.at < t.total)
    decreases t.total - cur
  {
    if cur >= t.total then Hop(cur, Finished)
    else if t.Public(cur) then Hop(cur, Filled)
    else if attempts + 1 > MAX_BLACKLIST_ATTEMPTS then Hop(cur + step, Tripped)
    else if SeesStop(stopped, cur) then Hop(cur + step, Stopped)
    else Next(t, stopped, cur + step, step, attempts + 1)
  }

  /** One batch of the cache-free walk: collect `want` probes from index cur on. */
  function Fill(t: Track, stopped: nat -> bool, cur: nat, step: nat, want: nat): Batch
    requires step >= 1
    decreases want
  {
    if want == 0 then Batch([], cur, Filled)
    else
      var h := Next(t, stopped, cur, step, 0);
      if h.outcome.Filled? then Prepend(t.Probe(h.at), Fill(t, stopped, h.at + step, step, want - 1))
      else Batch([], h.at, h.outcome)
  }

  lemma CollectNone(t: Track, stopped: nat -> bool, ps: seq<Probe>, cur: nat, step: nat)
    requires step >= 1
    ensures PrependAll(ps, Fill(t, stopped, cur, step, 0)) == Batch(ps, cur, Filled)
  {
    assert ps + [] == ps;
  }

  /** One more turn of a batch loop that has collected ps and still wants `want` probes. */
  lemma CollectOne(t: Track, stopped: nat -> bool, ps: seq<Probe>, cur: nat, step: nat, want: nat)
    requires step >= 1 && want >= 1
    ensures var h := Next(t, stopped, cur, step, 0);
            PrependAll(ps, Fill(t, stopped, cur, step, want)) ==
              if h.outcome.Filled? then
                PrependAll(ps + [t.Probe(h.at)], Fill(t, stopped, h.at + step, step, want - 1))
              else Batch(ps, h.at, h.outcome)
  {
    var h := Next(t, stopped, cur, step, 0);
    if h.outcome.Filled? {
      var rest := Fill(t, stopped, h.at + step, step, want - 1).probes;
      assert ps + ([t.Probe(h.at)] + rest) == (ps + [t.Probe(h.at)]) + rest;
    } else {
      assert ps + [] == ps;
    }
  }

  function Prepend(p: Probe, b: Batch): Batch { b.(probes := [p] + b.probes) }

  function PrependAll(ps: seq<Probe>, b: Batch): Batch { b.(probes := ps + b.probes) }

  /** What visiting the given indices emits: a blacklisted address emits nothing. */
  function Emissions(t: Track, indices: seq<nat>): seq<Probe>
  {
    if indices == [] then []
    else (if t.Public(indices[0]) then [t.Probe(indices[0])] else []) + Emissions(t, indices[1..])
  }

  lemma {:induction false} EmissionsConcat(t: Track, a: seq<nat>, b: seq<nat>)
    ensures Emissions(t, a + b) == Emissions(t, a) + Emissions(t, b)
  {
    if a == [] {
      assert a + b == b;
    } else {
      EmissionsConcat(t, a[1..], b);
      assert (a + b)[1..] == a[1..] + b;
    }
  }

  /** The emissions of one worker between two points of its progression. */
  function Emitted(t: Track, from: nat, to: int, step: nat): seq<Probe>
    requires step >= 1
  {
    Emissions(t, Progression(from, to, step))
  }

  /** to is a later point of the progression that starts at from, and not beyond the first one
      at or past the end. */
  predicate OnCourse(total: nat, from: nat, to: int, step: nat)
    requires step >= 1
  {
    from <= to && (to - from) % step == 0 && (from < to ==> to - step < total)
  }

  /** A search passes over nothing but blacklisted indices of the progression. */
  lemma {:induction false} NextSkips(t: Track, stopped: nat -> bool, cur: nat, step: nat, attempts: nat)
    requires step >= 1
    ensures var h := Next(t, stopped, cur, step, attempts);
            && OnCourse(t.total, cur, h.at, step)
            && (h.outcome.Filled? ==> t.Public(h.at))
            && (h.outcome.Finished? ==> h.at >= t.total)
            && (h.outcome.Filled? || h.outcome.Finished? ==> Emitted(t, cur, h.at, step) == [])
    decreases t.total - cur
  {
    SmallMod(0, step);
    if cur < t.total && !t.Public(cur) {
      if attempts + 1 > MAX_BLACKLIST_ATTEMPTS || SeesStop(stopped, cur) {
        DivModUnique(step, step, 1, 0);
      } else {
        NextSkips(t, stopped, cur + step, step, attempts + 1);
        StepAhead(cur, Next(t, stopped, cur, step, attempts).at, step);
      }
    }
  }

  lemma OneStep(t: Track, n: nat, step: nat)
    requires step >= 1 && n < t.total && t.Public(n)
    ensures OnCourse(t.total, n, n + step, step) && Emitted(t, n, n + step, step) == [t.Probe(n)]
  {
    DivModUnique(step, step, 1, 0);
    assert Progression(n + step, n + step, step) == [];
    assert Progression(n, n + step, step) == [n];
    assert Emissions(t, [n]) == [t.Probe(n)] + Emissions(t, []) by { assert ([n])[1..] == []; }
  }

  /** A batch that is sent emits exactly what its stretch of the progression calls for. */
  lemma {:induction false} FillEmits(t: Track, stopped: nat -> bool, cur: nat, step: nat, want: nat)
    requires step >= 1
    ensures var b := Fill(t, stopped, cur, step, want);
            && OnCourse(t.total, cur, b.next, step)
            && (b.Sent() ==> b.probes == Emitted(t, cur, b.next, step))
            && (b.outcome.Filled? ==> |b.probes| == want && (want >= 1 ==> b.next > cur))
            && (b.outcome.Finished? ==> b.next >= t.total)
    decreases want
  {
    SmallMod(0, step);
    if want > 0 {
      NextSkips(t, stopped, cur, step, 0);
      var h := Next(t, stopped, cur, step, 0);
      if h.outcome.Filled? {
        var b := Fill(t, stopped, h.at + step, step, want - 1);
        FillEmits(t, stopped, h.at + step, step, want - 1);
        OneStep(t, h.at, step);
        EmittedJoin(t, h.at, h.at + step, b.next, step);
        EmittedJoin(t, cur, h.at, b.next, step);
      }
    }
  }

  /** Consecutive stretches of a worker's walk join up. */
  lemma EmittedJoin(t: Track, from: nat, mid: nat, to: nat, step: nat)
    requires step >= 1 && OnCourse(t.total, from, mid, step) && OnCourse(t.total, mid, to, step)
    ensures OnCourse(t.total, from, to, step)
    ensures Emitted(t, from, to, step) == Emitted(t, from, mid, step) + Emitted(t, mid, to, step)
  {
    CongruentDifference(to, from, step);
    CongruentDifference(mid, from, step);
    CongruentDifference(to, mid, step);
    ProgressionSplit(from, mid, to, step);
    EmissionsConcat(t, Progression(from, mid, step), Progression(mid, to, step));
  }

  /** A frontier at or past the end means the whole progression was visited. */
  lemma {:induction false} CompletedWalk(t: Track, from: nat, to: int, step: nat)
    requires step >= 1 && OnCourse(t.total, from, to, step) && to >= t.total
    ensures Progression(from, to, step) == Progression(from, t.total, step)
    decreases if to > from then to - from else 0
  {
    if from < to {
      StepAhead(from, to, step);
      CompletedWalk(t, from + step, to, step);
    }
  }

  /** The i-th candidate of a search. */
  function Candidate(cur: nat, step: nat, i: nat): nat { cur + i * step }

  /** The first m candidates exist and are blacklisted, and the flag is seen cleared after none of them. */
  ghost predicate Skipped(t: Track, stopped: nat -> bool, cur: nat, step: nat, m: nat) {
    forall i: nat :: i < m ==>
      var n := Candidate(cur, step, i); n < t.total && !t.Public(n) && !SeesStop(stopped, n)
  }

  /** Where a search that has tried `attempts` candidates ends, without the recursion: after m skipped
      ones, either at the end, or at a public index, or at a blacklisted one that is one too many or is
      followed by the flag being seen cleared. */
  lemma {:induction false} NextIs(t: Track, stopped: nat -> bool, cur: nat, step: nat, attempts: nat) returns (m: nat)
    requires step >= 1 && attempts <= MAX_BLACKLIST_ATTEMPTS
    ensures var h, n := Next(t, stopped, cur, step, attempts), Candidate(cur, step, m);
            && Skipped(t, stopped, cur, step, m) && attempts + m <= MAX_BLACKLIST_ATTEMPTS
            && (h.outcome.Stopped? ==> SeesStop(stopped, n))
            && h == (if n >= t.total then Hop(n, Finished)
                     else if t.Public(n) then Hop(n, Filled)
                     else if attempts + m == MAX_BLACKLIST_ATTEMPTS then Hop(n + step, Tripped)
                     else Hop(n + step, Stopped))
    decreases MAX_BLACKLIST_ATTEMPTS - attempts
  {
    assert Candidate(cur, step, 0) == cur;
    if cur >= t.total || t.Public(cur) || attempts == MAX_BLACKLIST_ATTEMPTS || SeesStop(stopped, cur) {
      m := 0;
    } else {
      var k := NextIs(t, stopped, cur + step, step, attempts + 1);
      m := k + 1;
      hide Next, Candidate;
      NextCandidate(cur, step, k);
      forall i: nat | i < m
        ensures var n := Candidate(cur, step, i); n < t.total && !t.Public(n) && !SeesStop(stopped, n)
      {
        if i > 0 { NextCandidate(cur, step, i - 1); }
      }
    }
  }

  lemma NextCandidate(cur: nat, step: nat, i: nat)
    ensures Candidate(cur, step, i + 1) == Candidate(cur + step, step, i)
  {
    MulLess(i + 1, step);
  }

  ghost predicate AllBlacklisted(t: Track, xs: seq<nat>) {
    forall n: nat :: n in xs ==> n < t.total && !t.Public(n)
  }

  lemma AllBlacklistedFirst(t: Track, cur: nat, limit: nat, step: nat)
    requires step >= 1 && cur < limit
    ensures AllBlacklisted(t, Progression(cur, limit, step)) <==>
            cur < t.total && !t.Public(cur) && AllBlacklisted(t, Progression(cur + step, limit, step))
  {
    var all, tail := Progression(cur, limit, step), Progression(cur + step, limit, step);
    assert all == [cur] + tail;
    hide Progression;
    assert cur in all && forall n: nat :: n in all <==> n == cur || n in tail;
  }

  /** Left to run, the guard trips exactly when the next 10,001 candidates exist and are all
      blacklisted; limit is just past the last of those still to be skipped. */
  lemma {:induction false} TripsIff(t: Track, stopped: nat -> bool, cur: nat, step: nat, attempts: nat, limit: nat)
    requires step >= 1 && attempts <= MAX_BLACKLIST_ATTEMPTS && forall n: nat :: !SeesStop(stopped, n)
    requires limit == cur + (MAX_BLACKLIST_ATTEMPTS - attempts) * step + 1
    ensures Next(t, stopped, cur, step, attempts).outcome.Tripped? <==> AllBlacklisted(t, Progression(cur, limit, step))
    decreases MAX_BLACKLIST_ATTEMPTS - attempts
  {
    hide Progression, AllBlacklisted;
    var m := MAX_BLACKLIST_ATTEMPTS - attempts;
    MulMonotone(0, m, step);
    AllBlacklistedFirst(t, cur, limit, step);
    if m == 0 {
      NoneLeft(t, cur + step, limit, step);
    } else {
      MulLess(m, step);
      TripsIff(t, stopped, cur + step, step, attempts + 1, limit);
    }
  }

  /** For a fresh search: 10,001 candidates in a row. */
  lemma TripsAfterTenThousand(t: Track, stopped: nat -> bool, cur: nat, step: nat)
    requires step >= 1 && forall n: nat :: !SeesStop(stopped, n)
    ensures |Progression(cur, cur + 10_000 * step + 1, step)| == 10_001
    ensures Next(t, stopped, cur, step, 0).outcome.Tripped? <==>
            AllBlacklisted(t, Progression(cur, cur + 10_000 * step + 1, step))
  {
    hide AllBlacklisted, Progression, Next;
    TripsIff(t, stopped, cur, step, 0, cur + 10_000 * step + 1);
    ProgressionLength(cur, 10_000, step);
  }

  lemma {:induction false} ProgressionLength(cur: nat, n: nat, step: nat)
    requires step >= 1
    ensures |Progression(cur, cur + n * step + 1, step)| == n + 1
    decreases n
  {
    MulMonotone(0, n, step);
    if n == 0 {
      assert Progression(cur + step, cur + 1, step) == [];
    } else {
      MulLess(n, step);
      ProgressionLength(cur + step, n - 1, step);
    }
  }

  lemma NoneLeft(t: Track, cur: nat, limit: nat, step: nat)
    requires step >= 1 && cur >= limit
    ensures AllBlacklisted(t, Progression(cur, limit, step))
  {
  }

  lemma MulLess(m: int, step: int)
    ensures m * step == step + (m - 1) * step
  {
  }

  /** Where nothing is blacklisted the guard cannot trip, and every batch is sent. */
  lemma {:induction false} NeverTripped(t: Track, stopped: nat -> bool, cur: nat, step: nat, want: nat)
    requires step >= 1 && t.AllPublic()
    ensures Fill(t, stopped, cur, step, want).Sent()
    decreases want
  {
    if want > 0 && cur < t.total { NeverTripped(t, stopped, cur + step, step, want - 1); }
  }
}
