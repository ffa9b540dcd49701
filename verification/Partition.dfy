/** How shards and workers divide the probe indices among themselves. */
module Partition {
  import opened Arithmetic

  /** Every caller passes 0 <= shardId < shards and 0 <= workerId < workers. */
  predicate ValidIds(shards: int, shardId: int, workers: int, workerId: int) {
    0 <= shardId < shards && 0 <= workerId < workers
  }

  function Step(shards: int, workers: int): int {
    if shards > 1 then workers * shards else workers
  }

  function FirstIndex(start: nat, shards: int, shardId: int, workerId: int): int
    requires shards >= 1
  {
    if shards > 1 then start + (shardId - start) % shards + workerId * shards else start + workerId
  }

  /** C's `%`, which truncates toward zero. */
  function CRem(a: int, m: int): int
    requires m > 0
  {
    if a >= 0 then a % m else -((-a) % m)
  }

  /** The C worker's first index: a truncated remainder, corrected for its sign. */
  function CFirstIndex(start: nat, shards: int, shardId: int, workerId: int): int
    requires shards >= 1
  {
    if shards > 1 then start + CRem(CRem(shardId - start, shards) + shards, shards) + workerId * shards
    else start + workerId
  }

  lemma CFirstIndexAgrees(start: nat, shards: int, shardId: int, workerId: int)
    requires shards >= 1
    ensures CFirstIndex(start, shards, shardId, workerId) == FirstIndex(start, shards, shardId, workerId)
  {
    var a := shardId - start;
    var t := CRem(a, shards);
    assert (t - a) % shards == 0 by {
      if a < 0 {
        DivModUnique(t - a, shards, (-a) / shards, 0);
      } else {
        DivModUnique(t - a, shards, -(a / shards), 0);
      }
    }
    CongruentDifference(t, a, shards);
    CongruentDifference(t + shards, t, shards);
    DivModUnique(shards, shards, 1, 0);
  }

  /** Worker workerId of shard shardId visits n, sooner or later. */
  predicate Visits(start: nat, shards: int, shardId: int, workers: int, workerId: int, n: int)
    requires shards >= 1 && workers >= 1 && Step(shards, workers) > 0
  {
    var first := FirstIndex(start, shards, shardId, workerId);
    n >= first && (n - first) % Step(shards, workers) == 0
  }

  /** The first index of a shard at or after start. */
  function ShardBase(start: nat, shards: int, shardId: int): int
    requires shards >= 1
  {
    start + (shardId - start) % shards
  }

  /** Which worker of its shard an index belongs to. */
  function OwnerWorker(start: nat, shards: int, workers: int, n: int): int
    requires shards >= 1 && workers >= 1
  {
    (n - ShardBase(start, shards, n % shards)) / shards % workers
  }

  lemma ShardBaseFacts(start: nat, shards: int, shardId: int)
    requires 0 <= shardId < shards
    ensures start <= ShardBase(start, shards, shardId) < start + shards
    ensures ShardBase(start, shards, shardId) % shards == shardId
    ensures shards == 1 ==> ShardBase(start, shards, shardId) == start
  {
    var b := ShardBase(start, shards, shardId);
    var d := shardId - start;
    DivModUnique(b - shardId, shards, -(d / shards), 0);
    CongruentDifference(b, shardId, shards);
    SmallMod(shardId, shards);
  }

  lemma StepPositive(shards: int, workers: int)
    requires shards >= 1 && workers >= 1
    ensures Step(shards, workers) == workers * shards >= 1
  {
    MulMonotone(1, workers, shards);
  }

  /** Worker 0 starts at the first index of the shard at or past the start, each further worker one
      shard round later, and each of them goes on by a round of all workers. */
  lemma FirstIndicesAre(start: nat, shards: int, shardId: int, workers: int, workerId: int, n: int)
    requires ValidIds(shards, shardId, workers, workerId)
    ensures var first := FirstIndex(start, shards, shardId, 0);
            first % shards == shardId && start <= first && (start <= n && n % shards == shardId ==> first <= n)
    ensures FirstIndex(start, shards, shardId, workerId + 1) == FirstIndex(start, shards, shardId, workerId) + shards
    ensures Step(shards, workers) == FirstIndex(start, shards, shardId, workers) - FirstIndex(start, shards, shardId, 0)
  {
    ShardBaseFacts(start, shards, shardId);
    var first := ShardBase(start, shards, shardId);
    assert FirstIndex(start, shards, shardId, 0) == first;
    assert (workerId + 1) * shards == workerId * shards + shards;
    if start <= n < first && n % shards == shardId {
      CongruentDifference(first, n, shards);
      SmallMod(first - n, shards);
      assert false;
    }
  }

  /** Each index at or after start is visited by exactly the shard n % shards and, in it, by
      exactly one worker: the progressions are disjoint and leave no gap. */
  lemma VisitsIffOwner(start: nat, shards: int, shardId: int, workers: int, workerId: int, n: int)
    requires ValidIds(shards, shardId, workers, workerId)
    ensures Step(shards, workers) > 0
    ensures Visits(start, shards, shardId, workers, workerId, n) <==>
            n >= start && n % shards == shardId && OwnerWorker(start, shards, workers, n) == workerId
  {
    StepPositive(shards, workers);
    ShardBaseFacts(start, shards, shardId);
    var base, first := ShardBase(start, shards, shardId), FirstIndex(start, shards, shardId, workerId);
    assert first == base + workerId * shards;
    MulMonotone(0, workerId, shards);
    CongruentDifference(n, base, shards);
    if n >= start && n % shards == shardId {
      var q := (n - base) / shards;
      assert n - base == shards * q;
      if q < 0 { MulMonotone(q, -1, shards); }
      StrideIff(q, shards, workers, workerId);
    } else if Visits(start, shards, shardId, workers, workerId, n) {
      var t := (n - first) / (workers * shards);
      assert n - first == workers * shards * t;
      assert n - base == shards * (workerId + workers * t);
      DivModUnique(n - base, shards, workerId + workers * t, 0);
      assert false;
    }
  }

  /** A multiple of shards is on the worker's stride iff its quotient is congruent to the worker. */
  lemma StrideIff(q: int, shards: int, workers: int, w: int)
    requires q >= 0 && shards >= 1 && 0 <= w < workers && workers * shards > 0
    ensures shards * q >= w * shards && (shards * q - w * shards) % (workers * shards) == 0
            <==> q % workers == w
  {
    var x, m := shards * q - w * shards, workers * shards;
    assert x == shards * (q - w);
    if q % workers == w {
      var t := q / workers;
      assert x == m * t by { assert q - w == workers * t; assert shards * (workers * t) == m * t; }
      DivModUnique(x, m, t, 0);
      if t < 0 { MulMonotone(t, -1, workers); }
      MulMonotone(w, q, shards);
    } else if x >= 0 && x % m == 0 {
      var t := x / m;
      assert x == m * t && m * t == shards * (workers * t);
      CancelFactor(shards, q - w, workers * t);
      DivModUnique(q, workers, t, w);
      assert false;
    }
  }

  lemma CancelFactor(m: int, a: int, b: int)
    requires m > 0 && m * a == m * b
    ensures a == b
  {
  }

  // ----- Arithmetic progressions as sequences -----

  /** Python's `range(from, limit, step)`. */
  function Progression(from: nat, limit: int, step: nat): seq<nat>
    requires step > 0
    decreases limit - from
  {
    if from >= limit then [] else [from] + Progression(from + step, limit, step)
  }

  lemma StepAhead(from: int, n: int, step: int)
    requires step > 0 && n >= from
    ensures (n - from) % step == 0 <==> n == from || (n >= from + step && (n - (from + step)) % step == 0)
  {
    var d := n - from;
    if d < step {
      SmallMod(d, step);
    } else {
      DivModUnique(step, step, 1, 0);
      CongruentDifference(d, step, step);
    }
  }

  lemma {:induction false} ProgressionMembers(from: nat, limit: int, step: nat)
    requires step > 0
    ensures forall n: nat :: n in Progression(from, limit, step) <==> from <= n < limit && (n - from) % step == 0
    ensures forall j, k :: 0 <= j < k < |Progression(from, limit, step)| ==>
      Progression(from, limit, step)[j] != Progression(from, limit, step)[k]
    decreases limit - from
  {
    if from < limit {
      var t := Progression(from + step, limit, step);
      ProgressionMembers(from + step, limit, step);
      forall n: nat ensures n in [from] + t <==> from <= n < limit && (n - from) % step == 0 {
        if n >= from { StepAhead(from, n, step); }
      }
      assert from !in t;
    }
  }

  /** A progression can be cut at any of its own points. */
  lemma {:induction false} ProgressionSplit(from: nat, mid: int, limit: int, step: nat)
    requires step > 0 && from <= mid && (mid - from) % step == 0 && mid - step < limit
    ensures Progression(from, limit, step) == Progression(from, mid, step) + Progression(mid, limit, step)
    decreases mid - from
  {
    if from < mid {
      StepAhead(from, mid, step);
      ProgressionSplit(from + step, mid, limit, step);
    }
  }
}
