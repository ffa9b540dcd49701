/** Checkpointing over every interleaving of one shard's workers, and resuming from it. */
module Checkpoint {
  import opened Arithmetic
  import opened Partition
  import opened Walk
  import EndToEnd

  datatype Config = Config(start: nat, shards: nat, shardId: nat, workers: nat, total: nat) {
    predicate Valid() { shardId < shards && workers >= 1 }

    function First(w: nat): (n: nat)
      requires Valid() && w < workers
      ensures n >= start
    {
      FirstIn(this, w);
      FirstIndex(start, shards, shardId, w)
    }

    function Stride(): (n: nat)
      requires Valid()
      ensures n >= 1
    {
      StepPositive(shards, workers);
      Step(shards, workers)
    }

    /** The probe indices of this shard that the run has to visit below a bound. */
    predicate Due(n: nat, bound: int)
      requires Valid()
    {
      start <= n < bound && n < total && n % shards == shardId
    }
  }

  lemma FirstIn(c: Config, w: nat)
    requires c.Valid() && w < c.workers
    ensures FirstIndex(c.start, c.shards, c.shardId, w) >= c.start
  {
    ShardBaseFacts(c.start, c.shards, c.shardId);
    MulMonotone(0, w, c.shards);
  }

  /** Where a worker's sending has got to, and its slot of cur_idx_array (0 until it reports). */
  datatype WorkerState = WorkerState(cur: nat, slot: nat)

  type State = seq<WorkerState>

  ghost predicate Init(c: Config, s: State)
    requires c.Valid()
  {
    |s| == c.workers && forall w :: 0 <= w < |s| ==> s[w] == WorkerState(c.First(w), 0)
  }

  /** One worker sends a batch, of whatever size its rate allows, or reports where it is. */
  datatype Action = Send(w: nat, to: nat) | Report(w: nat)

  ghost predicate Next(c: Config, s: State, a: Action, s': State)
    requires c.Valid()
  {
    && a.w < |s|
    && match a
       case Send(w, to) => OnCourse(c.total, s[w].cur, to, c.Stride()) && s' == s[w := s[w].(cur := to)]
       case Report(w) => s' == s[w := s[w].(slot := s[w].cur)]
  }

  /** Any interleaving of any length. */
  ghost predicate Run(c: Config, states: seq<State>, actions: seq<Action>)
    requires c.Valid()
  {
    && |states| == |actions| + 1
    && Init(c, states[0])
    && forall i :: 0 <= i < |actions| ==> Next(c, states[i], actions[i], states[i + 1])
  }

  ghost predicate Inv(c: Config, s: State)
    requires c.Valid()
  {
    |s| == c.workers && forall w :: 0 <= w < |s| ==>
      && OnCourse(c.total, c.First(w), s[w].cur, c.Stride())
      && (s[w].slot == 0 || (s[w].slot <= s[w].cur && OnCourse(c.total, c.First(w), s[w].slot, c.Stride())))
  }

  /** An index has been handed to send by the worker that owns it. */
  predicate VisitedBy(c: Config, s: State, w: nat, n: nat)
    requires c.Valid() && |s| == c.workers && w < c.workers
  {
    c.First(w) <= n < s[w].cur && (n - c.First(w)) % c.Stride() == 0
  }

  ghost predicate Visited(c: Config, s: State, n: nat)
    requires c.Valid() && |s| == c.workers
  {
    exists w: nat :: w < c.workers && VisitedBy(c, s, w, n)
  }

  /** Everything due below the bound has been visited. */
  ghost predicate SafeUpTo(c: Config, s: State, bound: int)
    requires c.Valid() && |s| == c.workers
  {
    forall n: nat :: c.Due(n, bound) ==> Visited(c, s, n)
  }

  // ----- `_checkpoint_index` -----

  function Reported(s: State): seq<nat> {
    if s == [] then []
    else (if s[0].slot > 0 then [s[0].slot] else []) + Reported(s[1..])
  }

  function MinOf(xs: seq<nat>): (m: nat)
    requires xs != []
    ensures m in xs && forall x :: x in xs ==> m <= x
  {
    if |xs| == 1 then xs[0]
    else
      assert xs == [xs[0]] + xs[1..];
      var m := MinOf(xs[1..]);
      if xs[0] < m then xs[0] else m
  }

  function CheckpointIndex(c: Config, s: State, sent: seq<nat>): nat {
    if Reported(s) != [] then MinOf(Reported(s)) else c.start + Sum(sent)
  }

  lemma {:induction false} ReportedAre(s: State)
    ensures forall x: nat :: x in Reported(s) <==> x > 0 && exists w :: 0 <= w < |s| && s[w].slot == x
  {
    if s != [] {
      ReportedAre(s[1..]);
      assert forall w :: 1 <= w < |s| ==> s[w] == s[1..][w - 1];
      forall x: nat ensures x in Reported(s) <==> x > 0 && exists w :: 0 <= w < |s| && s[w].slot == x {
        if x in Reported(s[1..]) {
          var w :| 0 <= w < |s[1..]| && s[1..][w].slot == x;
          assert s[w + 1].slot == x;
        }
      }
    }
  }

  lemma {:induction false} NobodyReported(s: State)
    requires forall w :: 0 <= w < |s| ==> s[w].slot == 0
    ensures Reported(s) == []
  {
    if s != [] { NobodyReported(s[1..]); }
  }

  /** A batch that a worker fills and sends is a Send action, and it emits the probes of exactly the
      indices that this action counts as visited. */
  lemma BatchIsSend(c: Config, s: State, w: nat, t: Track, stopped: nat -> bool, want: nat)
    requires c.Valid() && |s| == c.workers && w < c.workers && t.total == c.total
    ensures var b := Fill(t, stopped, s[w].cur, c.Stride(), want);
            b.Sent() ==>
              && Next(c, s, Send(w, b.next), s[w := s[w].(cur := b.next)])
              && b.probes == Emissions(t, Progression(s[w].cur, b.next, c.Stride()))
  {
    FillEmits(t, stopped, s[w].cur, c.Stride(), want);
  }

  // ----- The invariant, over every run -----

  lemma NextKeepsInv(c: Config, s: State, a: Action, s': State)
    requires c.Valid() && Inv(c, s) && Next(c, s, a, s')
    ensures Inv(c, s')
  {
    if a.Send? {
      var f, m, to, step := c.First(a.w), s[a.w].cur, a.to, c.Stride();
      CongruentDifference(to, f, step);
      CongruentDifference(m, f, step);
      CongruentDifference(to, m, step);
    }
  }

  lemma {:induction false} RunKeepsInv(c: Config, states: seq<State>, actions: seq<Action>)
    requires c.Valid() && Run(c, states, actions)
    ensures Inv(c, states[|actions|])
  {
    if actions == [] {
      forall w | 0 <= w < c.workers ensures OnCourse(c.total, c.First(w), c.First(w), c.Stride()) {
        SmallMod(0, c.Stride());
      }
    } else {
      var n := |actions| - 1;
      RunKeepsInv(c, states[..n + 1], actions[..n]);
      NextKeepsInv(c, states[n], actions[n], states[n + 1]);
    }
  }

  // ----- The invariant describes the reachable states exactly -----

  ghost predicate Reachable(c: Config, s: State)
    requires c.Valid()
  {
    exists states, actions :: Run(c, states, actions) && states[|actions|] == s
  }

  lemma ReachNext(c: Config, s: State, a: Action, s': State)
    requires c.Valid() && Reachable(c, s) && Next(c, s, a, s')
    ensures Reachable(c, s')
  {
    var states, actions :| Run(c, states, actions) && states[|actions|] == s;
    var longer := states + [s'];
    assert Run(c, longer, actions + [a]) && longer[|actions + [a]|] == s';
  }

  function InitialState(c: Config): (s: State)
    requires c.Valid()
    ensures Init(c, s)
  {
    seq(c.workers, w requires 0 <= w < c.workers => WorkerState(c.First(w), 0))
  }

  /** The first k workers as in s, the others not started. */
  function Started(c: Config, s: State, k: nat): (s': State)
    requires c.Valid() && |s| == c.workers && k <= c.workers
    ensures |s'| == c.workers
    ensures forall w :: 0 <= w < c.workers ==> s'[w] == if w < k then s[w] else InitialState(c)[w]
  {
    s[..k] + InitialState(c)[k..]
  }

  lemma {:induction false} StartedReachable(c: Config, s: State, k: nat)
    requires c.Valid() && Inv(c, s) && k <= c.workers
    ensures Reachable(c, Started(c, s, k))
  {
    if k == 0 {
      assert Started(c, s, 0) == InitialState(c);
      var states: seq<State>, actions: seq<Action> := [InitialState(c)], [];
      assert Run(c, states, actions) && states[|actions|] == Started(c, s, 0);
    } else {
      var w: nat := k - 1;
      StartedReachable(c, s, w);
      StartOne(c, Started(c, s, w), w, s[w]);
      assert Started(c, s, w)[w := s[w]] == Started(c, s, k);
    }
  }

  /** A worker that has not started gets to any point and any last report on its progression. */
  lemma StartOne(c: Config, s: State, w: nat, goal: WorkerState)
    requires c.Valid() && |s| == c.workers && w < c.workers && Reachable(c, s) && s[w] == WorkerState(c.First(w), 0)
    requires OnCourse(c.total, c.First(w), goal.cur, c.Stride())
    requires goal.slot == 0 || (goal.slot <= goal.cur && OnCourse(c.total, c.First(w), goal.slot, c.Stride()))
    ensures Reachable(c, s[w := goal])
  {
    var first, step := c.First(w), c.Stride();
    if goal.slot == 0 {
      ReachNext(c, s, Send(w, goal.cur), s[w := goal]);
    } else {
      CongruentDifference(goal.cur, first, step);
      CongruentDifference(goal.slot, first, step);
      CongruentDifference(goal.cur, goal.slot, step);
      var sent, reported := s[w := WorkerState(goal.slot, 0)], s[w := WorkerState(goal.slot, goal.slot)];
      ReachNext(c, s, Send(w, goal.slot), sent);
      assert sent[w := WorkerState(goal.slot, goal.slot)] == reported;
      ReachNext(c, sent, Report(w), reported);
      assert reported[w := goal] == s[w := goal];
      ReachNext(c, reported, Send(w, goal.cur), s[w := goal]);
    }
  }

  /** Some interleaving leads to a state exactly when the state satisfies the invariant. */
  lemma ReachableIffInv(c: Config, s: State)
    requires c.Valid()
    ensures Reachable(c, s) <==> Inv(c, s)
  {
    if Reachable(c, s) {
      var states, actions :| Run(c, states, actions) && states[|actions|] == s;
      RunKeepsInv(c, states, actions);
    }
    if Inv(c, s) {
      StartedReachable(c, s, c.workers);
      assert Started(c, s, c.workers) == s;
    }
  }

  // ----- When a resume index is safe -----

  lemma OwnerOf(c: Config, n: nat) returns (w: nat)
    requires c.Valid() && c.Due(n, c.total)
    ensures w < c.workers && c.First(w) <= n && (n - c.First(w)) % c.Stride() == 0
  {
    w := OwnerWorker(c.start, c.shards, c.workers, n);
    VisitsIffOwner(c.start, c.shards, c.shardId, c.workers, w, n);
  }

  /** Only the worker that owns an index can have visited it. */
  lemma SoleOwner(c: Config, s: State, w: nat, n: nat)
    requires c.Valid() && |s| == c.workers && w < c.workers
    requires c.First(w) <= n && (n - c.First(w)) % c.Stride() == 0
    ensures n % c.shards == c.shardId
    ensures Visited(c, s, n) ==> n < s[w].cur
  {
    VisitsIffOwner(c.start, c.shards, c.shardId, c.workers, w, n);
    if Visited(c, s, n) {
      var v: nat :| v < c.workers && VisitedBy(c, s, v, n);
      VisitsIffOwner(c.start, c.shards, c.shardId, c.workers, v, n);
    }
  }

  /** A bound is safe exactly when every worker has sent up to it. */
  lemma SafeIff(c: Config, s: State, bound: int)
    requires c.Valid() && Inv(c, s) && bound <= c.total
    ensures SafeUpTo(c, s, bound) <==> forall w :: 0 <= w < c.workers ==> s[w].cur >= bound
  {
    if SafeUpTo(c, s, bound) {
      forall w: nat | w < c.workers ensures s[w].cur >= bound {
        var n := s[w].cur;
        SoleOwner(c, s, w, n);
        if n < bound { assert c.Due(n, bound); }
      }
    } else {
      var n: nat :| c.Due(n, bound) && !Visited(c, s, n);
      var w := OwnerOf(c, n);
      assert !VisitedBy(c, s, w, n);
    }
  }

  /** Once every worker has reported, nothing below the checkpoint index was skipped - in every
      state of every interleaving, between send and report too. */
  lemma CheckpointSafe(c: Config, states: seq<State>, actions: seq<Action>, sent: seq<nat>)
    requires c.Valid() && Run(c, states, actions)
    requires var s := states[|actions|]; |s| == c.workers && forall w :: 0 <= w < |s| ==> s[w].slot > 0
    ensures var s := states[|actions|]; SafeUpTo(c, s, CheckpointIndex(c, s, sent))
  {
    var s := states[|actions|];
    RunKeepsInv(c, states, actions);
    ReportedAre(s);
    assert s[0].slot in Reported(s);
    var cp := CheckpointIndex(c, s, sent);
    forall w | 0 <= w < c.workers ensures s[w].cur >= cp { assert s[w].slot in Reported(s); }
    SafeIff(c, s, Min(cp, c.total));
    forall n: nat | c.Due(n, cp) ensures Visited(c, s, n) { assert c.Due(n, Min(cp, c.total)); }
  }

  /** The old run and a run resumed from its checkpoint, with any number of workers, together
      visit every index of the shard. */
  lemma ResumeCoversAll(c: Config, states: seq<State>, actions: seq<Action>, sent: seq<nat>, workers: nat, n: nat)
    requires c.Valid() && Run(c, states, actions) && workers >= 1
    requires var s := states[|actions|]; |s| == c.workers && forall w :: 0 <= w < |s| ==> s[w].slot > 0
    requires c.Due(n, c.total)
    ensures var s := states[|actions|];
            Visited(c, s, n) ||
            n in EndToEnd.ShardIndices(CheckpointIndex(c, s, sent), c.total, c.shards, c.shardId, workers, workers)
  {
    var s := states[|actions|];
    var cp := CheckpointIndex(c, s, sent);
    CheckpointSafe(c, states, actions, sent);
    if n >= cp {
      EndToEnd.ShardIndicesMembers(cp, c.total, c.shards, c.shardId, workers, workers);
    } else {
      assert c.Due(n, cp);
    }
  }

  // ----- What the claim needs, exactly -----

  /** Empty slots are left out of the minimum. When some worker has reported, the checkpoint of any
      state is safe exactly when each worker with an empty slot has sent up to it. */
  lemma CheckpointSafeIff(c: Config, s: State, sent: seq<nat>)
    requires c.Valid() && Inv(c, s) && exists w :: 0 <= w < |s| && s[w].slot > 0
    ensures var cp := Min(CheckpointIndex(c, s, sent), c.total);
            SafeUpTo(c, s, cp) <==> forall w :: 0 <= w < |s| && s[w].slot == 0 ==> s[w].cur >= cp
  {
    var cp := Min(CheckpointIndex(c, s, sent), c.total);
    ReportedAre(s);
    var v :| 0 <= v < |s| && s[v].slot > 0;
    assert s[v].slot in Reported(s);
    forall w | 0 <= w < |s| && s[w].slot > 0 ensures s[w].cur >= cp { assert s[w].slot in Reported(s); }
    SafeIff(c, s, cp);
  }

  /** What the process that saves the checkpoint can see of the workers. */
  ghost predicate SameSlots(s: State, s': State) {
    |s| == |s'| && forall w :: 0 <= w < |s| ==> s[w].slot == s'[w].slot
  }

  lemma {:induction false} SameSlotsReported(s: State, s': State)
    requires SameSlots(s, s')
    ensures Reported(s) == Reported(s')
  {
    if s != [] { SameSlotsReported(s[1..], s'[1..]); }
  }

  /** Nothing sent beyond the last report. */
  function Settle(c: Config, s: State): (s': State)
    requires c.Valid() && |s| == c.workers
    ensures SameSlots(s, s')
    ensures forall w :: 0 <= w < |s| ==> s'[w].cur == if s[w].slot == 0 then c.First(w) else s[w].slot
  {
    seq(|s|, w requires 0 <= w < |s| => WorkerState(if s[w].slot == 0 then c.First(w) else s[w].slot, s[w].slot))
  }

  lemma SettleKeepsInv(c: Config, s: State)
    requires c.Valid() && Inv(c, s)
    ensures Inv(c, Settle(c, s))
  {
    SmallMod(0, c.Stride());
  }

  /** Judged by the slots alone: the checkpoint is safe in every state that shows these slots exactly
      when each worker with an empty slot starts at or past it. */
  lemma CheckpointSafeBySlotsIff(c: Config, s: State, sent: seq<nat>)
    requires c.Valid() && Inv(c, s) && exists w :: 0 <= w < |s| && s[w].slot > 0
    ensures var cp := Min(CheckpointIndex(c, s, sent), c.total);
            (forall s' :: Reachable(c, s') && SameSlots(s, s') ==> SafeUpTo(c, s', cp))
            <==> forall w :: 0 <= w < |s| && s[w].slot == 0 ==> c.First(w) >= cp
  {
    var cp, z := Min(CheckpointIndex(c, s, sent), c.total), Settle(c, s);
    forall s': State | Reachable(c, s') && SameSlots(s, s')
      ensures Inv(c, s') && (SafeUpTo(c, s', cp) <==> forall w :: 0 <= w < |s| && s[w].slot == 0 ==> s'[w].cur >= cp)
    {
      ReachableIffInv(c, s');
      SameSlotsReported(s, s');
      CheckpointSafeIff(c, s', sent);
    }
    SettleKeepsInv(c, s);
    ReachableIffInv(c, z);
    forall s': State, w | Inv(c, s') && 0 <= w < |s'| ensures s'[w].cur >= c.First(w) { }
  }

  /** Which bounds are safe in every state that shows the same slots: those that no report and no
      unreported start lies below. */
  lemma BoundSafeBySlotsIff(c: Config, s: State, bound: int)
    requires c.Valid() && Inv(c, s) && bound <= c.total
    ensures (forall s' :: Reachable(c, s') && SameSlots(s, s') ==> SafeUpTo(c, s', bound))
            <==> forall w :: 0 <= w < |s| ==> bound <= if s[w].slot == 0 then c.First(w) else s[w].slot
  {
    hide SafeUpTo, Reachable;
    var z := Settle(c, s);
    forall s': State | Reachable(c, s') && SameSlots(s, s')
      ensures Inv(c, s') && (SafeUpTo(c, s', bound) <==> forall w :: 0 <= w < |s| ==> s'[w].cur >= bound)
    {
      ReachableIffInv(c, s');
      SafeIff(c, s', bound);
    }
    SettleKeepsInv(c, s);
    ReachableIffInv(c, z);
    forall s': State, w | Inv(c, s') && 0 <= w < |s'| ensures s'[w].cur >= c.First(w) { }
  }

  /** The index is the least report there is. */
  lemma CheckpointIsLeastReport(c: Config, s: State, sent: seq<nat>)
    requires exists w :: 0 <= w < |s| && s[w].slot > 0
    ensures exists w :: 0 <= w < |s| && s[w].slot > 0 && CheckpointIndex(c, s, sent) == s[w].slot
    ensures forall w :: 0 <= w < |s| && s[w].slot > 0 ==> CheckpointIndex(c, s, sent) <= s[w].slot
  {
    ReportedAre(s);
    var v :| 0 <= v < |s| && s[v].slot > 0;
    assert s[v].slot in Reported(s);
    assert CheckpointIndex(c, s, sent) in Reported(s);
    forall w | 0 <= w < |s| && s[w].slot > 0 ensures CheckpointIndex(c, s, sent) <= s[w].slot {
      assert s[w].slot in Reported(s);
    }
  }

  /** Once every worker has reported, the checkpoint index is not only safe but the greatest bound that
      is: up to the end of the work, the bounds safe in every state with these slots are those up to it. */
  lemma CheckpointTight(c: Config, s: State, sent: seq<nat>, bound: int)
    requires c.Valid() && Inv(c, s) && bound <= c.total && forall w :: 0 <= w < |s| ==> s[w].slot > 0
    ensures (forall s' :: Reachable(c, s') && SameSlots(s, s') ==> SafeUpTo(c, s', bound))
            <==> bound <= CheckpointIndex(c, s, sent)
  {
    hide SafeUpTo, Reachable, CheckpointIndex;
    BoundSafeBySlotsIff(c, s, bound);
    assert s[0].slot > 0;
    CheckpointIsLeastReport(c, s, sent);
  }

  /** Two workers, one of which has not reported yet: index 1 is lost. */
  lemma UnreportedWorkerSkipped()
    ensures var c := Config(0, 1, 0, 2, 10);
            var s := [WorkerState(4, 4), WorkerState(1, 0)];
            && Run(c, [[WorkerState(0, 0), WorkerState(1, 0)], [WorkerState(4, 0), WorkerState(1, 0)], s],
                   [Send(0, 4), Report(0)])
            && CheckpointIndex(c, s, [2, 0]) == 4 && c.Due(1, 4) && !Visited(c, s, 1)
  {
  }

  // ----- The fallback of a C run, which never reports -----

  /** The next index of a worker that has visited n indices. */
  function NextIndex(c: Config, w: nat, n: nat): (i: nat)
    requires c.Valid() && w < c.workers
    ensures i >= c.First(w) + n
  {
    MulMonotone(1, c.Stride(), n);
    c.First(w) + n * c.Stride()
  }

  /** No worker reports, and none has sent more probes than it has visited indices: a blacklisted
      index sends nothing, and a failed send is not counted. */
  ghost predicate SentCounts(c: Config, s: State, sent: seq<nat>)
    requires c.Valid()
  {
    && |sent| == |s| == c.workers
    && forall w :: 0 <= w < |s| ==> s[w].slot == 0 && s[w].cur >= NextIndex(c, w, sent[w])
  }

  /** The state in which every visited index was sent and counted. */
  function AllCounted(c: Config, sent: seq<nat>): (s: State)
    requires c.Valid() && |sent| == c.workers
    ensures |s| == |sent|
    ensures forall w :: 0 <= w < |s| ==> s[w] == WorkerState(NextIndex(c, w, sent[w]), 0)
  {
    seq(|sent|, w requires 0 <= w < |sent| => WorkerState(NextIndex(c, w, sent[w]), 0))
  }

  lemma AllCountedReachable(c: Config, s: State, sent: seq<nat>)
    requires c.Valid() && Inv(c, s) && SentCounts(c, s, sent)
    ensures Reachable(c, AllCounted(c, sent)) && SentCounts(c, AllCounted(c, sent), sent)
  {
    forall w | 0 <= w < |s| ensures OnCourse(c.total, c.First(w), NextIndex(c, w, sent[w]), c.Stride()) {
      MultipleOfStride(sent[w], c.Stride());
    }
    ReachableIffInv(c, AllCounted(c, sent));
  }

  lemma MultipleOfStride(n: nat, m: nat)
    requires m >= 1
    ensures n * m % m == 0 && (n > 0 ==> n * m >= m)
  {
    DivModUnique(n * m, m, n, 0);
    if n > 0 { MulMonotone(1, n, m); }
  }

  /** `start_index + sum(sent_array)`: a state that nobody has reported in is safe up to it exactly
      when every worker has sent up to it. Judged by the counts alone, it is safe in every reachable
      state with these counts exactly when each worker reaches it by the indices it counted. */
  lemma SentFallbackSafeIff(c: Config, s: State, sent: seq<nat>)
    requires c.Valid() && Inv(c, s) && SentCounts(c, s, sent)
    ensures CheckpointIndex(c, s, sent) == c.start + Sum(sent)
    ensures var cp := Min(c.start + Sum(sent), c.total);
            && (SafeUpTo(c, s, cp) <==> forall w :: 0 <= w < |s| ==> s[w].cur >= cp)
            && ((forall s' :: Reachable(c, s') && SentCounts(c, s', sent) ==> SafeUpTo(c, s', cp))
                <==> forall w :: 0 <= w < |s| ==> NextIndex(c, w, sent[w]) >= cp)
  {
    hide Inv, Reachable, SafeUpTo, NextIndex;
    var cp := Min(c.start + Sum(sent), c.total);
    NobodyReported(s);
    SafeIff(c, s, cp);
    AllCountedReachable(c, s, sent);
    forall s': State | Reachable(c, s') && SentCounts(c, s', sent)
      ensures SafeUpTo(c, s', cp) <==> forall w :: 0 <= w < |s| ==> s'[w].cur >= cp
    {
      ReachableIffInv(c, s');
      SafeIff(c, s', cp);
    }
  }

  /** In particular one worker is always safe, on any number of shards. */
  lemma SingleWorkerFallback(c: Config, s: State, sent: seq<nat>)
    requires c.Valid() && Inv(c, s) && SentCounts(c, s, sent) && c.workers == 1
    ensures SafeUpTo(c, s, Min(CheckpointIndex(c, s, sent), c.total))
  {
    hide Inv, SafeUpTo;
    assert Sum(sent) == sent[0] by { assert sent[1..] == []; }
    SentFallbackSafeIff(c, s, sent);
  }

  /** Two workers, one of them two batches ahead: index 1 is lost. */
  lemma UnevenWorkersSkipped()
    ensures var c := Config(0, 1, 0, 2, 10);
            var s := [WorkerState(4, 0), WorkerState(1, 0)];
            && Run(c, [[WorkerState(0, 0), WorkerState(1, 0)], s], [Send(0, 4)])
            && SentCounts(c, s, [2, 0])
            && CheckpointIndex(c, s, [2, 0]) == 2 && c.Due(1, 2) && !Visited(c, s, 1)
  {
    var c, s := Config(0, 1, 0, 2, 10), [WorkerState(4, 0), WorkerState(1, 0)];
    assert c.First(0) == 0 && c.First(1) == 1 && c.Stride() == 2;
    SoleOwner(c, s, 1, 1);
    assert CheckpointIndex(c, s, [2, 0]) == 2 by {
      NobodyReported(s);
      assert [2, 0][1..] == [0] && [0][1..] == [];
    }
    hide Config.First, Config.Stride, CheckpointIndex, Visited, FirstIndex, Step;
  }
}
