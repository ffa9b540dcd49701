/** The two send workers: `packet_worker` (Python) and the hot loop of `run_worker` (C). */
module Workers {
  import opened Arithmetic
  import Bits
  import Blacklist
  import Inclusion
  import opened Partition
  import opened Walk

  /** What all workers of a scan share. */
  datatype Job = Job(
    inc: Inclusion.InclusionManager, flat: seq<Bits.uint32>, ports: seq<nat>, retries: nat, payloads: nat)
  {
    ghost predicate Valid() {
      inc.Valid() && inc.totalIps >= 1 && Blacklist.ValidFlat(flat) && ports != [] && retries >= 1 && payloads >= 1
    }

    function TotalWork(): nat { inc.totalIps * |ports| * retries }

    function AddressIndex(n: nat): nat
      requires ports != []
    {
      DivNonNegative(n, |ports|);
      n / |ports|
    }

    ghost function Address(n: nat): nat
      requires Valid()
    {
      inc.AddressOf(AddressIndex(n))
    }
  }

  /** The engines choose the UDP payload differently: only C reduces by the address count first. */
  datatype Engine = Python | C

  function PayloadOf(job: Job, e: Engine, ipIdx: nat): nat
    requires job.payloads >= 1 && job.inc.totalIps >= 1
  {
    if e.C? then ipIdx % job.inc.totalIps % job.payloads
    else if job.payloads == 1 then 0 else ipIdx % job.payloads
  }

  ghost function ProbeAt(job: Job, e: Engine, n: nat): Probe
    requires job.Valid()
  {
    Probe(job.Address(n), job.ports[n % |job.ports|], PayloadOf(job, e, job.AddressIndex(n)))
  }

  ghost predicate PublicAt(job: Job, n: nat)
    requires job.Valid()
  {
    Blacklist.PublicByParity(job.flat, job.Address(n))
  }

  /** The payloads go round: the first address takes payload 0, each further one the next payload, and
      after the last payload the first again. The C engine starts over with every pass. */
  lemma PayloadsGoRound(job: Job, e: Engine, i: nat)
    requires job.payloads >= 1 && job.inc.totalIps >= 1
    ensures PayloadOf(job, e, 0) == 0 && PayloadOf(job, e, i) < job.payloads
    ensures var last, next := PayloadOf(job, e, i), PayloadOf(job, e, i + 1);
            next == if (e.C? && (i + 1) % job.inc.totalIps == 0) || last == job.payloads - 1 then 0 else last + 1
  {
    var m, ips := job.payloads, job.inc.totalIps;
    SmallMod(0, m);
    SmallMod(0, ips);
    NextDigit(i, m);
    NextDigit(i, ips);
    NextDigit(i % ips, m);
  }

  /** The indices go through all ports of an address before they turn to the next address. */
  lemma PortsFirst(job: Job, e: Engine, n: nat)
    requires job.Valid()
    ensures ProbeAt(job, e, 0).port == job.ports[0] && job.AddressIndex(0) == 0
    ensures var k, p, next := n % |job.ports|, ProbeAt(job, e, n), ProbeAt(job, e, n + 1);
            if k + 1 < |job.ports| then p.port == job.ports[k] && next == p.(port := job.ports[k + 1])
            else next.port == job.ports[0] && job.AddressIndex(n + 1) == job.AddressIndex(n) + 1
  {
    hide Job.Valid, Job.Address, Job.AddressIndex, PayloadOf, ProbeAt;
    FirstIndexOf(job, e);
    NextIndexOf(job, n);
    ProbeParts(job, e, n);
    ProbeParts(job, e, n + 1);
  }

  lemma FirstIndexOf(job: Job, e: Engine)
    requires job.Valid()
    ensures ProbeAt(job, e, 0).port == job.ports[0] && job.AddressIndex(0) == 0
  {
    SmallMod(0, |job.ports|);
  }

  lemma NextIndexOf(job: Job, n: nat)
    requires job.Valid()
    ensures var k, count, i, j := n % |job.ports|, |job.ports|, job.AddressIndex(n), job.AddressIndex(n + 1);
            && 0 <= k < count
            && if k + 1 < count then (n + 1) % count == k + 1 && i == j else (n + 1) % count == 0 && j == i + 1
  {
    assert |job.ports| >= 1;
    hide Job.Valid;
    NextDigit(n, |job.ports|);
  }

  lemma ProbeParts(job: Job, e: Engine, n: nat)
    requires job.Valid()
    ensures 0 <= n % |job.ports| < |job.ports|
    ensures ProbeAt(job, e, n) ==
            Probe(job.inc.AddressOf(job.AddressIndex(n)), job.ports[n % |job.ports|],
                  PayloadOf(job, e, job.AddressIndex(n)))
  {
    hide PayloadOf;
  }

  lemma NextDigit(n: nat, m: nat)
    requires m >= 1
    ensures 0 <= n % m < m
    ensures if n % m + 1 < m then (n + 1) % m == n % m + 1 && (n + 1) / m == n / m
            else (n + 1) % m == 0 && (n + 1) / m == n / m + 1
  {
    var q, r := n / m, n % m;
    assert m * (q + 1) == m * q + m;
    if r == m - 1 { DivModUnique(n + 1, m, q + 1, 0); } else { DivModUnique(n + 1, m, q, r + 1); }
  }

  /** Mentioning Seen(n) is what lets the verifier look behind the n-th step of a track. */
  ghost predicate Seen(n: nat) { true }

  /** The track of a job as an engine walks it. */
  ghost predicate Represents(t: Track, job: Job, e: Engine) {
    && job.Valid()
    && t.total == job.TotalWork()
    && forall n: nat {:trigger Seen(n)} :: Seen(n) ==>
         t.Public(n) == Blacklist.PublicByParity(job.flat, job.Address(n)) && t.Probe(n) == ProbeAt(job, e, n)
  }

  ghost function TrackOf(job: Job, e: Engine): (t: Track)
    requires job.Valid()
    ensures Represents(t, job, e)
  {
    Track(job.TotalWork(), (n: nat) => PublicAt(job, n), (n: nat) => ProbeAt(job, e, n))
  }

  /** Rate-dependent batch size: the least number of packets that lasts 100 ms, within 1 and batchSize. */
  function EffectiveBatch(batchSize: nat, rate: int): (n: nat)
    ensures batchSize >= 1 ==> 1 <= n <= batchSize
    ensures n < batchSize ==> rate > 0 && 10 * n >= rate
    ensures rate > 0 && n > 1 ==> 10 * (n - 1) < rate
  {
    if rate > 0 then Min(batchSize, Max(1, (rate + 9) / 10)) else batchSize
  }

  // ----- The Python worker -----

  /** Index to candidate: `get_ip`, then `is_pub`. */
  method Resolve(ghost t: Track, job: Job, n: nat) returns (ip: nat, ipIdx: nat, public: bool)
    requires Represents(t, job, Python)
    ensures ipIdx == job.AddressIndex(n) && ip == job.Address(n) && public == t.Public(n)
  {
    assert Seen(n);
    ipIdx := job.AddressIndex(n);
    ip := Inclusion.GetRandomIpInt(job.inc, ipIdx);
    public := Blacklist.IsIpIntPublic(job.flat, ip);
  }

  method MakeProbe(ghost t: Track, job: Job, ip: nat, ipIdx: nat, n: nat) returns (p: Probe)
    requires Represents(t, job, Python) && ip == job.Address(n) && ipIdx == job.AddressIndex(n)
    ensures p == t.Probe(n)
  {
    assert Seen(n);
    var port := job.ports[n % |job.ports|];
    var payload := if job.payloads == 1 then 0 else ipIdx % job.payloads;
    return Probe(ip, port, payload);
  }

  /** The inner loop: skip blacklisted candidates up to the next public one. */
  method Seek(ghost t: Track, job: Job, totalWork: nat, start: nat, step: nat, stopped: nat -> bool)
    returns (currentIndex: nat, ip: nat, ipIdx: nat, outcome: Outcome)
    requires Represents(t, job, Python) && step >= 1 && totalWork == t.total
    ensures var h := Next(t, stopped, start, step, 0);
            && outcome == h.outcome
            && currentIndex == (if outcome.Filled? then h.at + step else h.at)
            && (outcome.Filled? ==> ip == job.Address(h.at) && ipIdx == job.AddressIndex(h.at))
  {
    hide Represents;
    var attempts := 0;
    currentIndex := start;
    ip, ipIdx := 0, 0;
    while true
      invariant Next(t, stopped, start, step, 0) == Next(t, stopped, currentIndex, step, attempts)
      invariant attempts <= MAX_BLACKLIST_ATTEMPTS
      decreases t.total - currentIndex
    {
      if currentIndex >= totalWork { return currentIndex, ip, ipIdx, Finished; }
      var n, public := currentIndex, false;
      ip, ipIdx, public := Resolve(t, job, n);
      currentIndex := currentIndex + step;
      if public { return currentIndex, ip, ipIdx, Filled; }
      attempts := attempts + 1;
      if attempts > MAX_BLACKLIST_ATTEMPTS { return currentIndex, ip, ipIdx, Tripped; }
      if SeesStop(stopped, n) { return currentIndex, ip, ipIdx, Stopped; }
    }
  }

  /** The batch loop. */
  method Collect(ghost t: Track, job: Job, totalWork: nat, start: nat, step: nat, effBatch: nat, stopped: nat -> bool)
    returns (batch: seq<Probe>, currentIndex: nat, outcome: Outcome)
    requires Represents(t, job, Python) && step >= 1 && totalWork == t.total
    ensures var b := Fill(t, stopped, start, step, effBatch);
            outcome == b.outcome && currentIndex == b.next && (b.Sent() ==> batch == b.probes)
  {
    hide Represents, Fill, Next;
    batch, currentIndex := [], start;
    ghost var target := Fill(t, stopped, start, step, effBatch);
    for i := 0 to effBatch
      invariant target == PrependAll(batch, Fill(t, stopped, currentIndex, step, effBatch - i))
    {
      CollectOne(t, stopped, batch, currentIndex, step, effBatch - i);
      var ip, ipIdx, found;
      currentIndex, ip, ipIdx, found := Seek(t, job, totalWork, currentIndex, step, stopped);
      if !found.Filled? { return batch, currentIndex, found; }
      var probe := MakeProbe(t, job, ip, ipIdx, currentIndex - step);
      batch := batch + [probe];
    }
    CollectNone(t, stopped, batch, currentIndex, step);
    return batch, currentIndex, Filled;
  }

  /** What the environment does to a running worker: the rate read in each pass, whether the run
      flag is still set when a pass begins, and whether it is seen cleared after a skip. */
  datatype Environment = Environment(rate: nat -> int, running: nat -> bool, stopped: nat -> bool) {
    function BatchSize(batchSize: nat, pass: nat): (n: nat)
      ensures batchSize >= 1 ==> n >= 1
    {
      EffectiveBatch(batchSize, rate(pass))
    }

    /** Nobody clears the run flag. */
    ghost predicate Uninterrupted() { forall pass: nat :: running(pass) }
  }

  /** `packet_worker` until it returns. A batch cut short by the guard or by the run flag is
      dropped unsent, and then the reported index (idx_array[worker_id]) is not advanced either:
      what was sent is always exactly the walk up to the last reported index. */
  method PacketWorker(job: Job, start: nat, shards: nat, shardId: nat, workers: nat, workerId: nat,
                      batchSize: nat, env: Environment)
    returns (sent: seq<Probe>, slot: nat, outcome: Outcome)
    requires job.Valid() && ValidIds(shards, shardId, workers, workerId) && batchSize >= 1
    ensures Step(shards, workers) >= 1 && FirstIndex(start, shards, shardId, workerId) >= start
    ensures var t, step := TrackOf(job, Python), Step(shards, workers);
            var first := FirstIndex(start, shards, shardId, workerId);
            && (slot == 0 ==> sent == [] && !outcome.Finished?)
            && (slot > 0 ==> OnCourse(t.total, first, slot, step) && sent == Emitted(t, first, slot, step))
            && (outcome.Finished? ==> sent == Emitted(t, first, t.total, step))
            && (env.Uninterrupted() && t.AllPublic() ==> outcome.Finished?)
  {
    FirstInRange(start, shards, shardId, workers, workerId);
    ghost var t := TrackOf(job, Python);
    var step: nat := Step(shards, workers);
    var currentIndex: nat := FirstIndex(start, shards, shardId, workerId);
    ghost var first := currentIndex;
    sent, slot, outcome := [], 0, Stopped;
    var pass := 0;
    NoStep(t, first, step);
    WorkPositive(job);
    while env.running(pass)
      invariant OnCourse(t.total, first, currentIndex, step) && sent == Emitted(t, first, currentIndex, step)
      invariant if pass == 0 then slot == 0 && sent == [] else slot == currentIndex > 0
      decreases t.total - currentIndex
    {
      var batch, next;
      FillEmits(t, env.stopped, currentIndex, step, env.BatchSize(batchSize, pass));
      if t.AllPublic() { NeverTripped(t, env.stopped, currentIndex, step, env.BatchSize(batchSize, pass)); }
      batch, next, outcome :=
        Collect(t, job, job.TotalWork(), currentIndex, step, env.BatchSize(batchSize, pass), env.stopped);
      if outcome.Tripped? || outcome.Stopped? { return; }
      EmittedJoin(t, first, currentIndex, next, step);
      sent, currentIndex := sent + batch, next;
      slot := currentIndex;
      if outcome.Finished? {
        CompletedWalk(t, first, currentIndex, step);
        return;
      }
      pass := pass + 1;
    }
    outcome := Stopped;
  }

  lemma WorkPositive(job: Job)
    requires job.Valid()
    ensures job.TotalWork() >= 1
  {
    MulMonotone(1, |job.ports|, job.inc.totalIps);
    MulMonotone(1, job.inc.totalIps * |job.ports|, job.retries);
  }

  lemma NoStep(t: Track, n: nat, step: nat)
    requires step >= 1
    ensures OnCourse(t.total, n, n, step) && Emitted(t, n, n, step) == []
  {
    SmallMod(0, step);
  }

  lemma FirstInRange(start: nat, shards: int, shardId: int, workers: int, workerId: int)
    requires ValidIds(shards, shardId, workers, workerId)
    ensures Step(shards, workers) >= 1
    ensures start <= FirstIndex(start, shards, shardId, workerId) < start + workers * shards
  {
    StepPositive(shards, workers);
    ShardBaseFacts(start, shards, shardId);
    MulMonotone(0, workerId, shards);
    MulMonotone(workerId + 1, workers, shards);
    assert (workerId + 1) * shards == workerId * shards + shards;
  }
}
