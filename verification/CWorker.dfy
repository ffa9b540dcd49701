/** The hot loop of the C `run_worker`, with its one-address cache and 64-bit indices. */
module CWorker {
  import opened Arithmetic
  import opened Bits
  import CycleWalk
  import WorkerFeistel
  import Blacklist
  import EndToEnd
  import opened Inclusion
  import opened Partition
  import opened Walk
  import opened Workers

  newtype int64 = x: int | -0x8000_0000_0000_0000 <= x < 0x8000_0000_0000_0000

  const INT64_LIMIT: int := 0x8000_0000_0000_0000

  /** The address table handed over by `c_packet_worker`. */
  datatype NetTable = NetTable(bases: seq<uint32>, starts: seq<uint32>, single: bool)

  ghost predicate TableOf(nets: NetTable, inc: InclusionManager) {
    inc.Valid() && Tables(inc.Ranges(), nets.bases, nets.starts) && nets.single == (|inc.Ranges()| == 1)
  }

  /** A ctypes array of 32-bit values. */
  function Narrow(xs: seq<int>): (r: seq<uint32>)
    requires forall x :: x in xs ==> 0 <= x < TWO32
    ensures r == xs
  {
    if xs == [] then []
    else
      var n := |xs| - 1;
      assert xs[n] in xs && forall x :: x in xs[..n] ==> x in xs;
      Narrow(xs[..n]) + [xs[n]]
  }

  /** The arrays of `c_packet_worker`: every base and every start offset fits 32 bits. */
  lemma NetTableFits(inc: InclusionManager)
    requires inc.Valid()
    ensures forall x :: x in BasesOf(inc.networks) ==> 0 <= x < TWO32
    ensures forall x :: x in StartsOf(inc.networks) ==> 0 <= x < TWO32
    ensures TableOf(NetTable(Narrow(BasesOf(inc.networks)), Narrow(StartsOf(inc.networks)), inc.singleNet), inc)
  {
    forall k: nat | k < |inc.networks| ensures inc.networks[k].net < TWO32 && inc.networks[k].start < TWO32 {
      NetworkFits(inc, k);
    }
  }

  lemma NetworkFits(inc: InclusionManager, i: nat)
    requires inc.Valid() && i < |inc.networks|
    ensures inc.networks[i].net < TWO32 && inc.networks[i].start < TWO32
  {
    var rs := inc.Ranges();
    assert rs[i] in rs;
    PrefixSumsAscend(rs, i, |rs|);
    assert rs[..|rs|] == rs;
    SizeOfSpace(rs);
  }

  /** last_shuf_idx, cached_ip, cached_public. */
  datatype Cache = Cache(lastShufIdx: int, ip: uint32, public: bool)

  ghost predicate CacheHolds(c: Cache, job: Job) {
    job.Valid() && (c.lastShufIdx == -1 ||
    (0 <= c.lastShufIdx < job.inc.totalIps
     && c.ip == job.inc.AddressOf(c.lastShufIdx) && c.public == Blacklist.PublicByParity(job.flat, c.ip)))
  }

  /** Recompute the candidate only when the shuffled index changed. */
  method Refresh(job: Job, nets: NetTable, cache: Cache, shufIdx: nat) returns (c: Cache)
    requires job.Valid() && TableOf(nets, job.inc) && CacheHolds(cache, job) && shufIdx < job.inc.totalIps
    ensures CacheHolds(c, job) && c.lastShufIdx == shufIdx
  {
    if shufIdx == cache.lastShufIdx { return cache; }
    IndexFits(job.inc, shufIdx);
    CycleWalk.ShuffleBijective(job.inc.shuffler, shufIdx);
    var shuf := WorkerFeistel.FGet(shufIdx, job.inc.shuffler);
    var ip := CGetIp(shuf, job.inc.Ranges(), nets.bases, nets.starts, nets.single);
    var public := Blacklist.CIsPublic(ip, job.flat);
    return Cache(shufIdx, ip, public);
  }

  lemma IndexFits(inc: InclusionManager, i: nat)
    requires inc.Valid() && i < inc.totalIps
    ensures i < TWO32 && i % inc.totalIps == i
  {
    SizeOfSpace(inc.Ranges());
    SmallMod(i, inc.totalIps);
  }

  /** The candidate at an index: shuf_idx = cur_idx / ports_len % total_ips, then the cache. */
  method CResolve(ghost t: Track, job: Job, nets: NetTable, cache: Cache, n: nat) returns (shufIdx: nat, c: Cache)
    requires Represents(t, job, C) && TableOf(nets, job.inc) && CacheHolds(cache, job)
    ensures shufIdx == job.AddressIndex(n) % job.inc.totalIps && CacheHolds(c, job)
    ensures c.ip == job.Address(n) && c.public == t.Public(n)
  {
    assert Seen(n);
    shufIdx := job.AddressIndex(n) % job.inc.totalIps;
    c := Refresh(job, nets, cache, shufIdx);
    IndexFits(job.inc, shufIdx);
  }

  method CMakeProbe(ghost t: Track, job: Job, ip: uint32, shufIdx: nat, n: nat) returns (p: Probe)
    requires Represents(t, job, C) && ip == job.Address(n) && shufIdx == job.AddressIndex(n) % job.inc.totalIps
    ensures p == t.Probe(n)
  {
    assert Seen(n);
    var port := job.ports[n % |job.ports|];
    return Probe(ip, port, shufIdx % job.payloads);
  }

  /** The inner loop: skip blacklisted candidates up to the next public one. */
  method CSeek(ghost t: Track, job: Job, nets: NetTable, totalWork: nat, cache: Cache, start: int64, step: int64,
               stopped: nat -> bool)
    returns (curIdx: int64, shufIdx: nat, c: Cache, outcome: Outcome)
    requires Represents(t, job, C) && TableOf(nets, job.inc) && CacheHolds(cache, job)
    requires start >= 0 && step >= 1 && totalWork == t.total && totalWork + step as int < INT64_LIMIT
    ensures CacheHolds(c, job)
    ensures var h := Next(t, stopped, start as nat, step as nat, 0);
            && outcome == h.outcome
            && curIdx as int == (if outcome.Filled? then h.at + step as int else h.at)
            && (outcome.Filled? ==> c.ip == job.Address(h.at) && shufIdx == job.AddressIndex(h.at) % job.inc.totalIps)
  {
    hide Represents, Job.Address, Job.AddressIndex, Job.Valid, TableOf, CacheHolds;
    var attempts := 0;
    curIdx, shufIdx, c := start, 0, cache;
    while true
      invariant curIdx >= 0 && CacheHolds(c, job)
      invariant Next(t, stopped, start as nat, step as nat, 0) == Next(t, stopped, curIdx as nat, step as nat, attempts)
      invariant attempts <= MAX_BLACKLIST_ATTEMPTS
      decreases t.total - curIdx as int
    {
      if curIdx as int >= totalWork { return curIdx, shufIdx, c, Finished; }
      var n: nat := curIdx as nat;
      shufIdx, c := CResolve(t, job, nets, c, n);
      curIdx := curIdx + step;
      if c.public { return curIdx, shufIdx, c, Filled; }
      attempts := attempts + 1;
      if attempts > MAX_BLACKLIST_ATTEMPTS { return curIdx, shufIdx, c, Tripped; }
      if SeesStop(stopped, n) { return curIdx, shufIdx, c, Stopped; }
    }
  }

  /** The batch loop. */
  method CCollect(ghost t: Track, job: Job, nets: NetTable, totalWork: nat, cache: Cache, start: int64, step: int64,
                  effBatch: nat, stopped: nat -> bool)
    returns (batch: seq<Probe>, curIdx: int64, c: Cache, outcome: Outcome)
    requires Represents(t, job, C) && TableOf(nets, job.inc) && CacheHolds(cache, job)
    requires start >= 0 && step >= 1 && totalWork == t.total && totalWork + step as int < INT64_LIMIT
    ensures CacheHolds(c, job)
    ensures var b := Fill(t, stopped, start as nat, step as nat, effBatch);
            outcome == b.outcome && curIdx as int == b.next && (b.Sent() ==> batch == b.probes)
  {
    hide Represents, Fill, Next, Job.Address, Job.AddressIndex, Job.Valid, TableOf, CacheHolds;
    batch, curIdx, c := [], start, cache;
    ghost var target := Fill(t, stopped, start as nat, step as nat, effBatch);
    for i := 0 to effBatch
      invariant curIdx >= 0 && CacheHolds(c, job)
      invariant target == PrependAll(batch, Fill(t, stopped, curIdx as nat, step as nat, effBatch - i))
    {
      CollectOne(t, stopped, batch, curIdx as nat, step as nat, effBatch - i);
      var shufIdx, found;
      curIdx, shufIdx, c, found := CSeek(t, job, nets, totalWork, c, curIdx, step, stopped);
      if !found.Filled? { return batch, curIdx, c, found; }
      var probe := CMakeProbe(t, job, c.ip, shufIdx, curIdx as nat - step as nat);
      batch := batch + [probe];
    }
    CollectNone(t, stopped, batch, curIdx as nat, step as nat);
    return batch, curIdx, c, Filled;
  }

  /** `run_worker` from the set-up of the index walk on. Its 64-bit indices never overflow as
      long as the work plus one stride stays below 2^63. */
  method RunWorker(job: Job, nets: NetTable, start: nat, shards: nat, shardId: nat, workers: nat, workerId: nat,
                   batchSize: nat, env: Environment)
    returns (sent: seq<Probe>, frontier: nat, outcome: Outcome)
    requires job.Valid() && TableOf(nets, job.inc)
    requires ValidIds(shards, shardId, workers, workerId) && batchSize >= 1
    requires job.TotalWork() + workers * shards < INT64_LIMIT && start + workers * shards < INT64_LIMIT
    ensures Step(shards, workers) >= 1 && FirstIndex(start, shards, shardId, workerId) >= start
    ensures var t, first, step := TrackOf(job, C), FirstIndex(start, shards, shardId, workerId), Step(shards, workers);
            && OnCourse(t.total, first, frontier, step) && sent == Emitted(t, first, frontier, step)
            && (outcome.Finished? ==> sent == Emitted(t, first, t.total, step))
            && (env.Uninterrupted() && t.AllPublic() ==> outcome.Finished?)
  {
    FirstInRange(start, shards, shardId, workers, workerId);
    StepPositive(shards, workers);
    CFirstIndexAgrees(start, shards, shardId, workerId);
    ghost var t := TrackOf(job, C);
    var step: int64 := Step(shards, workers) as int64;
    var curIdx: int64 := CFirstIndex(start, shards, shardId, workerId) as int64;
    ghost var first: nat := curIdx as nat;
    var cache, pass := Cache(-1, 0, false), 0;
    sent, frontier, outcome := [], curIdx as nat, Stopped;
    NoStep(t, first, step as nat);
    while env.running(pass)
      invariant curIdx >= 0 && CacheHolds(cache, job) && frontier == curIdx as nat
      invariant OnCourse(t.total, first, frontier, step as nat) && sent == Emitted(t, first, frontier, step as nat)
      decreases t.total - curIdx as int
    {
      var eff := env.BatchSize(batchSize, pass);
      var batch, next;
      FillEmits(t, env.stopped, frontier, step as nat, eff);
      if t.AllPublic() { NeverTripped(t, env.stopped, frontier, step as nat, eff); }
      batch, next, cache, outcome := CCollect(t, job, nets, job.TotalWork(), cache, curIdx, step, eff, env.stopped);
      if outcome.Tripped? || outcome.Stopped? { return; }
      EmittedJoin(t, first, frontier, next as nat, step as nat);
      sent, curIdx, frontier := sent + batch, next, next as nat;
      if outcome.Finished? {
        CompletedWalk(t, first, frontier, step as nat);
        return;
      }
      pass := pass + 1;
    }
    outcome := Stopped;
  }

  // ----- Parity of the two engines -----

  /** The first pass over the addresses is pass 0. */
  function PassOf(job: Job, n: nat): nat
    requires job.Valid()
  {
    DivNonNegative(job.AddressIndex(n), job.inc.totalIps);
    job.AddressIndex(n) / job.inc.totalIps
  }

  /** At an index of pass k the engines send the same probe exactly when the payload count divides
      k times the address count. */
  lemma PayloadParityInPass(job: Job, n: nat)
    requires job.Valid()
    ensures ProbeAt(job, Python, n) == ProbeAt(job, C, n) <==> PassOf(job, n) * job.inc.totalIps % job.payloads == 0
  {
    var i, ipCount, m := job.AddressIndex(n), job.inc.totalIps, job.payloads;
    PassParity(i, ipCount, m);
    hide Job.Valid, Job.Address, Job.AddressIndex;
  }

  lemma PassParity(i: nat, t: nat, m: nat)
    requires t >= 1 && m >= 1
    ensures i % m == i % t % m <==> i / t * t % m == 0
    ensures m == 1 ==> i % m == 0
  {
    assert i - i % t == i / t * t;
    CongruentDifference(i, i % t, m);
    if m == 1 { DivModUnique(i, 1, i, 0); }
  }

  /** In particular throughout the first pass, whatever the payloads and the number of passes. */
  lemma FirstPassAlike(job: Job, n: nat)
    requires job.Valid() && n < job.inc.totalIps * |job.ports|
    ensures ProbeAt(job, Python, n) == ProbeAt(job, C, n)
  {
    var i, ipCount := job.AddressIndex(n), job.inc.totalIps;
    QuotientBound(n, ipCount, |job.ports|);
    SmallMod(i, ipCount);
    SmallMod(0, job.payloads);
    PayloadParityInPass(job, n);
  }

  lemma SamePayload(job: Job, n: nat)
    requires job.Valid() && job.inc.totalIps % job.payloads == 0
    ensures ProbeAt(job, Python, n) == ProbeAt(job, C, n)
  {
    hide ProbeAt, PassOf;
    ModOfMultiple(PassOf(job, n), job.inc.totalIps, job.payloads);
    PayloadParityInPass(job, n);
  }

  lemma ModOfMultiple(k: int, t: int, m: int)
    requires m >= 1 && t % m == 0
    ensures k * t % m == 0
  {
    var q := t / m;
    assert k * t == m * (k * q) by { assert t == m * q; }
    DivModUnique(k * t, m, k * q, 0);
  }

  /** Which addresses and ports a sequence of probes goes to. */
  function Aims(ps: seq<Probe>): seq<(nat, nat)> { seq(|ps|, k requires 0 <= k < |ps| => (ps[k].ip, ps[k].port)) }

  lemma {:induction false} EmissionsAimAlike(job: Job, indices: seq<nat>)
    requires job.Valid()
    ensures Aims(Emissions(TrackOf(job, C), indices)) == Aims(Emissions(TrackOf(job, Python), indices))
    ensures Emissions(TrackOf(job, C), indices) == Emissions(TrackOf(job, Python), indices) <==>
            forall n: nat :: n in indices && TrackOf(job, C).Public(n) ==> ProbeAt(job, Python, n) == ProbeAt(job, C, n)
  {
    hide TrackOf, ProbeAt, Job.Address, Job.Valid, Aims;
    if indices == [] {
      assert Emissions(TrackOf(job, C), []) == Emissions(TrackOf(job, Python), []) == [];
    } else {
      var n, rest := indices[0], indices[1..];
      assert Seen(n);
      EmissionsAimAlike(job, rest);
      SameAim(job, n);
      var c, py := Emissions(TrackOf(job, C), rest), Emissions(TrackOf(job, Python), rest);
      AimsFirst(ProbeAt(job, C, n), c);
      AimsFirst(ProbeAt(job, Python, n), py);
      SameCons(ProbeAt(job, C, n), c, ProbeAt(job, Python, n), py);
      assert [] + c == c && [] + py == py && indices == [n] + rest;
    }
  }

  lemma SameCons(p: Probe, ps: seq<Probe>, q: Probe, qs: seq<Probe>)
    ensures [p] + ps == [q] + qs <==> p == q && ps == qs
  {
    assert ([p] + ps)[1..] == ps && ([q] + qs)[1..] == qs;
    assert ([p] + ps)[0] == p && ([q] + qs)[0] == q;
  }

  lemma AimsFirst(p: Probe, ps: seq<Probe>)
    ensures Aims([p] + ps) == [(p.ip, p.port)] + Aims(ps)
  {
  }

  lemma SameAim(job: Job, n: nat)
    requires job.Valid()
    ensures ProbeAt(job, C, n).ip == ProbeAt(job, Python, n).ip
    ensures ProbeAt(job, C, n).port == ProbeAt(job, Python, n).port
  {
  }

  /** The cached C loop sends, worker by worker, to the same addresses and ports in the same order as
      the Python loop, for every job. Its probes are the same in full on every stretch of the first
      pass, and everywhere if there is no other pass or the payload count divides the address count. */
  lemma EnginesEmitAlike(job: Job, from: nat, to: nat, step: nat)
    requires job.Valid() && step >= 1
    ensures Aims(Emitted(TrackOf(job, C), from, to, step)) == Aims(Emitted(TrackOf(job, Python), from, to, step))
    ensures to <= job.inc.totalIps * |job.ports| || job.inc.totalIps % job.payloads == 0 ==>
              Emitted(TrackOf(job, C), from, to, step) == Emitted(TrackOf(job, Python), from, to, step)
  {
    var indices := Progression(from, to, step);
    ProgressionMembers(from, to, step);
    EmissionsAimAlike(job, indices);
    if to <= job.inc.totalIps * |job.ports| || job.inc.totalIps % job.payloads == 0 {
      forall n: nat | n in indices ensures ProbeAt(job, Python, n) == ProbeAt(job, C, n) {
        if n < job.inc.totalIps * |job.ports| { FirstPassAlike(job, n); } else { SamePayload(job, n); }
      }
    }
  }

  /** The two engines' whole scans are the same, probe by probe, exactly when there is a single pass,
      or the payload count divides the address count (one payload in particular), or nothing is sent. */
  lemma PayloadParity(job: Job, shards: nat, workersOf: nat -> nat)
    requires job.Valid() && 1 <= shards && forall s: nat :: s < shards ==> workersOf(s) >= 1
    ensures EndToEnd.ScanProbes(TrackOf(job, C), shards, workersOf, shards) ==
            EndToEnd.ScanProbes(TrackOf(job, Python), shards, workersOf, shards)
            <==> job.retries == 1 || job.inc.totalIps % job.payloads == 0 || EndToEnd.NothingPublic(job)
  {
    hide TrackOf, ProbeAt, EndToEnd.NothingPublic;
    var total := job.TotalWork();
    var indices := EndToEnd.ScanIndices(0, total, shards, workersOf, shards);
    EndToEnd.ScanIndicesMembers(0, total, shards, workersOf, shards);
    EndToEnd.ScanProbesAre(TrackOf(job, C), shards, workersOf, shards);
    EndToEnd.ScanProbesAre(TrackOf(job, Python), shards, workersOf, shards);
    EmissionsAimAlike(job, indices);
    forall n: nat ensures n in indices <==> n < total { InSomeShard(n, shards); }
    if job.retries == 1 || job.inc.totalIps % job.payloads == 0 || EndToEnd.NothingPublic(job) {
      forall n: nat | n < total && TrackOf(job, C).Public(n) ensures ProbeAt(job, Python, n) == ProbeAt(job, C, n) {
        PublicParity(job, n);
      }
    } else {
      var n := DifferentProbe(job);
      assert n in indices;
    }
  }

  lemma InSomeShard(n: nat, shards: nat)
    requires shards >= 1
    ensures 0 <= n % shards < shards
  {
  }

  lemma PublicParity(job: Job, n: nat)
    requires job.Valid() && n < job.TotalWork() && TrackOf(job, C).Public(n)
    requires job.retries == 1 || job.inc.totalIps % job.payloads == 0 || EndToEnd.NothingPublic(job)
    ensures ProbeAt(job, Python, n) == ProbeAt(job, C, n)
  {
    hide TrackOf, ProbeAt, Job.Address, Job.TotalWork;
    EndToEnd.PublicIndex(job, C, n);
    if job.retries == 1 {
      OnePassTotal(job);
      FirstPassAlike(job, n);
    } else if job.inc.totalIps % job.payloads == 0 {
      SamePayload(job, n);
    }
  }

  lemma OnePassTotal(job: Job)
    requires job.retries == 1
    ensures job.TotalWork() == job.inc.totalIps * |job.ports|
  {
  }

  /** A public address in the second pass. */
  lemma DifferentProbe(job: Job) returns (n: nat)
    requires job.Valid() && job.retries >= 2 && job.inc.totalIps % job.payloads != 0 && !EndToEnd.NothingPublic(job)
    ensures n < job.TotalWork() && TrackOf(job, C).Public(n) && ProbeAt(job, Python, n) != ProbeAt(job, C, n)
  {
    hide TrackOf, ProbeAt, Job.Address, EndToEnd.PassIndex, EndToEnd.NothingPublic, PassOf, Inclusion.IndexOf;
    var x := EndToEnd.PublicAddress(job);
    var i := Inclusion.IndexOf(job.inc, x);
    Inclusion.IndexOfAddress(job.inc, x);
    n := EndToEnd.PassIndex(i, 0, job.inc.totalIps, |job.ports|, 1);
    EndToEnd.PassLeadsTo(job, x, 0, 1);
    EndToEnd.PublicIndex(job, C, n);
    SecondPassIndex(job, i);
    assert PassOf(job, n) * job.inc.totalIps == job.inc.totalIps;
    PayloadParityInPass(job, n);
  }

  lemma SecondPassIndex(job: Job, i: nat)
    requires job.Valid() && i < job.inc.totalIps
    ensures PassOf(job, EndToEnd.PassIndex(i, 0, job.inc.totalIps, |job.ports|, 1)) == 1
  {
    var n := EndToEnd.PassIndex(i, 0, job.inc.totalIps, |job.ports|, 1);
    EndToEnd.PassIndexIff(i, 0, job.inc.totalIps, |job.ports|, 1, n);
  }
}
