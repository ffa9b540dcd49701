/** The whole scan: every machine, every worker, every index. */
module EndToEnd {
  import opened Arithmetic
  import Feistel
  import opened Wrappers
  import opened Ranges
  import opened Blacklist
  import opened Inclusion
  import opened Partition
  import opened Walk
  import opened Workers

  ghost predicate NoDuplicates(xs: seq<nat>) {
    forall j, k :: 0 <= j < k < |xs| ==> xs[j] != xs[k]
  }

  lemma NoDuplicatesConcat(a: seq<nat>, b: seq<nat>)
    requires NoDuplicates(a) && NoDuplicates(b) && forall x :: x in a ==> x !in b
    ensures NoDuplicates(a + b)
    ensures forall n: nat :: n in a + b <==> n in a || n in b
  {
    var c := a + b;
    forall j, k | 0 <= j < k < |c| ensures c[j] != c[k] {
      if j < |a| <= k { assert c[j] in a && c[k] in b; }
    }
  }

  // ----- The indices visited -----

  function WorkerIndices(start: nat, total: nat, shards: nat, shardId: nat, workers: nat, workerId: nat): seq<nat>
    requires ValidIds(shards, shardId, workers, workerId)
  {
    FirstInRange(start, shards, shardId, workers, workerId);
    Progression(FirstIndex(start, shards, shardId, workerId), total, Step(shards, workers))
  }

  /** The first k workers of one shard, one after the other. */
  function ShardIndices(start: nat, total: nat, shards: nat, shardId: nat, workers: nat, k: nat): seq<nat>
    requires shardId < shards && k <= workers
  {
    if k == 0 then []
    else ShardIndices(start, total, shards, shardId, workers, k - 1)
         + WorkerIndices(start, total, shards, shardId, workers, k - 1)
  }

  lemma {:induction false} ShardIndicesMembers(start: nat, total: nat, shards: nat, shardId: nat, workers: nat, k: nat)
    requires shardId < shards && 1 <= workers && k <= workers
    ensures NoDuplicates(ShardIndices(start, total, shards, shardId, workers, k))
    ensures forall n: nat :: n in ShardIndices(start, total, shards, shardId, workers, k) <==>
      start <= n < total && n % shards == shardId && OwnerWorker(start, shards, workers, n) < k
  {
    if k == 0 {
      forall n: nat ensures OwnerWorker(start, shards, workers, n) >= 0 { }
    } else {
      var w: nat := k - 1;
      var before := ShardIndices(start, total, shards, shardId, workers, w);
      var last := WorkerIndices(start, total, shards, shardId, workers, w);
      ShardIndicesMembers(start, total, shards, shardId, workers, w);
      WorkerIndicesMembers(start, total, shards, shardId, workers, w);
      NoDuplicatesConcat(before, last);
    }
  }

  lemma WorkerIndicesMembers(start: nat, total: nat, shards: nat, shardId: nat, workers: nat, workerId: nat)
    requires ValidIds(shards, shardId, workers, workerId)
    ensures NoDuplicates(WorkerIndices(start, total, shards, shardId, workers, workerId))
    ensures forall n: nat :: n in WorkerIndices(start, total, shards, shardId, workers, workerId) <==>
      start <= n < total && n % shards == shardId && OwnerWorker(start, shards, workers, n) == workerId
  {
    FirstInRange(start, shards, shardId, workers, workerId);
    ProgressionMembers(FirstIndex(start, shards, shardId, workerId), total, Step(shards, workers));
    forall n: nat
      ensures n in WorkerIndices(start, total, shards, shardId, workers, workerId) <==>
        start <= n < total && n % shards == shardId && OwnerWorker(start, shards, workers, n) == workerId
    {
      VisitsIffOwner(start, shards, shardId, workers, workerId, n);
    }
  }

  /** The first k shards; each machine chooses its own worker count. */
  function ScanIndices(start: nat, total: nat, shards: nat, workersOf: nat -> nat, k: nat): seq<nat>
    requires k <= shards
  {
    if k == 0 then []
    else ScanIndices(start, total, shards, workersOf, k - 1)
         + ShardIndices(start, total, shards, k - 1, workersOf(k - 1), workersOf(k - 1))
  }

  /** Together the shards visit every index from start on, and none twice. */
  lemma {:induction false} ScanIndicesMembers(start: nat, total: nat, shards: nat, workersOf: nat -> nat, k: nat)
    requires 1 <= shards && k <= shards && forall s: nat :: s < shards ==> workersOf(s) >= 1
    ensures NoDuplicates(ScanIndices(start, total, shards, workersOf, k))
    ensures forall n: nat :: n in ScanIndices(start, total, shards, workersOf, k) <==>
      start <= n < total && n % shards < k
  {
    if k > 0 {
      var s: nat := k - 1;
      var before := ScanIndices(start, total, shards, workersOf, s);
      var last := ShardIndices(start, total, shards, s, workersOf(s), workersOf(s));
      ScanIndicesMembers(start, total, shards, workersOf, s);
      ShardIndicesMembers(start, total, shards, s, workersOf(s), workersOf(s));
      NoDuplicatesConcat(before, last);
    }
  }

  // ----- The probes emitted -----

  /** A completed worker's log, as both engines' contracts describe it. */
  function WorkerProbes(t: Track, shards: nat, shardId: nat, workers: nat, workerId: nat): seq<Probe>
    requires ValidIds(shards, shardId, workers, workerId)
  {
    FirstInRange(0, shards, shardId, workers, workerId);
    Emitted(t, FirstIndex(0, shards, shardId, workerId), t.total, Step(shards, workers))
  }

  function ShardProbes(t: Track, shards: nat, shardId: nat, workers: nat, k: nat): seq<Probe>
    requires shardId < shards && k <= workers
  {
    if k == 0 then []
    else ShardProbes(t, shards, shardId, workers, k - 1) + WorkerProbes(t, shards, shardId, workers, k - 1)
  }

  /** What the completed walks of the first k shards emit, from index 0. */
  function ScanProbes(t: Track, shards: nat, workersOf: nat -> nat, k: nat): seq<Probe>
    requires k <= shards
  {
    if k == 0 then []
    else
      ScanProbes(t, shards, workersOf, k - 1) + ShardProbes(t, shards, k - 1, workersOf(k - 1), workersOf(k - 1))
  }

  lemma {:induction false} ShardProbesAre(t: Track, shards: nat, shardId: nat, workers: nat, k: nat)
    requires shardId < shards && k <= workers
    ensures ShardProbes(t, shards, shardId, workers, k) ==
            Emissions(t, ShardIndices(0, t.total, shards, shardId, workers, k))
  {
    if k > 0 {
      ShardProbesAre(t, shards, shardId, workers, k - 1);
      EmissionsConcat(t, ShardIndices(0, t.total, shards, shardId, workers, k - 1),
                      WorkerIndices(0, t.total, shards, shardId, workers, k - 1));
    }
  }

  lemma {:induction false} ScanProbesAre(t: Track, shards: nat, workersOf: nat -> nat, k: nat)
    requires k <= shards
    ensures ScanProbes(t, shards, workersOf, k) == Emissions(t, ScanIndices(0, t.total, shards, workersOf, k))
  {
    hide ShardProbes, ShardIndices, Emissions;
    if k == 0 {
      NoEmissions(t);
    } else {
      var w := workersOf(k - 1);
      ScanProbesAre(t, shards, workersOf, k - 1);
      ShardProbesAre(t, shards, k - 1, w, w);
      EmissionsConcat(t, ScanIndices(0, t.total, shards, workersOf, k - 1),
                      ShardIndices(0, t.total, shards, k - 1, w, w));
    }
  }

  lemma NoEmissions(t: Track)
    ensures Emissions(t, []) == []
  {
  }

  // ----- Counting -----

  function Count(ps: seq<Probe>, ip: nat, port: nat): nat {
    if ps == [] then 0
    else (if ps[0].ip == ip && ps[0].port == port then 1 else 0) + Count(ps[1..], ip, port)
  }

  predicate Hits(t: Track, n: nat, ip: nat, port: nat) {
    t.Public(n) && t.Probe(n).ip == ip && t.Probe(n).port == port
  }

  ghost function HitSet(t: Track, xs: seq<nat>, ip: nat, port: nat): set<nat> {
    set n | n in xs && Hits(t, n, ip, port)
  }

  lemma CountFirst(t: Track, xs: seq<nat>, ip: nat, port: nat)
    requires xs != []
    ensures Count(Emissions(t, xs), ip, port) ==
            (if Hits(t, xs[0], ip, port) then 1 else 0) + Count(Emissions(t, xs[1..]), ip, port)
  {
    if t.Public(xs[0]) {
      assert ([t.Probe(xs[0])] + Emissions(t, xs[1..]))[1..] == Emissions(t, xs[1..]);
    } else {
      assert [] + Emissions(t, xs[1..]) == Emissions(t, xs[1..]);
    }
  }

  lemma {:induction false} CountIsCardinality(t: Track, xs: seq<nat>, ip: nat, port: nat)
    requires NoDuplicates(xs)
    ensures Count(Emissions(t, xs), ip, port) == |HitSet(t, xs, ip, port)|
  {
    if xs == [] {
      assert HitSet(t, xs, ip, port) == {};
    } else {
      var x, rest := xs[0], xs[1..];
      CountIsCardinality(t, rest, ip, port);
      CountFirst(t, xs, ip, port);
      assert xs == [x] + rest && x !in rest;
      var tail := HitSet(t, rest, ip, port);
      assert HitSet(t, xs, ip, port) == if Hits(t, x, ip, port) then tail + {x} else tail;
    }
  }

  /** The indices n < t * p * r with n % p == p0 and n / p % t == i0: one in each pass. */
  function Passes(i0: nat, p0: nat, t: nat, p: nat, r: nat): set<nat> {
    if r == 0 then {} else Passes(i0, p0, t, p, r - 1) + {PassIndex(i0, p0, t, p, r - 1)}
  }

  function PassIndex(i0: nat, p0: nat, t: nat, p: nat, pass: nat): nat { (pass * t + i0) * p + p0 }

  lemma PassIndexIff(i0: nat, p0: nat, t: nat, p: nat, pass: nat, n: nat)
    requires i0 < t && p0 < p
    ensures n == PassIndex(i0, p0, t, p, pass) <==> n % p == p0 && n / p % t == i0 && n / p / t == pass
  {
    var i := pass * t + i0;
    DivModUnique(i, t, pass, i0);
    DivModUnique(i * p + p0, p, i, p0);
    assert n == p * (n / p) + n % p;
    assert n / p == t * (n / p / t) + n / p % t;
  }

  lemma {:induction false} PassesFacts(i0: nat, p0: nat, t: nat, p: nat, r: nat)
    requires i0 < t && p0 < p
    ensures |Passes(i0, p0, t, p, r)| == r
    ensures forall n: nat :: n in Passes(i0, p0, t, p, r) <==> n % p == p0 && n / p % t == i0 && n / p / t < r
  {
    if r == 0 {
      forall n: nat ensures n / p / t >= 0 {
        DivNonNegative(n, p);
        DivNonNegative(n / p, t);
      }
    } else {
      var last := PassIndex(i0, p0, t, p, r - 1);
      PassesFacts(i0, p0, t, p, r - 1);
      PassIndexIff(i0, p0, t, p, r - 1, last);
      assert last !in Passes(i0, p0, t, p, r - 1);
      forall n: nat
        ensures n in Passes(i0, p0, t, p, r) <==> n % p == p0 && n / p % t == i0 && n / p / t < r
      {
        PassIndexIff(i0, p0, t, p, r - 1, n);
      }
    }
  }

  lemma BelowTotal(n: nat, t: nat, p: nat, r: nat)
    requires t >= 1 && p >= 1
    ensures n < t * p * r <==> n / p / t < r
  {
    var i, k := n / p, n / p / t;
    DivNonNegative(n, p);
    assert t * p * r == r * t * p;
    assert n < (i + 1) * p && i < (k + 1) * t;
    if n < t * p * r {
      QuotientBound(n, r * t, p);
      QuotientBound(i, r, t);
    } else if k < r {
      MulMonotone(k + 1, r, t);
      MulMonotone(i + 1, r * t, p);
    }
  }

  // ----- The theorem -----

  /** An index leads to a given address and port exactly when its two digits are right. */
  lemma HitsIff(job: Job, e: Engine, n: nat, ip: nat, p0: nat)
    requires job.Valid() && NoDuplicates(job.ports) && p0 < |job.ports|
    requires Covers(job.inc.Ranges(), ip) && !Blocked(job.flat, ip)
    ensures Hits(TrackOf(job, e), n, ip, job.ports[p0]) <==>
            n % |job.ports| == p0 && n / |job.ports| % job.inc.totalIps == IndexOf(job.inc, ip)
  {
    assert Seen(n);
    var i := job.AddressIndex(n) % job.inc.totalIps;
    SmallMod(i, job.inc.totalIps);
    AddressOfIndex(job.inc, i);
    IndexOfAddress(job.inc, ip);
    SmallMod(IndexOf(job.inc, ip), job.inc.totalIps);
    LookupFacts(job.flat, ip);
  }

  lemma NeverHit(job: Job, e: Engine, n: nat, ip: nat, port: nat)
    requires job.Valid()
    requires !(Covers(job.inc.Ranges(), ip) && !Blocked(job.flat, ip) && port in job.ports)
    ensures !Hits(TrackOf(job, e), n, ip, port)
  {
    assert Seen(n);
    var i := job.AddressIndex(n) % job.inc.totalIps;
    SmallMod(i, job.inc.totalIps);
    AddressOfIndex(job.inc, i);
    LookupFacts(job.flat, job.Address(n));
  }

  /** The completed walks of all shards and workers from index 0 emit every surviving address on
      every port exactly `retries` times, and nothing else - for any seed, any targets, any
      blacklist, any number of shards, and any number of workers on each machine. */
  lemma EveryProbeExactly(job: Job, e: Engine, shards: nat, workersOf: nat -> nat, ip: nat, port: nat)
    requires job.Valid() && NoDuplicates(job.ports)
    requires 1 <= shards && forall s: nat :: s < shards ==> workersOf(s) >= 1
    ensures Count(ScanProbes(TrackOf(job, e), shards, workersOf, shards), ip, port) ==
            if Covers(job.inc.Ranges(), ip) && !Blocked(job.flat, ip) && port in job.ports then job.retries else 0
  {
    var t := TrackOf(job, e);
    var xs := ScanIndices(0, t.total, shards, workersOf, shards);
    ScanProbesAre(t, shards, workersOf, shards);
    ScanIndicesMembers(0, t.total, shards, workersOf, shards);
    CountIsCardinality(t, xs, ip, port);
    HitSetSize(job, e, xs, ip, port);
  }

  lemma HitSetSize(job: Job, e: Engine, xs: seq<nat>, ip: nat, port: nat)
    requires job.Valid() && NoDuplicates(job.ports)
    requires forall n: nat :: n in xs <==> n < job.TotalWork()
    ensures |HitSet(TrackOf(job, e), xs, ip, port)| ==
            if Covers(job.inc.Ranges(), ip) && !Blocked(job.flat, ip) && port in job.ports then job.retries else 0
  {
    var t := TrackOf(job, e);
    if Covers(job.inc.Ranges(), ip) && !Blocked(job.flat, ip) && port in job.ports {
      var p0: nat :| p0 < |job.ports| && job.ports[p0] == port;
      HitsInEachPass(job, e, xs, ip, p0);
    } else {
      forall n: nat ensures n !in HitSet(t, xs, ip, port) { NeverHit(job, e, n, ip, port); }
      assert HitSet(t, xs, ip, port) == {};
    }
  }

  lemma HitsInEachPass(job: Job, e: Engine, xs: seq<nat>, ip: nat, p0: nat)
    requires job.Valid() && NoDuplicates(job.ports) && p0 < |job.ports|
    requires Covers(job.inc.Ranges(), ip) && !Blocked(job.flat, ip)
    requires forall n: nat :: n in xs <==> n < job.TotalWork()
    ensures |HitSet(TrackOf(job, e), xs, ip, job.ports[p0])| == job.retries
  {
    var t, i0, ipCount, portCount := TrackOf(job, e), IndexOf(job.inc, ip), job.inc.totalIps, |job.ports|;
    IndexOfAddress(job.inc, ip);
    PassesFacts(i0, p0, ipCount, portCount, job.retries);
    hide TrackOf, Hits, IndexOf, Passes;
    forall n: nat
      ensures n in HitSet(t, xs, ip, job.ports[p0]) <==> n in Passes(i0, p0, ipCount, portCount, job.retries)
    {
      HitsIff(job, e, n, ip, p0);
      BelowTotal(n, ipCount, portCount, job.retries);
    }
    assert HitSet(t, xs, ip, job.ports[p0]) == Passes(i0, p0, ipCount, portCount, job.retries);
  }

  // ----- From the command line's inputs -----

  /** The job was planned for these targets and this blacklist. */
  ghost predicate Planned(job: Job, targets: seq<Range>, excluded: seq<Range>) {
    && job.Valid() && NoDuplicates(job.ports)
    && (forall x :: Covers(job.inc.Ranges(), x) <==> Intended(targets, Some(job.flat), x))
    && (forall x :: Blocked(job.flat, x) <==> Covers(excluded, x))
  }

  /** Building both managers, as the command line does before a scan. */
  method PlanScan(networks: seq<Option<Range>>, blacklist: seq<Option<Range>>, seed: int, ports: seq<nat>,
                  retries: nat, payloads: nat)
    returns (r: Result<Job, string>)
    requires NonEmpty(TargetsOf(networks)) && InAddressSpace(TargetsOf(networks))
    requires NonEmpty(Parsed(blacklist)) && InAddressSpace(Parsed(blacklist))
    requires ports != [] && NoDuplicates(ports) && retries >= 1 && payloads >= 1
    ensures r.Success? ==> Planned(r.value, TargetsOf(networks), Parsed(blacklist))
    ensures r.Success? ==> r.value.ports == ports && r.value.retries == retries && r.value.payloads == payloads
    ensures r.Success? ==> r.value.inc.shuffler == Feistel.MakeShuffler(seed, r.value.inc.totalIps)
    ensures r.Failure? <==>
      TargetsOf(networks) != [] && forall x :: Covers(TargetsOf(networks), x) ==> Covers(Parsed(blacklist), x)
  {
    var flat := BuildBlacklist(blacklist);
    var built := BuildInclusion(networks, seed, Some(flat));
    if built.Failure? {
      assert !Intended(TargetsOf(networks), Some(flat), 0);
      forall x | Covers(TargetsOf(networks), x) ensures Covers(Parsed(blacklist), x) {
        assert !Intended(TargetsOf(networks), Some(flat), x);
      }
      return Failure(built.error);
    }
    TotalSizePositive(built.value.Ranges());
    return Success(Job(built.value, flat, ports, retries, payloads));
  }

  /** The scan as a whole: every address of the targets that is not blacklisted, on every port,
      exactly `retries` times, and nothing else. */
  lemma EveryTargetExactly(job: Job, e: Engine, targets: seq<Range>, excluded: seq<Range>, shards: nat,
                           workersOf: nat -> nat, ip: nat, port: nat)
    requires Planned(job, targets, excluded) && targets != []
    requires 1 <= shards && forall s: nat :: s < shards ==> workersOf(s) >= 1
    ensures Count(ScanProbes(TrackOf(job, e), shards, workersOf, shards), ip, port) ==
            if Covers(targets, ip) && !Covers(excluded, ip) && port in job.ports then job.retries else 0
  {
    EveryProbeExactly(job, e, shards, workersOf, ip, port);
  }

  /** No worker of a planned scan ever meets a blacklisted candidate, so the guard against 10,000
      of them in a row cannot end a worker early. */
  lemma PlannedAllPublic(job: Job, e: Engine, targets: seq<Range>, excluded: seq<Range>)
    requires Planned(job, targets, excluded) && targets != []
    ensures TrackOf(job, e).AllPublic()
  {
    forall n: nat ensures TrackOf(job, e).Public(n) {
      assert Seen(n);
      var i := job.AddressIndex(n) % job.inc.totalIps;
      SmallMod(i, job.inc.totalIps);
      AddressOfIndex(job.inc, i);
      LookupFacts(job.flat, job.Address(n));
    }
  }

  // ----- Which machine probes which address -----

  lemma SameAddressIff(job: Job, n: nat, m: nat)
    requires job.Valid()
    ensures job.Address(n) == job.Address(m) <==>
            job.AddressIndex(n) % job.inc.totalIps == job.AddressIndex(m) % job.inc.totalIps
  {
    var ipCount := job.inc.totalIps;
    var i, j := job.AddressIndex(n) % ipCount, job.AddressIndex(m) % ipCount;
    SmallMod(i, ipCount); SmallMod(j, ipCount);
    AddressOfIndex(job.inc, i);
    AddressOfIndex(job.inc, j);
  }

  lemma {:induction false} EmissionsMembers(t: Track, xs: seq<nat>, p: Probe)
    ensures p in Emissions(t, xs) <==> exists n: nat :: n in xs && t.Public(n) && t.Probe(n) == p
  {
    if xs != [] {
      EmissionsMembers(t, xs[1..], p);
      assert xs == [xs[0]] + xs[1..];
    }
  }

  lemma ShardIndexIff(total: nat, shards: nat, shardId: nat, workers: nat, n: nat)
    requires shardId < shards && workers >= 1
    ensures n in ShardIndices(0, total, shards, shardId, workers, workers) <==> n < total && n % shards == shardId
  {
    ShardIndicesMembers(0, total, shards, shardId, workers, workers);
  }

  /** A machine sends a probe to the address. */
  ghost predicate Probed(t: Track, shards: nat, shardId: nat, workers: nat, x: nat)
    requires shardId < shards
  {
    exists p :: p in ShardProbes(t, shards, shardId, workers, workers) && p.ip == x
  }

  /** No address is probed by two machines. */
  ghost predicate Disjoint(t: Track, shards: nat, workersOf: nat -> nat) {
    forall s: nat, s': nat, x: nat ::
      (s < shards && s' < shards && Probed(t, shards, s, workersOf(s), x) && Probed(t, shards, s', workersOf(s'), x))
      ==> s == s'
  }

  /** Index n of the scan makes some machine probe the address. */
  ghost predicate LeadsTo(job: Job, n: nat, x: nat)
    requires job.Valid()
  {
    n < job.TotalWork() && job.Address(n) == x && !Blocked(job.flat, x)
  }

  lemma PublicIndex(job: Job, e: Engine, n: nat)
    requires job.Valid()
    ensures TrackOf(job, e).Public(n) <==> !Blocked(job.flat, job.Address(n))
    ensures TrackOf(job, e).Probe(n).ip == job.Address(n)
    ensures Covers(job.inc.Ranges(), job.Address(n))
  {
    assert Seen(n);
    var i := job.AddressIndex(n) % job.inc.totalIps;
    SmallMod(i, job.inc.totalIps);
    AddressOfIndex(job.inc, i);
    LookupFacts(job.flat, job.Address(n));
  }

  lemma ProbedFrom(job: Job, e: Engine, shards: nat, shardId: nat, workers: nat, x: nat) returns (n: nat)
    requires job.Valid() && shardId < shards && workers >= 1 && Probed(TrackOf(job, e), shards, shardId, workers, x)
    ensures LeadsTo(job, n, x) && n % shards == shardId
  {
    var t := TrackOf(job, e);
    var xs := ShardIndices(0, t.total, shards, shardId, workers, workers);
    ShardProbesAre(t, shards, shardId, workers, workers);
    var p :| p in ShardProbes(t, shards, shardId, workers, workers) && p.ip == x;
    EmissionsMembers(t, xs, p);
    n :| n in xs && t.Public(n) && t.Probe(n) == p;
    ShardIndexIff(t.total, shards, shardId, workers, n);
    PublicIndex(job, e, n);
  }

  lemma ProbedAt(job: Job, e: Engine, shards: nat, shardId: nat, workers: nat, x: nat, n: nat)
    requires job.Valid() && shardId < shards && workers >= 1 && LeadsTo(job, n, x) && n % shards == shardId
    ensures Probed(TrackOf(job, e), shards, shardId, workers, x)
  {
    var t := TrackOf(job, e);
    PublicIndex(job, e, n);
    ShardIndexIff(t.total, shards, shardId, workers, n);
    ShardProbesAre(t, shards, shardId, workers, workers);
    hide TrackOf, ShardProbes, ShardIndices, Job.Address;
    EmissionsMembers(t, ShardIndices(0, t.total, shards, shardId, workers, workers), t.Probe(n));
  }

  /** One port, and either one pass or a machine count that divides the address count. */
  predicate Separable(job: Job, shards: nat)
    requires shards >= 1
  {
    |job.ports| == 1 && (job.retries == 1 || job.inc.totalIps % shards == 0)
  }

  ghost predicate NothingPublic(job: Job) { forall x :: Covers(job.inc.Ranges(), x) ==> Blocked(job.flat, x) }

  /** Machines share out probe indices. No address is probed by two of them exactly when there is one
      machine, or one port and either one pass or a machine count that divides the address count, or
      nothing to probe at all. */
  lemma ShardsSeparateAddressesIff(job: Job, e: Engine, shards: nat, workersOf: nat -> nat)
    requires job.Valid() && 1 <= shards && forall s: nat :: s < shards ==> workersOf(s) >= 1
    ensures Disjoint(TrackOf(job, e), shards, workersOf) <==>
            shards == 1 || Separable(job, shards) || NothingPublic(job)
  {
    var t := TrackOf(job, e);
    hide TrackOf, Probed, LeadsTo, Separable;
    if shards == 1 || Separable(job, shards) || NothingPublic(job) {
      forall s: nat, s': nat, x: nat | s < shards && s' < shards && Probed(t, shards, s, workersOf(s), x) &&
                                       Probed(t, shards, s', workersOf(s'), x)
        ensures s == s'
      {
        var n := ProbedFrom(job, e, shards, s, workersOf(s), x);
        var m := ProbedFrom(job, e, shards, s', workersOf(s'), x);
        if shards > 1 { SameShard(job, shards, n, m, x); }
      }
    } else {
      SharedAddress(job, e, shards, workersOf);
    }
  }

  lemma SharedAddress(job: Job, e: Engine, shards: nat, workersOf: nat -> nat)
    requires job.Valid() && shards >= 2 && forall s: nat :: s < shards ==> workersOf(s) >= 1
    requires !Separable(job, shards) && !NothingPublic(job)
    ensures !Disjoint(TrackOf(job, e), shards, workersOf)
  {
    hide TrackOf, Probed, LeadsTo;
    var x := PublicAddress(job);
    var n, m := TwoProbesOneAddress(job, shards, x);
    var s: nat, s': nat := n % shards, m % shards;
    ProbedAt(job, e, shards, s, workersOf(s), x, n);
    ProbedAt(job, e, shards, s', workersOf(s'), x, m);
  }

  lemma PublicAddress(job: Job) returns (x: nat)
    requires job.Valid() && !NothingPublic(job)
    ensures Covers(job.inc.Ranges(), x) && !Blocked(job.flat, x)
  {
    var y :| Covers(job.inc.Ranges(), y) && !Blocked(job.flat, y);
    IndexOfAddress(job.inc, y);
    x := y;
  }

  lemma SameShard(job: Job, shards: nat, n: nat, m: nat, x: nat)
    requires job.Valid() && shards >= 1 && LeadsTo(job, n, x) && LeadsTo(job, m, x)
    requires Separable(job, shards) || NothingPublic(job)
    ensures n % shards == m % shards
  {
    PublicIndex(job, Python, n);
    SameAddressIff(job, n, m);
    OnePortDigits(job, shards, n);
    OnePortDigits(job, shards, m);
  }

  lemma AddressCount(job: Job, n: nat)
    requires job.Valid() && |job.ports| == 1 && n < job.TotalWork()
    ensures job.inc.totalIps >= 1 && (job.retries == 1 ==> n < job.inc.totalIps)
  {
  }

  lemma OnePortDigits(job: Job, shards: nat, n: nat)
    requires job.Valid() && |job.ports| == 1 && n < job.TotalWork() && shards >= 1
    ensures job.AddressIndex(n) == n
    ensures job.retries == 1 ==> n % job.inc.totalIps == n
    ensures job.inc.totalIps % shards == 0 ==> n % job.inc.totalIps % shards == n % shards
  {
    hide Job.Valid;
    DivModUnique(n, 1, n, 0);
    assert job.inc.totalIps >= 1 && (job.retries == 1 ==> n < job.inc.totalIps) by { AddressCount(job, n); }
    hide Job.TotalWork, Job.AddressIndex;
    if job.retries == 1 { SmallMod(n, job.inc.totalIps); }
    if job.inc.totalIps % shards == 0 { ModOfMod(n, job.inc.totalIps, shards); }
  }

  /** Two indices of different machines for one address: of two ports, or of two passes. */
  lemma TwoProbesOneAddress(job: Job, shards: nat, x: nat) returns (n: nat, m: nat)
    requires job.Valid() && shards >= 2 && Covers(job.inc.Ranges(), x) && !Blocked(job.flat, x)
    requires !Separable(job, shards)
    ensures LeadsTo(job, n, x) && LeadsTo(job, m, x) && n % shards != m % shards
  {
    var ipCount, portCount, i0 := job.inc.totalIps, |job.ports|, IndexOf(job.inc, x);
    PassLeadsTo(job, x, 0, 0);
    DifferentShards(i0, ipCount, portCount, shards);
    n := PassIndex(i0, 0, ipCount, portCount, 0);
    if portCount >= 2 {
      PassLeadsTo(job, x, 1, 0);
      m := PassIndex(i0, 1, ipCount, portCount, 0);
    } else {
      PassLeadsTo(job, x, 0, 1);
      m := PassIndex(i0, 0, ipCount, portCount, 1);
    }
    hide *;
  }

  lemma DifferentShards(i0: nat, t: nat, p: nat, shards: nat)
    requires shards >= 2
    ensures PassIndex(i0, 0, t, p, 0) % shards != PassIndex(i0, 1, t, p, 0) % shards
    ensures p == 1 && t % shards != 0 ==> PassIndex(i0, 0, t, p, 0) % shards != PassIndex(i0, 0, t, p, 1) % shards
  {
    var n := PassIndex(i0, 0, t, p, 0);
    SmallMod(1, shards);
    CongruentDifference(PassIndex(i0, 1, t, p, 0), n, shards);
    if p == 1 { CongruentDifference(PassIndex(i0, 0, t, p, 1), n, shards); }
  }

  lemma PassLeadsTo(job: Job, x: nat, p0: nat, pass: nat)
    requires job.Valid() && Covers(job.inc.Ranges(), x) && !Blocked(job.flat, x)
    requires p0 < |job.ports| && pass < job.retries
    ensures LeadsTo(job, PassIndex(IndexOf(job.inc, x), p0, job.inc.totalIps, |job.ports|, pass), x)
  {
    var ipCount, portCount, i0 := job.inc.totalIps, |job.ports|, IndexOf(job.inc, x);
    var n := PassIndex(i0, p0, ipCount, portCount, pass);
    IndexOfAddress(job.inc, x);
    PassIndexIff(i0, p0, ipCount, portCount, pass, n);
    BelowTotal(n, ipCount, portCount, job.retries);
    SmallMod(i0, ipCount);
  }
}
