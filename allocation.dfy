/** `split_hosts`: ranks the eligible hosts, pops the parameter servers off the
    front and picks the GPU workers from what is left. */
module Allocation {
  import opened Text
  import opened Hosts
  import opened StableSort

  /** The tool's return value `(hc[:workers], ps_list)`. */
  datatype Split = Split(workers: seq<Host>, ps: seq<Host>)

  /** `NotEnoughHosts` is the shortfall report followed by `exit(1)`;
      `PopFromEmptyList` is the `IndexError` that `hc.pop(0)` raises when
      more parameter servers are asked for than there are hosts (which the
      length check lets through only for a negative worker count). */
  datatype SplitError = NotEnoughHosts(got: nat, expected: int) | PopFromEmptyList

  datatype Result = Ok(value: Split) | Err(error: SplitError)

  /** The four stable sorts of the parameter-server ranking, read as one key:
      memory descending, then the cpu text descending, then cuda_cores
      ascending, then cuda ascending. */
  const PsRanking: Order := Then(Desc(Memory), Then(Desc(Cpu), Then(Asc(CudaCores), Asc(Cuda))))

  /** The worker ranking: cuda_cores descending. */
  const WorkerRanking: Order := Desc(CudaCores)

  /** The comprehension keeping the hosts with a non-zero `cuda` count. */
  function WithGpu(hosts: seq<Host>): (r: seq<Host>)
    ensures forall h :: h in r ==> h.cuda != 0
    ensures forall h :: h in hosts && h.cuda != 0 ==> h in r
    ensures multiset(r) <= multiset(hosts)
  {
    if hosts == [] then []
    else
      assert hosts == [hosts[0]] + hosts[1..];
      (if hosts[0].cuda != 0 then [hosts[0]] else []) + WithGpu(hosts[1..])
  }

  /** A GPU host is kept as often as it occurs; every other host is dropped. */
  lemma {:induction false} GpuCounts(hosts: seq<Host>, h: Host)
    ensures multiset(WithGpu(hosts))[h] == if h.cuda != 0 then multiset(hosts)[h] else 0
  {
    if hosts != [] {
      GpuCounts(hosts[1..], h);
      GpuCountStep(hosts, WithGpu(hosts), WithGpu(hosts[1..]), h);
    }
  }

  /** The count of `h` after one step of the GPU comprehension. */
  lemma GpuCountStep(hosts: seq<Host>, r: seq<Host>, tail: seq<Host>, h: Host)
    requires hosts != []
    requires r == (if hosts[0].cuda != 0 then [hosts[0]] else []) + tail
    requires multiset(tail)[h] == if h.cuda != 0 then multiset(hosts[1..])[h] else 0
    ensures multiset(r)[h] == if h.cuda != 0 then multiset(hosts)[h] else 0
  {
    assert hosts == [hosts[0]] + hosts[1..];
    assert multiset(hosts) == multiset{hosts[0]} + multiset(hosts[1..]);
  }

  /** The comprehension keeps the hosts in their input order. */
  lemma {:induction false} WithGpuSubsequence(hosts: seq<Host>)
    ensures Subsequence(WithGpu(hosts), hosts)
  {
    if hosts != [] {
      WithGpuSubsequence(hosts[1..]);
      var r := WithGpu(hosts);
      if hosts[0].cuda != 0 {
        assert r[0] == hosts[0] && r[1..] == WithGpu(hosts[1..]);
      } else {
        assert r == WithGpu(hosts[1..]);
      }
    }
  }

  /** Python's slice `s[:k]`; a negative `k` counts from the end. */
  function Prefix(s: seq<Host>, k: int): (r: seq<Host>)
    ensures |r| == if k >= 0 then (if k <= |s| then k else |s|) else (if |s| + k >= 0 then |s| + k else 0)
    ensures r == s[..|r|]
  {
    if k >= 0 then (if k <= |s| then s[..k] else s)
    else if |s| + k >= 0 then s[..|s| + k] else []
  }

  /** How many hosts `[hc.pop(0) for i in range(ps)]` takes. */
  function Taken(ps: int): nat
  {
    if ps < 0 then 0 else ps
  }

  /** The hosts left in the pool once the parameter servers are popped. */
  function Pool(rank: Order, hosts: seq<Host>, ps: int): seq<Host>
    requires ps <= |hosts|
  {
    Sort(rank, hosts)[Taken(ps)..]
  }

  /** Reference definition of the split for a parameter-server ranking `rank`:
      one stable sort, a slice for the parameter servers, and the best GPU
      hosts of the rest. */
  function AllocateBy(rank: Order, hosts: seq<Host>, workers: int, ps: int): Result
  {
    if |hosts| < workers + ps then Err(NotEnoughHosts(|hosts|, workers + ps))
    else if ps > |hosts| then Err(PopFromEmptyList)
    else
      Ok(Split(
        Prefix(Sort(WorkerRanking, WithGpu(Pool(rank, hosts, ps))), workers),
        Sort(rank, hosts)[..Taken(ps)]))
  }

  /** The split the tool computes. */
  function Allocate(hosts: seq<Host>, workers: int, ps: int): Result
  {
    AllocateBy(PsRanking, hosts, workers, ps)
  }

  /** The four stable sorts of lines 83-86 are one stable sort by `PsRanking`. */
  lemma FourPasses(s: seq<Host>)
    ensures Sort(Desc(Memory), Sort(Desc(Cpu), Sort(Asc(CudaCores), Sort(Asc(Cuda), s)))) == Sort(PsRanking, s)
  {
    SortThen(Asc(CudaCores), Asc(Cuda), s);
    SortThen(Desc(Cpu), Then(Asc(CudaCores), Asc(Cuda)), s);
    SortThen(Desc(Memory), Then(Desc(Cpu), Then(Asc(CudaCores), Asc(Cuda))), s);
  }

  /** The four in-place sorts of the pool, least significant key first;
      together they rank the hosts by `PsRanking`. */
  method RankForPs(hosts: seq<Host>) returns (hc: seq<Host>)
    ensures hc == Sort(PsRanking, hosts)
  {
    hc := Sort(Asc(Cuda), hosts);
    hc := Sort(Asc(CudaCores), hc);
    hc := Sort(Desc(Cpu), hc);
    hc := Sort(Desc(Memory), hc);
    FourPasses(hosts);
  }

  /** `[hc.pop(0) for i in range(n)]`: the first `n` hosts popped off `hc`
      in order (none for a negative `n`); `ok` is false when a pop finds
      the list empty. */
  method PopFront(hc: seq<Host>, n: int) returns (popped: seq<Host>, rest: seq<Host>, ok: bool)
    ensures ok <==> n <= |hc|
    ensures ok ==> popped == hc[..Taken(n)] && rest == hc[Taken(n)..]
  {
    popped, rest := [], hc;
    var i := 0;
    while i < n
      invariant 0 <= i <= |hc| && i <= Taken(n)
      invariant popped == hc[..i] && rest == hc[i..]
    {
      if rest == [] {
        return popped, rest, false;
      }
      popped := popped + [rest[0]];
      rest := rest[1..];
      i := i + 1;
    }
    ok := true;
  }

  /** The tool's steps: a check of the pool size, the four sorts, `ps` pops
      from the front of the sorted copy, then the GPU filter, a sort by
      cuda_cores and a slice. The caller's list is a value and is never changed. */
  method SplitHosts(hosts: seq<Host>, workers: int, ps: int) returns (r: Result)
    ensures r == Allocate(hosts, workers, ps)
    ensures r.Err? <==> |hosts| < workers + ps || ps > |hosts|
    ensures |hosts| < workers + ps ==> r == Err(NotEnoughHosts(|hosts|, workers + ps))
  {
    AllocateCases(PsRanking, hosts, workers, ps);
    if |hosts| < workers + ps {
      return Err(NotEnoughHosts(|hosts|, workers + ps));
    }
    var hc := RankForPs(hosts);
    var psList, ok;
    psList, hc, ok := PopFront(hc, ps);
    if !ok {
      return Err(PopFromEmptyList);
    }
    hc := WithGpu(hc);
    hc := Sort(WorkerRanking, hc);
    return Ok(Split(Prefix(hc, workers), psList));
  }

  /** With non-negative counts the split fails exactly when there are fewer
      hosts than `workers + ps`, and the error reports both numbers. */
  lemma FailsExactlyWhenShort(rank: Order, hosts: seq<Host>, workers: int, ps: int)
    requires workers >= 0 && ps >= 0
    ensures AllocateBy(rank, hosts, workers, ps).Err? <==> |hosts| < workers + ps
    ensures AllocateBy(rank, hosts, workers, ps).Err? ==>
      AllocateBy(rank, hosts, workers, ps).error == NotEnoughHosts(|hosts|, workers + ps)
  {
  }

  /** The three outcomes of the split, each under its own condition. */
  lemma AllocateCases(rank: Order, hosts: seq<Host>, workers: int, ps: int)
    ensures |hosts| < workers + ps ==> AllocateBy(rank, hosts, workers, ps) == Err(NotEnoughHosts(|hosts|, workers + ps))
    ensures |hosts| >= workers + ps && ps > |hosts| ==> AllocateBy(rank, hosts, workers, ps) == Err(PopFromEmptyList)
    ensures |hosts| >= workers + ps && ps <= |hosts| ==>
      AllocateBy(rank, hosts, workers, ps) == Ok(Split(Prefix(Sort(WorkerRanking, WithGpu(Pool(rank, hosts, ps))), workers), Sort(rank, hosts)[..Taken(ps)]))
  {
  }

  /** The parameter servers are exactly `ps` hosts (none for a negative
      count), the first ones of the ranking, in ranking order, and no host
      left in the pool outranks any of them. */
  lemma ParameterServers(rank: Order, hosts: seq<Host>, workers: int, ps: int)
    requires AllocateBy(rank, hosts, workers, ps).Ok?
    ensures var chosen := AllocateBy(rank, hosts, workers, ps).value.ps;
      && |chosen| == Taken(ps)
      && chosen == Sort(rank, hosts)[..|chosen|]
      && Sorted(rank, chosen)
      && multiset(chosen) + multiset(Pool(rank, hosts, ps)) == multiset(hosts)
      && forall x, y :: x in chosen && y in Pool(rank, hosts, ps) ==> !Before(rank, y, x)
  {
    AllocateCases(rank, hosts, workers, ps);
    var ranked := Sort(rank, hosts);
    SortSorted(rank, hosts);
    SortedSplit(rank, ranked, Taken(ps));
  }

  /** Cutting a sorted list leaves both parts sorted, every element of the
      front ranked no lower than any of the back, and nothing lost. */
  lemma SortedSplit(o: Order, t: seq<Host>, k: nat)
    requires Sorted(o, t) && k <= |t|
    ensures Sorted(o, t[..k])
    ensures multiset(t[..k]) + multiset(t[k..]) == multiset(t)
    ensures forall x, y :: x in t[..k] && y in t[k..] ==> !Before(o, y, x)
  {
    assert t == t[..k] + t[k..];
    forall x, y | x in t[..k] && y in t[k..] ensures !Before(o, y, x) {
      var i :| 0 <= i < k && t[..k][i] == x;
      var j :| 0 <= j < |t| - k && t[k..][j] == y;
      assert t[i] == x && t[k + j] == y;
    }
  }

  /** Every worker has a GPU, the workers come in non-increasing cuda_cores
      order, there are `min(workers, GPU hosts left in the pool)` of them
      (Python's slice rule for a negative count), and no GPU host left over
      has more cuda cores than a chosen worker. */
  lemma Workers(rank: Order, hosts: seq<Host>, workers: int, ps: int)
    requires AllocateBy(rank, hosts, workers, ps).Ok?
    ensures var chosen := AllocateBy(rank, hosts, workers, ps).value.workers;
      var gpus := WithGpu(Pool(rank, hosts, ps));
      && (forall x :: x in chosen ==> x.cuda != 0)
      && (forall i, j :: 0 <= i < j < |chosen| ==> chosen[i].cudaCores >= chosen[j].cudaCores)
      && |chosen| == (if workers >= 0 then (if workers <= |gpus| then workers else |gpus|)
                      else (if |gpus| + workers >= 0 then |gpus| + workers else 0))
      && multiset(chosen) <= multiset(gpus)
      && forall x, y :: x in chosen && y in multiset(gpus) - multiset(chosen) ==> y.cudaCores <= x.cudaCores
  {
    AllocateCases(rank, hosts, workers, ps);
    var gpus := WithGpu(Pool(rank, hosts, ps));
    var chosen := Prefix(Sort(WorkerRanking, gpus), workers);
    BestOf(WorkerRanking, gpus, workers);
    forall x | x in chosen ensures x.cuda != 0 {
      assert x in multiset(gpus);
    }
    CoresDescending(chosen);
    LeftoverCores(chosen, multiset(gpus) - multiset(chosen));
  }

  /** A list sorted by the worker ranking has non-increasing cuda_cores. */
  lemma CoresDescending(t: seq<Host>)
    requires Sorted(WorkerRanking, t)
    ensures forall i, j :: 0 <= i < j < |t| ==> t[i].cudaCores >= t[j].cudaCores
  {
    forall i, j | 0 <= i < j < |t| ensures t[i].cudaCores >= t[j].cudaCores {
      assert !Before(WorkerRanking, t[j], t[i]);
    }
  }

  /** No host of `rest` ranks before a chosen one, so none has more cuda cores. */
  lemma LeftoverCores(chosen: seq<Host>, rest: multiset<Host>)
    requires forall x, y :: x in chosen && y in rest ==> !Before(WorkerRanking, y, x)
    ensures forall x, y :: x in chosen && y in rest ==> y.cudaCores <= x.cudaCores
  {
    forall x, y | x in chosen && y in rest ensures y.cudaCores <= x.cudaCores {
      assert !Before(WorkerRanking, y, x);
    }
  }

  /** The first `k` of a stable sort (Python slice rules) are sorted, come
      from the list, and no element left out ranks strictly before one taken. */
  lemma BestOf(o: Order, s: seq<Host>, k: int)
    ensures var chosen := Prefix(Sort(o, s), k);
      && Sorted(o, chosen)
      && multiset(chosen) <= multiset(s)
      && forall x, y :: x in chosen && y in multiset(s) - multiset(chosen) ==> !Before(o, y, x)
  {
    var ranked := Sort(o, s);
    var chosen := Prefix(ranked, k);
    SortSorted(o, s);
    SortedSplit(o, ranked, |chosen|);
    assert multiset(s) - multiset(chosen) == multiset(ranked[|chosen|..]);
  }

  /** No host position serves twice: the two lists together are a sub-multiset of the input. */
  lemma RolesDisjoint(rank: Order, hosts: seq<Host>, workers: int, ps: int)
    requires AllocateBy(rank, hosts, workers, ps).Ok?
    ensures var split := AllocateBy(rank, hosts, workers, ps).value;
      multiset(split.ps) + multiset(split.workers) <= multiset(hosts)
  {
    ParameterServers(rank, hosts, workers, ps);
    Workers(rank, hosts, workers, ps);
    var pool := Pool(rank, hosts, ps);
    var gpus := WithGpu(pool);
    assert multiset(gpus) <= multiset(pool) by {
      forall h ensures multiset(gpus)[h] <= multiset(pool)[h] {
      }
    }
  }

  /** Host names are unique within the list. */
  ghost predicate UniqueNames(hosts: seq<Host>)
  {
    forall i, j :: 0 <= i < j < |hosts| ==> hosts[i].name != hosts[j].name
  }

  lemma {:induction false} UniqueNamesOccurOnce(hosts: seq<Host>, h: Host)
    requires UniqueNames(hosts)
    ensures multiset(hosts)[h] <= 1
  {
    if hosts != [] {
      var rest := hosts[1..];
      assert UniqueNames(rest) by {
        forall i, j | 0 <= i < j < |rest| ensures rest[i].name != rest[j].name {
          assert rest[i] == hosts[i + 1] && rest[j] == hosts[j + 1];
        }
      }
      UniqueNamesOccurOnce(rest, h);
      assert hosts == [hosts[0]] + rest;
      assert hosts[0] !in rest by {
        forall k | 0 <= k < |rest| ensures rest[k] != hosts[0] {
          assert rest[k] == hosts[k + 1];
        }
      }
    }
  }

  /** With unique host names, no name is both a parameter server and a worker. */
  lemma NoNameInBothRoles(rank: Order, hosts: seq<Host>, workers: int, ps: int)
    requires UniqueNames(hosts)
    requires AllocateBy(rank, hosts, workers, ps).Ok?
    ensures var split := AllocateBy(rank, hosts, workers, ps).value;
      forall x, y :: x in split.ps && y in split.workers ==> x.name != y.name
  {
    var split := AllocateBy(rank, hosts, workers, ps).value;
    var both := multiset(split.ps) + multiset(split.workers);
    RolesDisjoint(rank, hosts, workers, ps);
    forall x, y | x in split.ps && y in split.workers ensures x.name != y.name {
      assert both[x] >= 1 && both[y] >= 1;
      assert multiset(hosts)[x] >= 1 && multiset(hosts)[y] >= 1;
      var i :| 0 <= i < |hosts| && hosts[i] == x;
      var j :| 0 <= j < |hosts| && hosts[j] == y;
      UniqueNamesOccurOnce(hosts, x);
      assert x == y ==> both[x] >= 2;
    }
  }

  /** The parameter-server ranking as evidently intended: the NCPU column
      compared as a number rather than as text. */
  const IntendedPsRanking: Order := Then(Desc(Memory), Then(Desc(CpuCount), Then(Asc(CudaCores), Asc(Cuda))))

  /** The split with the intended ranking; every lemma above, being stated
      for any ranking, holds for it too. */
  function AllocateIntended(hosts: seq<Host>, workers: int, ps: int): Result
  {
    AllocateBy(IntendedPsRanking, hosts, workers, ps)
  }

  /** Among hosts with equal memory, the intended ranking puts the host with more CPUs first. */
  lemma IntendedPrefersMoreCpus(a: Host, b: Host)
    requires a.memory == b.memory && ParseCount(a.cpu) > ParseCount(b.cpu)
    ensures Before(IntendedPsRanking, a, b)
  {
  }

  /** Two hosts with the same memory: B (4 CPUs, 2 GPUs with 2048 cores)
      and D (16 CPUs, no GPU). */
  function Catalog(): seq<Host>
  {
    [ Host("B", "4", 2, 2048, 64, []),
      Host("D", "16", 0, 0, 64, []) ]
  }

  /** The NCPU texts of the catalog read as 4 and 16. */
  lemma CatalogCpuCounts()
    ensures ParseCount(Catalog()[0].cpu) == 4 && ParseCount(Catalog()[1].cpu) == 16
  {
    ParseDecimalString(4);
    ParseDecimalString(16);
    assert DecimalString(16) == DecimalString(1) + ['6'] == "16";
  }

  /** As text, "16" sorts below "4", so D does not outrank B as written. */
  lemma CatalogCpuTexts()
    ensures StrLess(Catalog()[1].cpu, Catalog()[0].cpu)
    ensures !Before(PsRanking, Catalog()[1], Catalog()[0])
  {
    var b, d := Catalog()[0], Catalog()[1];
    assert !StrLess(b.cpu, d.cpu) && b.cpu != d.cpu;
  }

  /** As written, "4" sorts above "16", so the 4-CPU GPU host B becomes the
      parameter server instead of the 16-CPU host D, and the one worker
      asked for is not found. */
  lemma CpuTextMisranks()
    ensures Allocate(Catalog(), 1, 1) == Ok(Split([], [Catalog()[0]]))
  {
    var s := Catalog();
    var b, d := s[0], s[1];
    CatalogCpuTexts();
    assert [b, d][..1] == [b];
    assert Sort(PsRanking, s) == Insert(PsRanking, [b], d) == [b, d];
    assert Pool(PsRanking, s, 1) == [d];
    assert WithGpu([d]) == [];
    AllocateCases(PsRanking, s, 1, 1);
  }

  /** With the intended ranking D is the parameter server and B the worker. */
  lemma IntendedSplit()
    ensures AllocateIntended(Catalog(), 1, 1) == Ok(Split([Catalog()[0]], [Catalog()[1]]))
  {
    var s := Catalog();
    var b, d := s[0], s[1];
    CatalogCpuCounts();
    assert Before(IntendedPsRanking, d, b);
    assert [b, d][..1] == [b];
    assert Sort(IntendedPsRanking, s) == Insert(IntendedPsRanking, [b], d) == [d, b];
    assert Pool(IntendedPsRanking, s, 1) == [b];
    assert WithGpu([b]) == [b];
    assert Sort(WorkerRanking, [b]) == [b];
    AllocateCases(IntendedPsRanking, s, 1, 1);
  }
}
