/** The order in which logical CPUs are handed to threads: one CPU of every core, then a second one
    of every core that has two, and so on. */
module Topology {
  import opened Common

  datatype LogicCpu = LogicCpu(id: int, coreId: int)

  /** `Refused`: -1 is returned.  `Undefined`: an index outside an array.  `Hangs`: the loop never ends. */
  datatype Ending = Done | Refused | Undefined | Hangs

  // ------------------------------------------------------------------ counting

  /** How many of the CPUs belong to a core. */
  function Count(s: seq<LogicCpu>, core: int): (n: nat)
    ensures n <= |s|
  {
    if s == [] then 0
    else Count(s[..|s| - 1], core) + if s[|s| - 1].coreId == core then 1 else 0
  }

  lemma {:induction false} CountAdd(s: seq<LogicCpu>, cpu: LogicCpu, core: int)
    ensures Count(s + [cpu], core) == Count(s, core) + if cpu.coreId == core then 1 else 0
  {
    assert (s + [cpu])[..|s|] == s;
  }

  lemma {:induction false} CountUpdate(s: seq<LogicCpu>, j: nat, cpu: LogicCpu, core: int)
    requires j < |s|
    ensures Count(s[j := cpu], core)
            == Count(s, core) - (if s[j].coreId == core then 1 else 0) + if cpu.coreId == core then 1 else 0
  {
    var last := |s| - 1;
    if j == last {
      assert s[j := cpu][..last] == s[..last];
    } else {
      assert s[j := cpu][..last] == s[..last][j := cpu];
      CountUpdate(s[..last], j, cpu, core);
    }
  }

  lemma {:induction false} CountNone(s: seq<LogicCpu>, core: int)
    ensures Count(s, core) == 0 <==> forall j | 0 <= j < |s| :: s[j].coreId != core
  {
    if s != [] { CountNone(s[..|s| - 1], core); }
  }

  /** The CPUs of one core, in their order. */
  function Only(s: seq<LogicCpu>, core: int): (o: seq<LogicCpu>)
  {
    if s == [] then []
    else Only(s[..|s| - 1], core) + if s[|s| - 1].coreId == core then [s[|s| - 1]] else []
  }

  lemma {:induction false} OnlyAdd(s: seq<LogicCpu>, cpu: LogicCpu, core: int)
    ensures Only(s + [cpu], core) == Only(s, core) + if cpu.coreId == core then [cpu] else []
  {
    assert (s + [cpu])[..|s|] == s;
  }

  lemma {:induction false} OnlyNone(s: seq<LogicCpu>, core: int)
    requires forall j | 0 <= j < |s| :: s[j].coreId != core
    ensures Only(s, core) == []
  {
    if s != [] { OnlyNone(s[..|s| - 1], core); }
  }

  /** A core's first CPU is taken out. */
  lemma {:induction false} OnlyFirst(s: seq<LogicCpu>, j: nat, cpu: LogicCpu, core: int)
    requires j < |s| && cpu.coreId != core && forall i | 0 <= i < j :: s[i].coreId != s[j].coreId
    ensures Only(s, core) == (if s[j].coreId == core then [s[j]] else []) + Only(s[j := cpu], core)
  {
    var last := |s| - 1;
    if j == last {
      assert s[j := cpu][..last] == s[..last];
      if s[j].coreId == core { OnlyNone(s[..last], core); }
    } else {
      assert s[j := cpu][..last] == s[..last][j := cpu];
      OnlyFirst(s[..last], j, cpu, core);
    }
  }

  /** The CPUs of the sorted list that have not been taken. */
  function Left(s: seq<LogicCpu>, taken: seq<bool>): (m: multiset<LogicCpu>)
    requires |s| == |taken|
  {
    if s == [] then multiset{}
    else Left(s[..|s| - 1], taken[..|s| - 1]) + if taken[|s| - 1] then multiset{} else multiset{s[|s| - 1]}
  }

  lemma {:induction false} LeftTake(s: seq<LogicCpu>, taken: seq<bool>, j: nat)
    requires |s| == |taken| && j < |s| && !taken[j]
    ensures Left(s, taken) == Left(s, taken[j := true]) + multiset{s[j]}
  {
    var last := |s| - 1;
    if j == last {
      assert taken[j := true][..last] == taken[..last];
    } else {
      assert taken[j := true][..last] == taken[..last][j := true];
      LeftTake(s[..last], taken[..last], j);
    }
  }

  lemma {:induction false} LeftAll(s: seq<LogicCpu>, taken: seq<bool>)
    requires |s| == |taken| && forall j | 0 <= j < |s| :: !taken[j]
    ensures Left(s, taken) == multiset(s)
  {
    if s != [] {
      LeftAll(s[..|s| - 1], taken[..|s| - 1]);
      assert s == s[..|s| - 1] + [s[|s| - 1]];
    }
  }

  // ------------------------------------------------------------------ fairness

  /** k full rounds are over, and in the next one the cores up to m have had their turn. */
  ghost predicate Level(prefix: seq<LogicCpu>, all: seq<LogicCpu>, k: nat, m: int)
  {
    forall core: nat :: Count(prefix, core) == Least(Count(all, core), if core <= m then k + 1 else k)
  }

  ghost predicate Fair(prefix: seq<LogicCpu>, all: seq<LogicCpu>)
  {
    exists k: nat, m: int :: Level(prefix, all, k, m)
  }

  predicate Sorted(s: seq<LogicCpu>)
  {
    forall i, j | 0 <= i < j < |s| :: s[i].coreId <= s[j].coreId
  }

  /** The state of the two loops: what is in the output so far, what is left of the marked copy. */
  ghost predicate State(out: seq<LogicCpu>, copy: seq<LogicCpu>, s: seq<LogicCpu>, taken: seq<bool>)
  {
    && |copy| == |taken| == |s|
    && (forall j | 0 <= j < |s| :: copy[j] == if taken[j] then s[j].(coreId := -2) else s[j])
    && (forall j | 0 <= j < |s| && taken[j] :: s[j].coreId >= 0)
    && multiset(out) + Left(s, taken) == multiset(s)
    && (forall core: nat :: Count(out, core) + Count(copy, core) == Count(s, core))
    && (forall core: nat :: Only(out, core) + Only(copy, core) == Only(s, core))
    && (forall p | 0 <= p <= |out| :: Fair(out[..p], s))
  }

  /** In the scan of round k, before position j: everything left so far belongs to cores up to min. */
  ghost predicate Scan(out: seq<LogicCpu>, copy: seq<LogicCpu>, s: seq<LogicCpu>, taken: seq<bool>, k: nat,
          min: int, j: nat)
  {
    && State(out, copy, s, taken) && j <= |s| && min >= -1
    && Level(out, s, k, min)
    && (forall i | 0 <= i < j && !taken[i] :: s[i].coreId <= min)
  }

  lemma {:induction false} TakeKeepsState(out: seq<LogicCpu>, copy: seq<LogicCpu>, s: seq<LogicCpu>,
          taken: seq<bool>, j: nat)
    requires State(out, copy, s, taken) && j < |s| && copy[j].coreId >= 0
    requires Fair(out + [copy[j]], s) && forall i | 0 <= i < j :: copy[i].coreId != copy[j].coreId
    ensures State(out + [copy[j]], copy[j := copy[j].(coreId := -2)], s, taken[j := true]) && !taken[j]
  {
    hide Fair, Left, Only;
    LeftTake(s, taken, j);
    forall core: nat
      ensures Only(out + [copy[j]], core) + Only(copy[j := copy[j].(coreId := -2)], core) == Only(s, core) {
      OnlyAdd(out, copy[j], core);
      OnlyFirst(copy, j, copy[j].(coreId := -2), core);
      assert Only(out, core) + Only(copy, core) == Only(s, core);
    }
    forall core: nat
      ensures Count(out + [copy[j]], core) + Count(copy[j := copy[j].(coreId := -2)], core) == Count(s, core) {
      CountAdd(out, copy[j], core);
      CountUpdate(copy, j, copy[j].(coreId := -2), core);
    }
    forall p | 0 <= p <= |out| + 1 ensures Fair((out + [copy[j]])[..p], s) {
      assert (out + [copy[j]])[..p] == if p <= |out| then out[..p] else out + [copy[j]];
    }
  }

  lemma {:induction false} TakeKeepsLevel(out: seq<LogicCpu>, copy: seq<LogicCpu>, s: seq<LogicCpu>,
          taken: seq<bool>, k: nat, min: int, j: nat)
    requires Scan(out, copy, s, taken, k, min, j) && Sorted(s) && j < |s| && copy[j].coreId > min
    ensures Level(out + [copy[j]], s, k, copy[j].coreId)
  {
    var c := copy[j].coreId;
    forall core: nat
      ensures Count(out + [copy[j]], core) == Least(Count(s, core), if core <= c then k + 1 else k) {
      CountAdd(out, copy[j], core);
      assert Count(out, core) + Count(copy, core) == Count(s, core);
      assert Count(out, core) == Least(Count(s, core), if core <= min then k + 1 else k);
      CountNone(copy, core);
      if min < core < c {
        forall i | 0 <= i < |copy| ensures copy[i].coreId != core {
        }
      }
    }
  }

  lemma {:induction false} Start(s: seq<LogicCpu>, taken: seq<bool>)
    requires |s| == |taken| && forall j | 0 <= j < |s| :: !taken[j]
    ensures Scan([], s, s, taken, 0, -1, 0)
  {
    LeftAll(s, taken);
    assert Level([], s, 0, -1);
  }

  lemma {:induction false} Take(out: seq<LogicCpu>, copy: seq<LogicCpu>, s: seq<LogicCpu>, taken: seq<bool>,
          k: nat, min: int, j: nat)
    requires Scan(out, copy, s, taken, k, min, j) && Sorted(s) && j < |s| && copy[j].coreId > min
    ensures |out| < |s| == |copy| == |taken|
    ensures Scan(out + [copy[j]], copy[j := copy[j].(coreId := -2)], s, taken[j := true], k, copy[j].coreId, j + 1)
  {
    hide Level, Left, Fair;
    TakeKeepsLevel(out, copy, s, taken, k, min, j);
    assert Fair(out + [copy[j]], s) by { FairAt(out + [copy[j]], s, k, copy[j].coreId); }
    TakeKeepsState(out, copy, s, taken, j);
    LeftTake(s, taken, j);
    assert |multiset(out)| + |Left(s, taken)| == |multiset(s)|;
  }

  lemma FairAt(prefix: seq<LogicCpu>, s: seq<LogicCpu>, k: nat, m: int)
    requires Level(prefix, s, k, m)
    ensures Fair(prefix, s)
  {
  }

  lemma {:induction false} Skip(out: seq<LogicCpu>, copy: seq<LogicCpu>, s: seq<LogicCpu>, taken: seq<bool>,
          k: nat, min: int, j: nat)
    requires Scan(out, copy, s, taken, k, min, j) && j < |s| && copy[j].coreId <= min
    ensures Scan(out, copy, s, taken, k, min, j + 1)
  {
    hide Level, Left, Fair;
  }

  lemma {:induction false} RoundOver(out: seq<LogicCpu>, copy: seq<LogicCpu>, s: seq<LogicCpu>, taken: seq<bool>,
          k: nat, min: int)
    requires Scan(out, copy, s, taken, k, min, |s|)
    ensures Scan(out, copy, s, taken, k + 1, -1, 0)
  {
    hide Left, Fair;
    forall core: nat ensures Count(out, core) == Least(Count(s, core), k + 1) {
      assert Count(out, core) + Count(copy, core) == Count(s, core);
      assert Count(out, core) == Least(Count(s, core), if core <= min then k + 1 else k);
      CountNone(copy, core);
    }
  }

  lemma {:induction false} LeftNone(s: seq<LogicCpu>, taken: seq<bool>)
    requires |s| == |taken| && forall j | 0 <= j < |s| :: taken[j]
    ensures Left(s, taken) == multiset{}
  {
    if s != [] { LeftNone(s[..|s| - 1], taken[..|s| - 1]); }
  }

  /** All is done exactly when everything has been taken; then every core id was non-negative. */
  lemma {:induction false} Complete(out: seq<LogicCpu>, copy: seq<LogicCpu>, s: seq<LogicCpu>, taken: seq<bool>)
    requires State(out, copy, s, taken)
    ensures |out| == |s| <==> forall j | 0 <= j < |s| :: taken[j]
    ensures |out| == |s| ==> multiset(out) == multiset(s)
  {
    hide Left, Fair;
    assert |multiset(out)| + |Left(s, taken)| == |multiset(s)|;
    if j :| 0 <= j < |s| && !taken[j] {
      LeftTake(s, taken, j);
    } else {
      LeftNone(s, taken);
    }
  }

  /** Nothing was taken in a whole round: what is left has negative core ids. */
  lemma {:induction false} NothingTaken(out: seq<LogicCpu>, copy: seq<LogicCpu>, s: seq<LogicCpu>,
          taken: seq<bool>, k: nat)
    requires Scan(out, copy, s, taken, k, -1, |s|) && |out| < |s|
    ensures exists j :: 0 <= j < |s| && s[j].coreId < 0
  {
    hide Left, Fair, Level;
    Complete(out, copy, s, taken);
    var j :| 0 <= j < |s| && !taken[j];
    assert s[j].coreId < 0;
  }

  lemma {:induction false} Finished(out: seq<LogicCpu>, copy: seq<LogicCpu>, s: seq<LogicCpu>, taken: seq<bool>,
          k: nat)
    requires Scan(out, copy, s, taken, k, -1, 0) && |out| == |s|
    ensures multiset(out) == multiset(s) && (forall j | 0 <= j < |s| :: s[j].coreId >= 0)
    ensures forall p | 0 <= p <= |s| :: Fair(out[..p], s)
    ensures forall core: nat :: Only(out, core) == Only(s, core)
  {
    hide Left, Fair, Level, Only;
    Complete(out, copy, s, taken);
    forall core: nat ensures Only(out, core) == Only(s, core) {
      assert Only(out, core) + Only(copy, core) == Only(s, core);
      OnlyNone(copy, core);
    }
  }

  /** One turn of the outer loop. */
  method Round(logicCpus: array<LogicCpu>, copy: array<LogicCpu>, sorted: seq<LogicCpu>, i0: nat,
          ghost taken0: seq<bool>, ghost k: nat)
    returns (i: nat, ghost taken: seq<bool>)
    requires logicCpus != copy && logicCpus.Length == copy.Length == |sorted| && i0 <= |sorted| && Sorted(sorted)
    requires Scan(logicCpus[..i0], copy[..], sorted, taken0, k, -1, 0)
    modifies logicCpus, copy
    ensures i0 <= i <= |sorted| && Scan(logicCpus[..i], copy[..], sorted, taken, k + 1, -1, 0)
    ensures i == i0 < |sorted| ==> exists j :: 0 <= j < |sorted| && sorted[j].coreId < 0
  {
    hide Scan, Sorted;
    var min := -1;
    i, taken := i0, taken0;
    for j := 0 to |sorted|
      invariant i0 <= i <= |sorted| && (i == i0 <==> min == -1) && min >= -1
      invariant Scan(logicCpus[..i], copy[..], sorted, taken, k, min, j)
    {
      if copy[j].coreId > min {
        Take(logicCpus[..i], copy[..], sorted, taken, k, min, j);
        min := copy[j].coreId;
        assert i == |logicCpus[..i]|;
        logicCpus[i] := copy[j];
        assert logicCpus[..i + 1] == logicCpus[..i] + [copy[j]];
        i := i + 1;
        ghost var was := copy[..];
        copy[j] := copy[j].(coreId := -2);
        assert copy[..] == was[j := was[j].(coreId := -2)];
        taken := taken[j := true];
      } else {
        Skip(logicCpus[..i], copy[..], sorted, taken, k, min, j);
      }
    }
    if i == i0 < |sorted| { NothingTaken(logicCpus[..i], copy[..], sorted, taken, k); }
    RoundOver(logicCpus[..i], copy[..], sorted, taken, k, min);
  }

  /** `cputopSortUniqSetsCoreId`; `sorted` is what `qsort` leaves behind. */
  method SortUniqSetsCoreId(logicCpus: array<LogicCpu>, sorted: seq<LogicCpu>) returns (ending: Ending)
    requires multiset(sorted) == multiset(logicCpus[..]) && Sorted(sorted)
    modifies logicCpus
    ensures ending == Refused <==> logicCpus.Length == 0
    ensures ending == Hangs <==> exists j :: 0 <= j < |sorted| && sorted[j].coreId < 0
    ensures ending in {Done, Refused, Hangs}
    ensures ending == Done ==> multiset(logicCpus[..]) == multiset(sorted)
    ensures ending == Done ==> forall p | 0 <= p <= logicCpus.Length :: Fair(logicCpus[..p], sorted)
    ensures ending == Done ==> forall core: nat :: Only(logicCpus[..], core) == Only(sorted, core)
  {
    hide Scan, Sorted, Fair;
    var n := logicCpus.Length;
    assert |sorted| == n by { assert |multiset(sorted)| == |multiset(logicCpus[..])|; }
    if n == 0 { return Refused; }
    var copy := new LogicCpu[n];
    for j := 0 to n
      invariant forall i | 0 <= i < j :: copy[i] == sorted[i]
    {
      copy[j] := sorted[j];
    }
    var i := 0;
    ghost var taken, k: nat := Untaken(n), 0;
    Start(sorted, taken);
    assert copy[..] == sorted && logicCpus[..0] == [];
    while i < n
      invariant 0 <= i <= n
      invariant Scan(logicCpus[..i], copy[..], sorted, taken, k, -1, 0)
      decreases n - i
    {
      var before := i;
      i, taken := Round(logicCpus, copy, sorted, i, taken, k);
      if i == before { return Hangs; }
      k := k + 1;
    }
    assert logicCpus[..n] == logicCpus[..];
    Finished(logicCpus[..], copy[..], sorted, taken, k);
    return Done;
  }

  function Untaken(n: nat): (t: seq<bool>)
    ensures |t| == n && forall j | 0 <= j < n :: !t[j]
  {
    if n == 0 then [] else Untaken(n - 1) + [false]
  }

  // ------------------------------------------------------------------ what fairness means

  /** In a fair prefix two cores' shares differ by at most one, unless the core with fewer has no
      CPUs left. */
  lemma {:induction false} FairShares(prefix: seq<LogicCpu>, all: seq<LogicCpu>, c: nat, d: nat)
    requires Fair(prefix, all) && Count(prefix, c) < Count(prefix, d)
    ensures Count(prefix, d) == Count(prefix, c) + 1 || Count(prefix, c) == Count(all, c)
  {
    hide Level;
    var k: nat, m: int :| Level(prefix, all, k, m);
    LevelAt(prefix, all, k, m, c);
    LevelAt(prefix, all, k, m, d);
  }

  lemma LevelAt(prefix: seq<LogicCpu>, all: seq<LogicCpu>, k: nat, m: int, c: nat)
    requires Level(prefix, all, k, m)
    ensures Count(prefix, c) == Least(Count(all, c), if c <= m then k + 1 else k)
  {
  }

  function CoreSet(s: seq<LogicCpu>): (c: set<int>)
  {
    set j | 0 <= j < |s| :: s[j].coreId
  }

  lemma {:induction false} CoreSetNext(s: seq<LogicCpu>, n: nat)
    requires n < |s|
    ensures CoreSet(s[..n + 1]) == CoreSet(s[..n]) + {s[n].coreId}
  {
    forall c | c in CoreSet(s[..n]) + {s[n].coreId} ensures c in CoreSet(s[..n + 1]) {
      if c == s[n].coreId {
        assert s[..n + 1][n].coreId == c;
      } else {
        var j :| 0 <= j < n && s[..n][j].coreId == c;
        assert s[..n + 1][j].coreId == c;
      }
    }
  }

  lemma {:induction false} CoreSetSize(s: seq<LogicCpu>, n: nat)
    requires n <= |s|
    ensures |CoreSet(s[..n])| <= n
  {
    if n > 0 {
      CoreSetSize(s, n - 1);
      CoreSetNext(s, n - 1);
    } else {
      assert CoreSet(s[..0]) == {};
    }
  }

  lemma {:induction false} CountOfCore(s: seq<LogicCpu>, core: int)
    ensures Count(s, core) > 0 <==> core in CoreSet(s)
  {
    CountNone(s, core);
  }

  lemma {:induction false} CountTwice(s: seq<LogicCpu>, i: nat, j: nat)
    requires i < j < |s| && s[i].coreId == s[j].coreId
    ensures Count(s[..j + 1], s[j].coreId) >= 2
  {
    var c := s[j].coreId;
    assert s[..j + 1] == s[..j] + [s[j]];
    CountAdd(s[..j], s[j], c);
    CountNone(s[..j], c);
    assert s[..j][i].coreId == c;
  }

  /** The first CPUs, as many as there are cores, belong to different cores. */
  lemma {:induction false} FirstOnDifferentCores(cpus: seq<LogicCpu>, all: seq<LogicCpu>, i: nat, j: nat)
    requires forall p | 0 <= p <= |cpus| :: Fair(cpus[..p], all)
    requires multiset(cpus) == multiset(all) && forall t | 0 <= t < |all| :: all[t].coreId >= 0
    requires i < j < |CoreSet(all)| && j < |cpus|
    ensures cpus[i].coreId != cpus[j].coreId
  {
    hide Level, Fair;
    if cpus[i].coreId == cpus[j].coreId {
      var c := cpus[j].coreId;
      assert cpus[j] in multiset(cpus) && cpus[j] in multiset(all) && cpus[j] in all;
      CountTwice(cpus, i, j);
      AllCoresSeen(cpus[..j + 1], all, c);
      CoreSetNext(cpus, j);
      assert c in CoreSet(cpus[..j]) by { assert cpus[..j][i].coreId == c; }
      assert CoreSet(cpus[..j]) + {c} == CoreSet(cpus[..j]);
      CoreSetSize(cpus, j);
      Subset(CoreSet(all), CoreSet(cpus[..j]));
    }
  }

  lemma Subset(a: set<int>, b: set<int>)
    requires a <= b
    ensures |a| <= |b|
  {
    assert b == a + (b - a);
  }

  lemma {:induction false} AllCoresSeen(prefix: seq<LogicCpu>, all: seq<LogicCpu>, c: nat)
    requires Fair(prefix, all) && Count(prefix, c) >= 2 && forall t | 0 <= t < |all| :: all[t].coreId >= 0
    ensures CoreSet(all) <= CoreSet(prefix)
  {
    hide Level, Count;
    var k: nat, m: int :| Level(prefix, all, k, m);
    LevelAt(prefix, all, k, m, c);
    forall d | d in CoreSet(all) ensures d in CoreSet(prefix) {
      CountOfCore(all, d);
      CountOfCore(prefix, d);
      LevelAt(prefix, all, k, m, d);
    }
  }

  /** `mask_core_id`: one flag for every core id that occurs. */
  method MarkCores(logicCpus: array<LogicCpu>, mask: array<bool>) returns (inBounds: bool)
    requires mask.Length == logicCpus.Length && forall c | 0 <= c < mask.Length :: !mask[c]
    modifies mask
    ensures inBounds <==> forall j | 0 <= j < logicCpus.Length :: 0 <= logicCpus[j].coreId < mask.Length
    ensures inBounds ==> forall c | 0 <= c < mask.Length :: mask[c] <==> c in CoreSet(logicCpus[..])
  {
    hide CoreSet;
    var n := logicCpus.Length;
    assert CoreSet(logicCpus[..0]) == {} by { NoCores(logicCpus[..0]); }
    for i := 0 to n
      invariant forall j | 0 <= j < i :: 0 <= logicCpus[j].coreId < n
      invariant forall c | 0 <= c < n :: mask[c] <==> c in CoreSet(logicCpus[..i])
    {
      if !(0 <= logicCpus[i].coreId < n) { return false; }
      CoreSetNext(logicCpus[..], i);
      assert logicCpus[..][..i] == logicCpus[..i] && logicCpus[..][..i + 1] == logicCpus[..i + 1];
      mask[logicCpus[i].coreId] := true;
    }
    assert logicCpus[..n] == logicCpus[..];
    return true;
  }

  lemma NoCores(s: seq<LogicCpu>)
    requires s == []
    ensures CoreSet(s) == {}
  {
  }

  method SumMask(mask: array<bool>) returns (sum: int)
    ensures sum == |set c | 0 <= c < mask.Length && mask[c]|
  {
    sum := 0;
    ghost var seen: set<int> := {};
    for c := 0 to mask.Length
      invariant sum == |seen| && seen == set d | 0 <= d < c && mask[d]
    {
      if mask[c] {
        sum := sum + 1;
        seen := seen + {c};
      }
    }
  }

  /** `cputopGetNumCoreCPU`: the number of cores, if every core id is below the number of CPUs. */
  method GetNumCoreCPU(logicCpus: array<LogicCpu>) returns (ending: Ending, sum: int)
    ensures ending == Refused <==> logicCpus.Length == 0
    ensures ending == Undefined <==>
            exists j :: 0 <= j < logicCpus.Length && !(0 <= logicCpus[j].coreId < logicCpus.Length)
    ensures ending in {Done, Refused, Undefined}
    ensures ending == Done ==> sum == |CoreSet(logicCpus[..])|
  {
    var n := logicCpus.Length;
    if n == 0 { return Refused, -1; }
    var mask := new bool[n];
    for i := 0 to n
      invariant forall c | 0 <= c < i :: !mask[c]
    {
      mask[i] := false;
    }
    var inBounds := MarkCores(logicCpus, mask);
    if !inBounds { return Undefined, 0; }
    sum := SumMask(mask);
    assert (set c | 0 <= c < mask.Length && mask[c]) == CoreSet(logicCpus[..]);
    return Done, sum;
  }

  // ------------------------------------------------------------------ placing threads

  /** `_distributeAttrThreads`: the logical CPU each thread is pinned to. */
  method Distribute(logicCpus: array<LogicCpu>, numThreads: nat) returns (pinned: seq<int>)
    requires logicCpus.Length > 0
    ensures |pinned| == numThreads
    ensures forall t | 0 <= t < numThreads :: pinned[t] == logicCpus[t % logicCpus.Length].id
  {
    pinned := [];
    for t := 0 to numThreads
      invariant |pinned| == t && forall u | 0 <= u < t :: pinned[u] == logicCpus[u % logicCpus.Length].id
    {
      pinned := pinned + [logicCpus[t % logicCpus.Length].id];
    }
  }

  /** How many of the first `threads` threads are on a slot, and on a core. */
  function SlotLoad(n: nat, threads: nat, slot: nat): (load: nat)
    requires n > 0
  {
    if threads == 0 then 0 else SlotLoad(n, threads - 1, slot) + if Extra(threads - 1, n) == slot then 1 else 0
  }

  function CoreLoad(cpus: seq<LogicCpu>, threads: nat, core: int): (load: nat)
    requires |cpus| > 0
  {
    if threads == 0 then 0
    else CoreLoad(cpus, threads - 1, core) + if cpus[Extra(threads - 1, |cpus|)].coreId == core then 1 else 0
  }

  /** Every slot gets floor (T / n) threads or one more. */
  lemma {:induction false} SlotsEven(n: nat, threads: nat, slot: nat)
    requires slot < n
    ensures SlotLoad(n, threads, slot) == Full(threads, n) + if slot < Extra(threads, n) then 1 else 0
  {
    hide Full, Extra;
    if threads > 0 {
      SlotsEven(n, threads - 1, slot);
      DealtNext(threads - 1, n);
    } else {
      DealtFew(0, n);
    }
  }

  lemma {:induction false} CoreLoadIs(cpus: seq<LogicCpu>, threads: nat, core: int)
    requires |cpus| > 0
    ensures CoreLoad(cpus, threads, core)
            == Full(threads, |cpus|) * Count(cpus, core) + Count(cpus[..Extra(threads, |cpus|)], core)
  {
    hide Count, Full, Extra;
    if threads > 0 {
      CoreLoadIs(cpus, threads - 1, core);
      NextThread(cpus, threads - 1, core);
    } else {
      DealtFew(0, |cpus|);
      NoCpus(cpus[..0], core);
    }
  }

  lemma NoCpus(s: seq<LogicCpu>, core: int)
    requires s == []
    ensures Count(s, core) == 0
  {
  }

  lemma {:induction false} NextThread(cpus: seq<LogicCpu>, t: nat, core: int)
    requires |cpus| > 0
    ensures Full(t + 1, |cpus|) * Count(cpus, core) + Count(cpus[..Extra(t + 1, |cpus|)], core)
            == Full(t, |cpus|) * Count(cpus, core) + Count(cpus[..Extra(t, |cpus|)], core)
               + if cpus[Extra(t, |cpus|)].coreId == core then 1 else 0
  {
    hide Count, Full, Extra;
    var n, q, r, whole := |cpus|, Full(t, |cpus|), Extra(t, |cpus|), Count(cpus, core);
    DealtNext(t, n);
    assert cpus[..r + 1] == cpus[..r] + [cpus[r]];
    CountAdd(cpus[..r], cpus[r], core);
    if r + 1 == n {
      assert cpus[..r + 1] == cpus;
      NoCpus(cpus[..0], core);
      assert (q + 1) * whole == q * whole + whole;
    }
  }

  lemma {:induction false} SameCounts(s: seq<LogicCpu>, t: seq<LogicCpu>, core: int)
    requires multiset(s) == multiset(t)
    ensures Count(s, core) == Count(t, core)
  {
    if s == [] {
      assert |multiset(t)| == 0;
    } else {
      var last := s[|s| - 1];
      assert s == s[..|s| - 1] + [last];
      assert last in multiset(t);
      var j :| 0 <= j < |t| && t[j] == last;
      Without(t, j);
      SameCounts(s[..|s| - 1], t[..j] + t[j + 1..], core);
      CountWithout(t, j, core);
    }
  }

  lemma {:induction false} Without(t: seq<LogicCpu>, j: nat)
    requires j < |t|
    ensures multiset(t[..j] + t[j + 1..]) == multiset(t) - multiset{t[j]}
  {
    assert t == t[..j] + [t[j]] + t[j + 1..];
  }

  lemma {:induction false} CountWithout(t: seq<LogicCpu>, j: nat, core: int)
    requires j < |t|
    ensures Count(t, core) == Count(t[..j] + t[j + 1..], core) + if t[j].coreId == core then 1 else 0
  {
    var last := |t| - 1;
    if j == last {
      assert t[..j] + t[j + 1..] == t[..last];
    } else {
      CountWithout(t[..last], j, core);
      assert (t[..j] + t[j + 1..])[..last - 1] == t[..last][..j] + t[..last][j + 1..];
    }
  }

  /** After the reordering, cores with equally many CPUs stay within one thread of each other. */
  lemma {:induction false} EqualCoresEvenLoad(cpus: seq<LogicCpu>, all: seq<LogicCpu>, threads: nat, c: nat, d: nat)
    requires |cpus| > 0 && multiset(cpus) == multiset(all) && forall p | 0 <= p <= |cpus| :: Fair(cpus[..p], all)
    requires Count(all, c) == Count(all, d)
    ensures CoreLoad(cpus, threads, c) <= CoreLoad(cpus, threads, d) + 1
  {
    hide Level, Fair, Full, Extra, Count;
    var r := Extra(threads, |cpus|);
    CoreLoadIs(cpus, threads, c);
    CoreLoadIs(cpus, threads, d);
    SameCounts(cpus, all, c);
    SameCounts(cpus, all, d);
    if Count(cpus[..r], d) < Count(cpus[..r], c) {
      FairShares(cpus[..r], all, d, c);
      CountAtMost(cpus, r, c);
    }
  }

  lemma {:induction false} CountAtMost(s: seq<LogicCpu>, r: nat, core: int)
    requires r <= |s|
    ensures Count(s[..r], core) <= Count(s, core)
    decreases |s| - r
  {
    if r < |s| {
      CountAtMost(s, r + 1, core);
      assert s[..r + 1] == s[..r] + [s[r]];
      CountAdd(s[..r], s[r], core);
    } else {
      assert s[..r] == s;
    }
  }

  // ------------------------------------------------------------------ the whole placement

  /** No two CPUs have the same id. */
  ghost predicate Distinct(cpus: multiset<LogicCpu>)
  {
    && (forall x :: cpus[x] <= 1)
    && (forall x, y | x in cpus && y in cpus && x.id == y.id :: x == y)
  }

  lemma {:induction false} DistinctPlaces(cpus: seq<LogicCpu>, i: nat, j: nat)
    requires Distinct(multiset(cpus)) && i < j < |cpus|
    ensures cpus[i].id != cpus[j].id
  {
    var x := cpus[j];
    assert cpus == cpus[..j] + [x] + cpus[j + 1..];
    assert multiset(cpus) == multiset(cpus[..j]) + multiset{x} + multiset(cpus[j + 1..]);
    assert cpus[i] in multiset(cpus) && x in multiset(cpus);
    assert cpus[i] in cpus[..j];
  }

  lemma {:induction false} SameCores(s: seq<LogicCpu>, t: seq<LogicCpu>)
    requires multiset(s) == multiset(t)
    ensures CoreSet(s) == CoreSet(t)
  {
    SomeCores(s, t);
    SomeCores(t, s);
  }

  lemma {:induction false} SomeCores(s: seq<LogicCpu>, t: seq<LogicCpu>)
    requires multiset(s) == multiset(t)
    ensures CoreSet(s) <= CoreSet(t)
  {
    forall c | c in CoreSet(s) ensures c in CoreSet(t) {
      var j :| 0 <= j < |s| && s[j].coreId == c;
      assert s[j] in multiset(t);
      var i :| 0 <= i < |t| && t[i] == s[j];
    }
  }

  lemma {:induction false} BelowSize(s: seq<LogicCpu>, t: seq<LogicCpu>)
    requires multiset(s) == multiset(t)
    ensures |s| == |t|
    ensures (forall j | 0 <= j < |s| :: s[j].coreId < |s|) ==> forall j | 0 <= j < |t| :: t[j].coreId < |t|
    ensures (forall j | 0 <= j < |s| :: s[j].coreId >= 0) ==> forall j | 0 <= j < |t| :: t[j].coreId >= 0
  {
    assert |multiset(s)| == |multiset(t)|;
    forall j | 0 <= j < |t| ensures exists i :: 0 <= i < |s| && s[i] == t[j] {
      assert t[j] in multiset(t) && t[j] in multiset(s) && t[j] in s;
    }
  }

  /** Thread t is on the CPU with id pinned[t], which is CPU t modulo their number. */
  predicate Placed(pinned: seq<int>, cpus: seq<LogicCpu>)
  {
    |cpus| > 0 && forall t | 0 <= t < |pinned| :: pinned[t] == cpus[Extra(t, |cpus|)].id
  }

  lemma {:induction false} PlacedBefore(pinned: seq<int>, cpus: seq<LogicCpu>)
    requires Placed(pinned, cpus) && pinned != []
    ensures Placed(pinned[..|pinned| - 1], cpus) && pinned[|pinned| - 1] == cpus[Extra(|pinned| - 1, |cpus|)].id
    ensures pinned == pinned[..|pinned| - 1] + [pinned[|pinned| - 1]]
  {
  }

  lemma {:induction false} TimesPinned(pinned: seq<int>, cpus: seq<LogicCpu>, slot: nat)
    requires Placed(pinned, cpus) && Distinct(multiset(cpus)) && slot < |cpus|
    ensures multiset(pinned)[cpus[slot].id] == SlotLoad(|cpus|, |pinned|, slot)
    decreases |pinned|
  {
    hide Placed, Distinct, Extra;
    if pinned != [] {
      var last := |pinned| - 1;
      PlacedBefore(pinned, cpus);
      TimesPinned(pinned[..last], cpus, slot);
      var at := Extra(last, |cpus|);
      if at < slot { DistinctPlaces(cpus, at, slot); } else if slot < at { DistinctPlaces(cpus, slot, at); }
      assert multiset(pinned) == multiset(pinned[..last]) + multiset{pinned[last]};
    }
  }

  /** How many threads are on the CPUs of a core. */
  function OnCore(pinned: seq<int>, cpus: seq<LogicCpu>, core: int): (n: nat)
  {
    if pinned == [] then 0
    else OnCore(pinned[..|pinned| - 1], cpus, core) + if LogicCpu(pinned[|pinned| - 1], core) in cpus then 1 else 0
  }

  lemma {:induction false} CoreOf(cpus: seq<LogicCpu>, all: seq<LogicCpu>, slot: nat, core: int)
    requires multiset(cpus) == multiset(all) && Distinct(multiset(all)) && slot < |cpus|
    ensures LogicCpu(cpus[slot].id, core) in all <==> cpus[slot].coreId == core
  {
    assert cpus[slot] in multiset(cpus) && cpus[slot] in all;
    var x := LogicCpu(cpus[slot].id, core);
    if x in all { assert x in multiset(all) && cpus[slot] in multiset(all); }
  }

  lemma {:induction false} OnCoreIs(pinned: seq<int>, cpus: seq<LogicCpu>, all: seq<LogicCpu>, core: int)
    requires Placed(pinned, cpus) && multiset(cpus) == multiset(all) && Distinct(multiset(all))
    ensures OnCore(pinned, all, core) == CoreLoad(cpus, |pinned|, core)
    decreases |pinned|
  {
    hide Distinct, Extra;
    if pinned != [] {
      PlacedBefore(pinned, cpus);
      OnCoreIs(pinned[..|pinned| - 1], cpus, all, core);
      CoreOf(cpus, all, Extra(|pinned| - 1, |cpus|), core);
    }
  }

  /** Every CPU has floor (T / n) of the T threads or one more. */
  ghost predicate EvenOnCpus(pinned: seq<int>, all: seq<LogicCpu>)
  {
    |all| > 0 && forall cpu | cpu in all ::
      Full(|pinned|, |all|) <= multiset(pinned)[cpu.id] <= Full(|pinned|, |all|) + 1
  }

  /** The first k threads are on different cores. */
  ghost predicate Spread(pinned: seq<int>, all: seq<LogicCpu>, k: int)
  {
    forall t, u, core | 0 <= t < u < |pinned| && u < k ::
      !(LogicCpu(pinned[t], core) in all && LogicCpu(pinned[u], core) in all)
  }

  /** Cores with equally many CPUs have equally many threads, give or take one. */
  ghost predicate EvenOnCores(pinned: seq<int>, all: seq<LogicCpu>)
  {
    forall c: nat, d: nat | Count(all, c) == Count(all, d) :: OnCore(pinned, all, c) <= OnCore(pinned, all, d) + 1
  }

  lemma {:induction false} PlacedEvenly(pinned: seq<int>, cpus: seq<LogicCpu>, all: seq<LogicCpu>)
    requires Placed(pinned, cpus) && multiset(cpus) == multiset(all) && Distinct(multiset(all))
    ensures EvenOnCpus(pinned, all)
  {
    hide Distinct, Full, Extra;
    assert |cpus| == |all| by { assert |multiset(cpus)| == |multiset(all)|; }
    forall cpu | cpu in all
      ensures Full(|pinned|, |all|) <= multiset(pinned)[cpu.id] <= Full(|pinned|, |all|) + 1 {
      assert cpu in multiset(all) && cpu in multiset(cpus);
      var slot :| 0 <= slot < |cpus| && cpus[slot] == cpu;
      TimesPinned(pinned, cpus, slot);
      SlotsEven(|cpus|, |pinned|, slot);
    }
  }

  lemma {:induction false} PlacedSpread(pinned: seq<int>, cpus: seq<LogicCpu>, all: seq<LogicCpu>)
    requires Placed(pinned, cpus) && multiset(cpus) == multiset(all) && Distinct(multiset(all))
    requires forall p | 0 <= p <= |cpus| :: Fair(cpus[..p], all)
    requires forall t | 0 <= t < |all| :: all[t].coreId >= 0
    ensures Spread(pinned, all, |CoreSet(all)|)
  {
    hide Fair, Distinct, Full, Extra;
    assert |CoreSet(all)| <= |cpus| by {
      assert |multiset(cpus)| == |multiset(all)| && all[..|all|] == all;
      CoreSetSize(all, |all|);
    }
    forall t, u, core | 0 <= t < u < |pinned| && u < |CoreSet(all)|
      ensures !(LogicCpu(pinned[t], core) in all && LogicCpu(pinned[u], core) in all) {
      DealtFew(t, |cpus|);
      DealtFew(u, |cpus|);
      CoreOf(cpus, all, t, core);
      CoreOf(cpus, all, u, core);
      FirstOnDifferentCores(cpus, all, t, u);
    }
  }

  lemma {:induction false} PlacedEvenlyOnCores(pinned: seq<int>, cpus: seq<LogicCpu>, all: seq<LogicCpu>)
    requires Placed(pinned, cpus) && multiset(cpus) == multiset(all) && Distinct(multiset(all))
    requires forall p | 0 <= p <= |cpus| :: Fair(cpus[..p], all)
    ensures EvenOnCores(pinned, all)
  {
    hide Fair, Distinct, Count, OnCore, CoreLoad;
    forall c: nat, d: nat | Count(all, c) == Count(all, d)
      ensures OnCore(pinned, all, c) <= OnCore(pinned, all, d) + 1 {
      OnCoreIs(pinned, cpus, all, c);
      OnCoreIs(pinned, cpus, all, d);
      EqualCoresEvenLoad(cpus, all, |pinned|, c, d);
    }
  }

  /** Reordering the CPUs and pinning the threads, as `hpcIntegral` does, with the cores counted in
      between: every CPU gets its share, the first threads have cores of their own, as many as
      `cputopGetNumCoreCPU` counts, and equal cores are loaded equally. */
  method PlaceThreads(logicCpus: array<LogicCpu>, sorted: seq<LogicCpu>, numThreads: nat)
    returns (ending: Ending, counted: Ending, numCores: int, pinned: seq<int>)
    requires multiset(sorted) == multiset(logicCpus[..]) && Sorted(sorted) && Distinct(multiset(sorted))
    modifies logicCpus
    ensures ending == Done <==> logicCpus.Length > 0 && forall j | 0 <= j < |sorted| :: sorted[j].coreId >= 0
    ensures ending == Done ==> |pinned| == numThreads && EvenOnCpus(pinned, sorted) && EvenOnCores(pinned, sorted)
    ensures ending == Done ==> Spread(pinned, sorted, |CoreSet(sorted)|)
    ensures counted == Done <==> ending == Done && forall j | 0 <= j < |sorted| :: sorted[j].coreId < |sorted|
    ensures counted == Done ==> numCores == |CoreSet(sorted)|
    ensures counted == Undefined <==> ending == Done && counted != Done
  {
    hide Distinct, Sorted, Fair, EvenOnCpus, EvenOnCores, Spread, CoreSet;
    counted, numCores, pinned := Refused, -1, [];
    ending := SortUniqSetsCoreId(logicCpus, sorted);
    if ending != Done { return; }
    counted, numCores := GetNumCoreCPU(logicCpus);
    pinned := Distribute(logicCpus, numThreads);
    SameCores(logicCpus[..], sorted);
    BelowSize(logicCpus[..], sorted);
    BelowSize(sorted, logicCpus[..]);
    PlacedEvenly(pinned, logicCpus[..], sorted);
    PlacedEvenlyOnCores(pinned, logicCpus[..], sorted);
    PlacedSpread(pinned, logicCpus[..], sorted);
  }
}
