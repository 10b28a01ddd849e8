/**
 * The parallel matching engine as the sequential protocol beneath its
 * threads: a LIFO frontier of pending states, the counter of states popped
 * but not yet finished, the solution counter and the optional solution log.
 * Each lock-protected region (GetState, PutState, the append of a solution)
 * is one step of a method. The pool's workers are run one after another at
 * the point where the caller joins them, which is one of the interleavings
 * the real threads can produce; module Interleaving covers all of them.
 */
module Engine {
  import opened SearchState

  /** A slot of the worker pool: a default-constructed thread, or the thread
      running Run(threadId), pinned to a CPU when affinity is set. */
  datatype Worker = Unstarted | Started(threadId: nat, affinity: Option<int>)

  /** The CPU worker i is pinned to: successive CPUs from `cpu` on, or none
      when `cpu` is -1 (or below). */
  function AffinityOf(cpu: int, i: nat): (r: Option<int>)
    ensures r.Some? <==> cpu > -1
    ensures r.Some? ==> r.value >= i
  {
    if cpu > -1 then Some(cpu + i) else None
  }

  /** With affinity enabled, no two workers are pinned to the same CPU. */
  lemma DistinctAffinities(cpu: int, i: nat, j: nat)
    requires i != j
    ensures AffinityOf(cpu, i).Some? ==> AffinityOf(cpu, i) != AffinityOf(cpu, j)
  {
  }

  /** Goals still to be counted for the state a worker holds, if any. */
  function Held(s: Option<State>, weight: Weight): nat {
    if s.Some? then Tally(s.value.tree, weight) else 0
  }

  /** Processing t on top of the frontier `before` keeps its goals (t's own
      goal counted, the rest pushed) and removes exactly one node. */
  lemma ProcessAccounts(before: seq<State>, t: State)
    ensures SumTally(before + Expand(t), GoalWeight) + (if IsGoal(t) then 1 else 0)
            == SumTally(before, GoalWeight) + Tally(t.tree, GoalWeight)
    ensures SumTally(before + Expand(t), NodeWeight) + 1 == SumTally(before, NodeWeight) + Tally(t.tree, NodeWeight)
  {
    ExpandCounts(t);
    SumTallyAppend(before, Expand(t), GoalWeight);
    SumTallyAppend(before, Expand(t), NodeWeight);
  }

  class ParallelMatchingEngine {
    const numThreads: nat
    const storeSolutions: bool
    const cpu: int
    /** The optional visitor called on each goal; it cannot change the search. */
    const visit: Option<State -> bool>

    var solCount: nat
    var activeWorkerCount: int
    /** The frontier; its top is the last element. */
    var globalStateStack: seq<State>
    var solutions: seq<Solution>
    var pool: seq<Worker>

    ghost predicate Valid()
      reads this
    {
      && |pool| == numThreads
      && activeWorkerCount >= 0
      && (if storeSolutions then |solutions| == solCount else solutions == [])
    }

    constructor (numThreads: nat, storeSolutions: bool := false, cpu: int := -1,
                 visit: Option<State -> bool> := None)
      ensures Valid()
      ensures this.numThreads == numThreads && this.storeSolutions == storeSolutions
      ensures this.cpu == cpu && this.visit == visit
      ensures solCount == 0 && activeWorkerCount == 0
      ensures globalStateStack == [] && solutions == []
      ensures pool == seq(numThreads, i => Unstarted)
    {
      this.numThreads := numThreads;
      this.storeSolutions := storeSolutions;
      this.cpu := cpu;
      this.visit := visit;
      solCount := 0;
      activeWorkerCount := 0;
      globalStateStack := [];
      solutions := [];
      pool := seq(numThreads, i => Unstarted);
    }

    method GetSolutionsCount() returns (count: nat)
      ensures count == solCount
    {
      count := solCount;
    }

    method GetThreadCount() returns (count: nat)
      requires Valid()
      ensures count == numThreads
    {
      count := |pool|;
    }

    method PutState(s: State)
      modifies this`globalStateStack
      ensures globalStateStack == old(globalStateStack) + [s]
    {
      globalStateStack := globalStateStack + [s];
    }

    method GetState() returns (res: Option<State>)
      requires Valid()
      modifies this`globalStateStack, this`activeWorkerCount
      ensures Valid()
      ensures old(globalStateStack) == [] ==>
                res == None && globalStateStack == [] && activeWorkerCount == old(activeWorkerCount)
      ensures old(globalStateStack) != [] ==>
                && res == Some(old(globalStateStack)[|old(globalStateStack)| - 1])
                && globalStateStack == old(globalStateStack)[..|old(globalStateStack)| - 1]
                && activeWorkerCount == old(activeWorkerCount) + 1
    {
      res := None;
      if |globalStateStack| > 0 {
        res := Some(globalStateStack[|globalStateStack| - 1]);
        globalStateStack := globalStateStack[..|globalStateStack| - 1];
        activeWorkerCount := activeWorkerCount + 1;
      }
    }

    method ProcessState(s: State) returns (matched: bool)
      requires Valid()
      modifies this`globalStateStack, this`solCount, this`solutions
      ensures Valid()
      ensures globalStateStack == old(globalStateStack) + Expand(s)
      ensures solCount == old(solCount) + (if IsGoal(s) then 1 else 0)
      ensures solutions == if storeSolutions && IsGoal(s) then old(solutions) + [GetCoreSet(s)]
                           else old(solutions)
      ensures matched == (IsGoal(s) && (visit.Some? ==> visit.value(s)))
    {
      if IsGoal(s) {
        solCount := solCount + 1;
        if storeSolutions {
          solutions := solutions + [GetCoreSet(s)];
        }
        if visit.Some? {
          return visit.value(s);
        }
        return true;
      }
      if IsDead(s) {
        return false;
      }
      var next := NextPair(s, NullNode);
      ghost var pushed: seq<State> := [];
      while next.Some?
        invariant next.Some? ==> next.value.At? && next.value.index < |s.tree.candidates|
        invariant pushed + FeasibleFrom(s, if next.Some? then next.value.index else |s.tree.candidates|)
                  == Children(s)
        invariant globalStateStack == old(globalStateStack) + pushed
        invariant solCount == old(solCount) && solutions == old(solutions)
        decreases |s.tree.candidates| - (if next.Some? then next.value.index else |s.tree.candidates|)
      {
        var cur := next.value;
        ghost var rest := FeasibleFrom(s, cur.index + 1);
        if IsFeasiblePair(s, cur) {
          var child := AddPair(s, cur);
          assert FeasibleFrom(s, cur.index) == [child] + rest;
          PutState(child);
          pushed := pushed + [child];
          assert pushed + rest == Children(s);
        } else {
          assert FeasibleFrom(s, cur.index) == rest;
        }
        next := NextPair(s, cur);
      }
      return false;
    }

    /** One worker's loop, run while no other worker holds a state. */
    method Run(threadId: nat)
      requires Valid() && activeWorkerCount == 0
      modifies this`globalStateStack, this`solCount, this`solutions, this`activeWorkerCount
      ensures Valid()
      ensures globalStateStack == [] && activeWorkerCount == 0
      ensures solCount == old(solCount) + SumTally(old(globalStateStack), GoalWeight)
    {
      var s: Option<State> := None;
      var more := true;
      while more
        invariant Valid()
        invariant activeWorkerCount == if s.Some? then 1 else 0
        invariant !more ==> s.None? && globalStateStack == []
        invariant solCount + SumTally(globalStateStack, GoalWeight) + Held(s, GoalWeight)
                  == old(solCount) + SumTally(old(globalStateStack), GoalWeight)
        decreases SumTally(globalStateStack, NodeWeight) + Held(s, NodeWeight)
                  + (if more && s.None? then 1 else 0)
      {
        if s.Some? {
          var t := s.value;
          ghost var before := globalStateStack;
          var _ := ProcessState(t);
          ProcessAccounts(before, t);
          activeWorkerCount := activeWorkerCount - 1;
        }
        s := GetState();
        more := s.Some? || activeWorkerCount > 0;
      }
    }

    /** Fills the pool with the threads running Run(0) .. Run(numThreads - 1),
        pinning thread i to CPU cpu + i when affinity is enabled. */
    method StartPool()
      requires Valid()
      modifies this`pool
      ensures Valid()
      ensures forall i :: 0 <= i < |pool| ==> pool[i] == Started(i, AffinityOf(cpu, i))
    {
      var currentCpu := cpu;
      var i := 0;
      while i < numThreads
        invariant 0 <= i <= numThreads == |pool|
        invariant currentCpu == if cpu > -1 then cpu + i else cpu
        invariant forall j :: 0 <= j < i ==> pool[j] == Started(j, AffinityOf(cpu, j))
      {
        var affinity: Option<int> := None;
        if currentCpu > -1 {
          affinity := Some(currentCpu);
          currentCpu := currentCpu + 1;
        }
        pool := pool[i := Started(i, affinity)];
        i := i + 1;
      }
    }

    /** Expands the root on the caller, starts the pool and joins it. */
    method FindAllMatchings(root: State) returns (ok: bool)
      requires Valid() && activeWorkerCount == 0
      modifies this`globalStateStack, this`solCount, this`solutions, this`activeWorkerCount, this`pool
      ensures Valid() && ok && activeWorkerCount == 0
      ensures forall i :: 0 <= i < |pool| ==> pool[i] == Started(i, AffinityOf(cpu, i))
      ensures numThreads > 0 ==>
                && globalStateStack == []
                && solCount == old(solCount) + SumTally(old(globalStateStack), GoalWeight)
                               + GoalCount(root.tree)
      ensures numThreads == 0 ==>
                && globalStateStack == old(globalStateStack) + Expand(root)
                && solCount == old(solCount) + (if IsGoal(root) then 1 else 0)
    {
      var _ := ProcessState(root);
      StartPool();
      ghost var seeded := globalStateStack;
      ghost var seededCount := solCount;
      ExpandCounts(root);
      SumTallyAppend(old(globalStateStack), Expand(root), GoalWeight);
      var i := 0;
      while i < |pool|
        invariant 0 <= i <= |pool| == numThreads
        invariant Valid() && activeWorkerCount == 0
        invariant forall j :: 0 <= j < |pool| ==> pool[j] == Started(j, AffinityOf(cpu, j))
        invariant i == 0 ==> globalStateStack == seeded && solCount == seededCount
        invariant i > 0 ==> globalStateStack == [] && solCount == seededCount + SumTally(seeded, GoalWeight)
      {
        if pool[i].Started? {
          Run(pool[i].threadId);
        }
        i := i + 1;
      }
      ok := true;
    }
  }
}
