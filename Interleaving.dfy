/**
 * The worker pool with its interleavings. Each worker is a program counter
 * in Run's loop; a step of one worker is one atomic action of the source:
 * GetState (pop and, on success, increment the counter under the frontier
 * lock), the loop test, the goal/dead classification with the increment of
 * the solution counter, the append of a solution under the solutions lock,
 * one NextPair call with its PutState, and the release (delete and
 * decrement). A schedule is the sequence of workers the scheduler lets take
 * their next step; every schedule is allowed.
 */
module Interleaving {
  import opened SearchState

  /** Where a worker is in Run's loop. */
  datatype Phase =
    | Fetching                            // about to call GetState
    | Testing(held: Option<State>)        // GetState returned; about to test the loop condition
    | Classifying(s: State)               // about to run ProcessState on s
    | Storing(s: State)                   // goal counted; about to append its solution
    | Expanding(s: State, cursor: Cursor) // walking the NextPair cursor of a live state
    | Releasing(s: State)                 // ProcessState done; about to delete s and decrement
    | Exited                              // left the loop

  /** Shared state of the engine and the phases of its workers, with logs of
      every state pushed, popped and released. */
  datatype Config = Config(
    storeSolutions: bool,
    stack: seq<State>,
    activeWorkerCount: int,
    solCount: nat,
    solutions: seq<Solution>,
    workers: seq<Phase>,
    pushed: multiset<State>,
    popped: multiset<State>,
    released: multiset<State>)

  /** The configuration when the pool starts: the caller has expanded the
      root (pushing its children, counting it if it is a goal) and every
      worker is about to make its first GetState call. */
  function Init(root: State, numThreads: nat, storeSolutions: bool): (c: Config)
    ensures |c.workers| == numThreads && c.activeWorkerCount == 0
    ensures c.solCount + SumTally(c.stack, GoalWeight) == GoalCount(root.tree)
    ensures c.storeSolutions == storeSolutions && (storeSolutions ==> |c.solutions| == c.solCount)
  {
    ExpandCounts(root);
    var goal := IsGoal(root);
    Config(storeSolutions, Expand(root), 0, if goal then 1 else 0,
           if storeSolutions && goal then [GetCoreSet(root)] else [],
           seq(numThreads, i => Fetching), multiset(Expand(root)), multiset{}, multiset{})
  }

  /** GetState: pop the top of the frontier and raise the counter, or find
      the frontier empty. */
  function PopStep(c: Config, w: nat): Config
    requires w < |c.workers|
  {
    if c.stack == [] then c.(workers := c.workers[w := Testing(None)])
    else
      var top := c.stack[|c.stack| - 1];
      c.(stack := c.stack[..|c.stack| - 1], activeWorkerCount := c.activeWorkerCount + 1,
         popped := c.popped + multiset{top}, workers := c.workers[w := Testing(Some(top))])
  }

  /** The loop condition: go on with a popped state, retry while some worker
      holds a state, and leave otherwise. */
  function TestStep(c: Config, w: nat, held: Option<State>): Config
    requires w < |c.workers|
  {
    if held.Some? then c.(workers := c.workers[w := Classifying(held.value)])
    else if c.activeWorkerCount > 0 then c.(workers := c.workers[w := Fetching])
    else c.(workers := c.workers[w := Exited])
  }

  /** The start of ProcessState: count a goal, drop a dead state, or start
      the NextPair cursor of a live one. */
  function ClassifyStep(c: Config, w: nat, s: State): Config
    requires w < |c.workers|
  {
    if IsGoal(s) then
      c.(solCount := c.solCount + 1,
         workers := c.workers[w := if c.storeSolutions then Storing(s) else Releasing(s)])
    else if IsDead(s) then c.(workers := c.workers[w := Releasing(s)])
    else c.(workers := c.workers[w := Expanding(s, NullNode)])
  }

  /** Append a goal's core set to the solution log, under its lock. */
  function StoreStep(c: Config, w: nat, s: State): Config
    requires w < |c.workers|
  {
    c.(solutions := c.solutions + [GetCoreSet(s)], workers := c.workers[w := Releasing(s)])
  }

  /** One NextPair call, with the PutState of the child when the pair is
      feasible. */
  function NextPairStep(c: Config, w: nat, s: State, cursor: Cursor): Config
    requires w < |c.workers|
  {
    var next := NextPair(s, cursor);
    if next.None? then c.(workers := c.workers[w := Releasing(s)])
    else if IsFeasiblePair(s, next.value) then
      var child := AddPair(s, next.value);
      c.(stack := c.stack + [child], pushed := c.pushed + multiset{child},
         workers := c.workers[w := Expanding(s, next.value)])
    else c.(workers := c.workers[w := Expanding(s, next.value)])
  }

  /** Delete the processed state and lower the counter. */
  function ReleaseStep(c: Config, w: nat, s: State): Config
    requires w < |c.workers|
  {
    c.(activeWorkerCount := c.activeWorkerCount - 1, released := c.released + multiset{s},
       workers := c.workers[w := Fetching])
  }

  /** Worker w takes its next atomic step. */
  function Step(c: Config, w: nat): (c': Config)
    requires w < |c.workers|
    ensures |c'.workers| == |c.workers| && c'.storeSolutions == c.storeSolutions
  {
    match c.workers[w]
    case Fetching => PopStep(c, w)
    case Testing(held) => TestStep(c, w, held)
    case Classifying(s) => ClassifyStep(c, w, s)
    case Storing(s) => StoreStep(c, w, s)
    case Expanding(s, cursor) => NextPairStep(c, w, s, cursor)
    case Releasing(s) => ReleaseStep(c, w, s)
    case Exited => c
  }

  predicate ValidSchedule(c: Config, schedule: seq<nat>) {
    forall k :: 0 <= k < |schedule| ==> schedule[k] < |c.workers|
  }

  /** The configuration after the workers of `schedule` took their steps in turn. */
  function Execute(c: Config, schedule: seq<nat>): (c': Config)
    requires ValidSchedule(c, schedule)
    ensures |c'.workers| == |c.workers| && c'.storeSolutions == c.storeSolutions
    decreases |schedule|
  {
    if schedule == [] then c else Execute(Step(c, schedule[0]), schedule[1..])
  }

  /** No step lowers the solution counter or touches a logged solution: the
      count only grows and the log only grows at its end. */
  lemma StepAppendsOnly(c: Config, w: nat)
    requires w < |c.workers|
    ensures Step(c, w).solCount >= c.solCount
    ensures |Step(c, w).solutions| >= |c.solutions| && Step(c, w).solutions[..|c.solutions|] == c.solutions
  {
  }

  /** Over any schedule the counter never drops and the logged solutions
      stay as they were, in place. */
  lemma {:induction false} ExecuteAppendsOnly(c: Config, schedule: seq<nat>)
    requires ValidSchedule(c, schedule)
    ensures Execute(c, schedule).solCount >= c.solCount
    ensures |Execute(c, schedule).solutions| >= |c.solutions|
    ensures Execute(c, schedule).solutions[..|c.solutions|] == c.solutions
    decreases |schedule|
  {
    if schedule != [] {
      var c' := Step(c, schedule[0]);
      StepAppendsOnly(c, schedule[0]);
      ExecuteAppendsOnly(c', schedule[1..]);
      assert Execute(c', schedule[1..]).solutions[..|c'.solutions|][..|c.solutions|]
             == Execute(c', schedule[1..]).solutions[..|c.solutions|];
    }
  }

  predicate AllExited(c: Config) {
    forall i :: 0 <= i < |c.workers| ==> c.workers[i].Exited?
  }

  /** A worker holds a popped state it has not yet released. */
  predicate Holds(p: Phase) {
    (p.Testing? && p.held.Some?) || p.Classifying? || p.Storing? || p.Expanding? || p.Releasing?
  }

  /** A worker that holds a state or is about to pop one. */
  predicate Busy(p: Phase) { p.Fetching? || Holds(p) }

  function HeldState(p: Phase): State
    requires Holds(p)
  {
    if p.Testing? then p.held.value else p.s
  }

  /** An expanding worker walks the cursor of a live state and has not run
      past its candidates. */
  predicate PhaseOk(p: Phase) {
    p.Expanding? ==>
      !IsGoal(p.s) && !IsDead(p.s) && NextIndex(p.cursor) <= |p.s.tree.candidates|
  }

  function HeldWeight(p: Phase): nat { if Holds(p) then 1 else 0 }

  function StoringWeight(p: Phase): nat { if p.Storing? then 1 else 0 }

  /** Goals still to be counted for the state a worker holds. */
  function PendingGoals(p: Phase): nat {
    match p
    case Testing(held) => if held.Some? then GoalCount(held.value.tree) else 0
    case Classifying(s) => GoalCount(s.tree)
    case Expanding(s, cursor) =>
      if NextIndex(cursor) <= |s.tree.candidates| then TallyFrom(s.tree, NextIndex(cursor), GoalWeight)
      else 0
    case _ => 0
  }

  /** The per-worker quantities the invariant and the liveness measure add up. */
  datatype PhaseMeasure = HolderCount | StorerCount | PendingCount | WorkCount | IdleCount

  function Measure(m: PhaseMeasure, p: Phase): nat {
    match m
    case HolderCount => HeldWeight(p)
    case StorerCount => StoringWeight(p)
    case PendingCount => PendingGoals(p)
    case WorkCount => PhaseWork(p)
    case IdleCount => IdleWeight(p)
  }

  function SumPhases(ws: seq<Phase>, m: PhaseMeasure): nat {
    if ws == [] then 0 else Measure(m, ws[0]) + SumPhases(ws[1..], m)
  }

  /** The state a worker holds, as a multiset of at most one element. */
  function HeldBag(p: Phase): multiset<State> {
    if Holds(p) then multiset{HeldState(p)} else multiset{}
  }

  function HeldStates(ws: seq<Phase>): multiset<State> {
    if ws == [] then multiset{} else HeldBag(ws[0]) + HeldStates(ws[1..])
  }

  /** The protocol's invariant, for a run that started from `root`. */
  ghost predicate Inv(c: Config, root: State) {
    && (forall i :: 0 <= i < |c.workers| ==> PhaseOk(c.workers[i]))
    // the counter is the number of states popped and not yet released
    && c.activeWorkerCount == SumPhases(c.workers, HolderCount)
    // every goal below the root is counted, on the frontier, or below a held state
    && c.solCount + SumTally(c.stack, GoalWeight) + SumPhases(c.workers, PendingCount)
       == GoalCount(root.tree)
    // each counted goal is logged, or about to be, when solutions are stored
    && |c.solutions| + SumPhases(c.workers, StorerCount) == (if c.storeSolutions then c.solCount else 0)
    // a non-empty frontier always has a worker that will still pop from it
    && (c.stack != [] ==> exists i :: 0 <= i < |c.workers| && Busy(c.workers[i]))
    // every pushed state is on the frontier or was popped; every popped one is held or released
    && c.pushed == c.popped + multiset(c.stack)
    && c.popped == c.released + HeldStates(c.workers)
  }

  lemma {:induction false} SumPhasesUpdate(ws: seq<Phase>, i: nat, p: Phase, m: PhaseMeasure)
    requires i < |ws|
    ensures SumPhases(ws[i := p], m) + Measure(m, ws[i]) == SumPhases(ws, m) + Measure(m, p)
    decreases |ws|
  {
    if i == 0 {
      assert ws[i := p][1..] == ws[1..];
    } else {
      assert ws[i := p][1..] == ws[1..][i - 1 := p];
      SumPhasesUpdate(ws[1..], i - 1, p, m);
    }
  }

  lemma {:induction false} HeldStatesUpdate(ws: seq<Phase>, i: nat, p: Phase)
    requires i < |ws|
    ensures HeldStates(ws[i := p]) + HeldBag(ws[i]) == HeldStates(ws) + HeldBag(p)
    decreases |ws|
  {
    var ws' := ws[i := p];
    if i == 0 {
      assert ws'[1..] == ws[1..];
    } else {
      assert ws'[1..] == ws[1..][i - 1 := p] && ws'[0] == ws[0];
      HeldStatesUpdate(ws[1..], i - 1, p);
      AddLeft(HeldBag(ws[0]), HeldStates(ws'[1..]), HeldBag(ws[i]), HeldStates(ws[1..]), HeldBag(p));
    }
  }

  lemma AddLeft(h: multiset<State>, a: multiset<State>, x: multiset<State>, b: multiset<State>, y: multiset<State>)
    requires a + x == b + y
    ensures (h + a) + x == (h + b) + y
  {
    forall e ensures ((h + a) + x)[e] == ((h + b) + y)[e] {
      assert (a + x)[e] == (b + y)[e];
    }
  }

  lemma {:induction false} IdleSums(ws: seq<Phase>, m: PhaseMeasure)
    requires forall i :: 0 <= i < |ws| ==> !Holds(ws[i]) && Measure(m, ws[i]) == 0
    ensures SumPhases(ws, m) == 0 && HeldStates(ws) == multiset{}
    decreases |ws|
  {
    if ws != [] {
      IdleSums(ws[1..], m);
    }
  }

  /** A step from c to c' of worker w that changes only w's phase and the
      shared state, and balances the books: the counter follows w's holding,
      no goal is gained or lost, the log follows the counter, and the states
      P pushed, Q popped and R released match what w picks up and drops. */
  ghost predicate Balanced(c: Config, c': Config, w: nat,
                           P: multiset<State>, Q: multiset<State>, R: multiset<State>) {
    && w < |c.workers|
    && c'.storeSolutions == c.storeSolutions
    && |c'.workers| == |c.workers| && c'.workers == c.workers[w := c'.workers[w]]
    && PhaseOk(c'.workers[w])
    && (c'.stack == [] || Busy(c'.workers[w]) || (c'.stack == c.stack && !Busy(c.workers[w])))
    && c'.activeWorkerCount + HeldWeight(c.workers[w]) == c.activeWorkerCount + HeldWeight(c'.workers[w])
    && c'.solCount + SumTally(c'.stack, GoalWeight) + PendingGoals(c'.workers[w])
       == c.solCount + SumTally(c.stack, GoalWeight) + PendingGoals(c.workers[w])
    && |c'.solutions| + StoringWeight(c'.workers[w])
       == |c.solutions| + StoringWeight(c.workers[w]) + (if c.storeSolutions then c'.solCount - c.solCount else 0)
    && c'.pushed == c.pushed + P
    && c'.popped == c.popped + Q
    && multiset(c'.stack) + Q == multiset(c.stack) + P
    && c'.released == c.released + R
    && HeldBag(c'.workers[w]) + R == HeldBag(c.workers[w]) + Q
  }

  /** A balanced step keeps the invariant. */
  lemma InvAfter(c: Config, c': Config, root: State, w: nat,
                 P: multiset<State>, Q: multiset<State>, R: multiset<State>)
    requires Inv(c, root) && Balanced(c, c', w, P, Q, R)
    ensures Inv(c', root)
  {
    var ws, ws' := c.workers, c'.workers;
    SumPhasesUpdate(ws, w, ws'[w], HolderCount);
    SumPhasesUpdate(ws, w, ws'[w], PendingCount);
    SumPhasesUpdate(ws, w, ws'[w], StorerCount);
    HeldStatesUpdate(ws, w, ws'[w]);
    forall i | 0 <= i < |ws'| ensures PhaseOk(ws'[i]) {
      if i != w { assert ws'[i] == ws[i]; }
    }
    if c'.stack != [] {
      if Busy(ws'[w]) {
        assert 0 <= w < |ws'| && Busy(ws'[w]);
      } else {
        var i :| 0 <= i < |ws| && Busy(ws[i]);
        assert i != w && ws'[i] == ws[i];
      }
    }
    FrontierBalance(c.pushed, c.popped, multiset(c.stack), c'.pushed, c'.popped, multiset(c'.stack), P, Q);
    OwnershipBalance(c.popped, c.released, HeldStates(ws), c'.popped, c'.released, HeldStates(ws'),
                     Q, R, HeldBag(ws[w]), HeldBag(ws'[w]));
  }

  /** Pushed = popped + frontier survives pushing P and popping Q. */
  lemma FrontierBalance(pu: multiset<State>, po: multiset<State>, st: multiset<State>,
                        pu': multiset<State>, po': multiset<State>, st': multiset<State>,
                        P: multiset<State>, Q: multiset<State>)
    requires pu == po + st
    requires pu' == pu + P && po' == po + Q && st' + Q == st + P
    ensures pu' == po' + st'
  {
    forall x ensures pu'[x] == (po' + st')[x] {
      assert (st' + Q)[x] == (st + P)[x];
    }
  }

  /** Popped = released + held survives popping Q and releasing R, when the
      held states change by exactly those. */
  lemma OwnershipBalance(po: multiset<State>, re: multiset<State>, h: multiset<State>,
                         po': multiset<State>, re': multiset<State>, h': multiset<State>,
                         Q: multiset<State>, R: multiset<State>,
                         before: multiset<State>, after: multiset<State>)
    requires po == re + h
    requires po' == po + Q && re' == re + R
    requires h' + before == h + after && after + R == before + Q
    ensures po' == re' + h'
  {
    forall x ensures po'[x] == (re' + h')[x] {
      assert (h' + before)[x] == (h + after)[x];
      assert (after + R)[x] == (before + Q)[x];
    }
  }

  // Each atomic action is balanced; none of this needs the invariant.

  lemma FetchEmptyBalanced(c: Config, w: nat)
    requires w < |c.workers| && c.workers[w].Fetching? && c.stack == []
    ensures Balanced(c, PopStep(c, w), w, multiset{}, multiset{}, multiset{})
    ensures PopStep(c, w).stack == c.stack && PopStep(c, w).solutions == c.solutions
  {
  }

  lemma PopBalanced(c: Config, w: nat)
    requires w < |c.workers| && c.workers[w].Fetching? && c.stack != []
    ensures Balanced(c, PopStep(c, w), w, multiset{}, multiset{c.stack[|c.stack| - 1]}, multiset{})
  {
    var top := c.stack[|c.stack| - 1];
    var rest := c.stack[..|c.stack| - 1];
    assert c.stack == rest + [top];
    assert SumTally(c.stack, GoalWeight) == SumTally(rest, GoalWeight) + GoalCount(top.tree);
    assert multiset(c.stack) == multiset(rest) + multiset{top};
  }

  lemma TestBalanced(c: Config, w: nat)
    requires w < |c.workers| && c.workers[w].Testing?
    ensures Balanced(c, TestStep(c, w, c.workers[w].held), w, multiset{}, multiset{}, multiset{})
    ensures var c' := TestStep(c, w, c.workers[w].held);
            c'.stack == c.stack && c'.solutions == c.solutions && c'.solCount == c.solCount
  {
    var held := c.workers[w].held;
    var c' := TestStep(c, w, held);
    assert c'.stack == c.stack && c'.activeWorkerCount == c.activeWorkerCount;
    if held.Some? {
      assert c'.workers[w] == Classifying(held.value);
    } else if c.activeWorkerCount > 0 {
      assert c'.workers[w] == Fetching;
    } else {
      assert c'.workers[w] == Exited && !Busy(c.workers[w]);
    }
  }

  lemma ClassifyBalanced(c: Config, w: nat)
    requires w < |c.workers| && c.workers[w].Classifying?
    ensures Balanced(c, ClassifyStep(c, w, c.workers[w].s), w, multiset{}, multiset{}, multiset{})
  {
    var t := c.workers[w].s.tree;
    assert GoalCount(t) == WeightOf(GoalWeight, t) + (if t.goal || t.dead then 0 else TallyFrom(t, 0, GoalWeight));
  }

  lemma StoreBalanced(c: Config, w: nat)
    requires w < |c.workers| && c.workers[w].Storing?
    ensures Balanced(c, StoreStep(c, w, c.workers[w].s), w, multiset{}, multiset{}, multiset{})
    ensures var c' := StoreStep(c, w, c.workers[w].s);
            && c'.stack == c.stack && c'.solCount == c.solCount
            && c'.solutions == c.solutions + [GetCoreSet(c.workers[w].s)]
  {
  }

  /** The NextPair step that finds the candidates exhausted, or skips an
      infeasible one. */
  lemma AdvanceBalanced(c: Config, w: nat)
    requires w < |c.workers| && c.workers[w].Expanding? && PhaseOk(c.workers[w])
    requires var p := c.workers[w];
             NextIndex(p.cursor) == |p.s.tree.candidates| || !p.s.tree.candidates[NextIndex(p.cursor)].feasible
    ensures var p := c.workers[w];
            Balanced(c, NextPairStep(c, w, p.s, p.cursor), w, multiset{}, multiset{}, multiset{})
  {
    var s, cursor := c.workers[w].s, c.workers[w].cursor;
    var k := NextIndex(cursor);
    if k < |s.tree.candidates| {
      assert TallyFrom(s.tree, k, GoalWeight) == TallyFrom(s.tree, k + 1, GoalWeight);
    }
  }

  /** The NextPair step that pushes the child of a feasible candidate. */
  lemma PushBalanced(c: Config, w: nat)
    requires w < |c.workers| && c.workers[w].Expanding? && PhaseOk(c.workers[w])
    requires NextIndex(c.workers[w].cursor) < |c.workers[w].s.tree.candidates|
    requires c.workers[w].s.tree.candidates[NextIndex(c.workers[w].cursor)].feasible
    ensures var p := c.workers[w];
            Balanced(c, NextPairStep(c, w, p.s, p.cursor), w,
                     multiset{AddPair(p.s, At(NextIndex(p.cursor)))}, multiset{}, multiset{})
  {
    var s, cursor := c.workers[w].s, c.workers[w].cursor;
    var k := NextIndex(cursor);
    var child := AddPair(s, At(k));
    var c' := NextPairStep(c, w, s, cursor);
    assert c'.stack == c.stack + [child];
    assert c'.stack[..|c.stack|] == c.stack;
    assert SumTally(c'.stack, GoalWeight) == SumTally(c.stack, GoalWeight) + GoalCount(child.tree);
    assert TallyFrom(s.tree, k, GoalWeight) == GoalCount(child.tree) + TallyFrom(s.tree, k + 1, GoalWeight);
  }

  lemma ReleaseBalanced(c: Config, w: nat)
    requires w < |c.workers| && c.workers[w].Releasing?
    ensures Balanced(c, ReleaseStep(c, w, c.workers[w].s), w, multiset{}, multiset{}, multiset{c.workers[w].s})
  {
  }

  lemma FetchKeepsInv(c: Config, root: State, w: nat)
    requires Inv(c, root) && w < |c.workers| && c.workers[w].Fetching?
    ensures Inv(Step(c, w), root)
  {
    if c.stack == [] {
      FetchEmptyBalanced(c, w);
      InvAfter(c, Step(c, w), root, w, multiset{}, multiset{}, multiset{});
    } else {
      PopKeepsInv(c, root, w);
    }
  }

  lemma PopKeepsInv(c: Config, root: State, w: nat)
    requires Inv(c, root) && w < |c.workers| && c.workers[w].Fetching? && c.stack != []
    ensures Inv(Step(c, w), root)
  {
    PopBalanced(c, w);
    InvAfter(c, Step(c, w), root, w, multiset{}, multiset{c.stack[|c.stack| - 1]}, multiset{});
  }

  lemma TestKeepsInv(c: Config, root: State, w: nat)
    requires Inv(c, root) && w < |c.workers| && c.workers[w].Testing?
    ensures Inv(Step(c, w), root)
  {
    TestBalanced(c, w);
    InvAfter(c, Step(c, w), root, w, multiset{}, multiset{}, multiset{});
  }

  lemma ClassifyKeepsInv(c: Config, root: State, w: nat)
    requires Inv(c, root) && w < |c.workers| && c.workers[w].Classifying?
    ensures Inv(Step(c, w), root)
  {
    ClassifyBalanced(c, w);
    InvAfter(c, Step(c, w), root, w, multiset{}, multiset{}, multiset{});
  }

  lemma StoreKeepsInv(c: Config, root: State, w: nat)
    requires Inv(c, root) && w < |c.workers| && c.workers[w].Storing?
    ensures Inv(Step(c, w), root)
  {
    StoreBalanced(c, w);
    InvAfter(c, Step(c, w), root, w, multiset{}, multiset{}, multiset{});
  }

  lemma ExpandKeepsInv(c: Config, root: State, w: nat)
    requires Inv(c, root) && w < |c.workers| && c.workers[w].Expanding?
    ensures Inv(Step(c, w), root)
  {
    var p := c.workers[w];
    assert PhaseOk(p);
    var k := NextIndex(p.cursor);
    if k < |p.s.tree.candidates| && p.s.tree.candidates[k].feasible {
      PushKeepsInv(c, root, w);
    } else {
      AdvanceBalanced(c, w);
      InvAfter(c, Step(c, w), root, w, multiset{}, multiset{}, multiset{});
    }
  }

  lemma PushKeepsInv(c: Config, root: State, w: nat)
    requires Inv(c, root) && w < |c.workers| && c.workers[w].Expanding?
    requires NextIndex(c.workers[w].cursor) < |c.workers[w].s.tree.candidates|
    requires c.workers[w].s.tree.candidates[NextIndex(c.workers[w].cursor)].feasible
    ensures Inv(Step(c, w), root)
  {
    var p := c.workers[w];
    assert PhaseOk(p);
    PushBalanced(c, w);
    InvAfter(c, Step(c, w), root, w, multiset{AddPair(p.s, At(NextIndex(p.cursor)))}, multiset{}, multiset{});
  }

  lemma ReleaseKeepsInv(c: Config, root: State, w: nat)
    requires Inv(c, root) && w < |c.workers| && c.workers[w].Releasing?
    ensures Inv(Step(c, w), root)
  {
    ReleaseBalanced(c, w);
    InvAfter(c, Step(c, w), root, w, multiset{}, multiset{}, multiset{c.workers[w].s});
  }

  /** Every atomic step of every worker preserves the invariant. */
  lemma StepKeepsInv(c: Config, root: State, w: nat)
    requires Inv(c, root) && w < |c.workers|
    ensures Inv(Step(c, w), root)
  {
    match c.workers[w]
    case Fetching => FetchKeepsInv(c, root, w);
    case Testing(_) => TestKeepsInv(c, root, w);
    case Classifying(_) => ClassifyKeepsInv(c, root, w);
    case Storing(_) => StoreKeepsInv(c, root, w);
    case Expanding(_, _) => ExpandKeepsInv(c, root, w);
    case Releasing(_) => ReleaseKeepsInv(c, root, w);
    case Exited =>
  }

  /** The invariant holds when the pool starts, provided it has a worker. */
  lemma InitInv(root: State, numThreads: nat, storeSolutions: bool)
    requires numThreads > 0
    ensures Inv(Init(root, numThreads, storeSolutions), root)
  {
    var c := Init(root, numThreads, storeSolutions);
    ExpandCounts(root);
    IdleSums(c.workers, HolderCount);
    IdleSums(c.workers, PendingCount);
    IdleSums(c.workers, StorerCount);
    assert Busy(c.workers[0]);
  }

  lemma {:induction false} ExecuteKeepsInv(c: Config, root: State, schedule: seq<nat>)
    requires Inv(c, root) && ValidSchedule(c, schedule)
    ensures Inv(Execute(c, schedule), root)
    decreases |schedule|
  {
    if schedule != [] {
      StepKeepsInv(c, root, schedule[0]);
      ExecuteKeepsInv(Step(c, schedule[0]), root, schedule[1..]);
    }
  }

  /** Once every worker has left its loop the frontier is empty, no state is
      in flight, every goal has been counted (and logged when storing), and
      every pushed state was popped and released exactly once. */
  lemma AllExitedMeansDrained(c: Config, root: State)
    requires Inv(c, root) && AllExited(c)
    ensures c.stack == [] && c.activeWorkerCount == 0
    ensures c.solCount == GoalCount(root.tree)
    ensures c.storeSolutions ==> |c.solutions| == c.solCount
    ensures c.pushed == c.popped == c.released
  {
    ExitedSums(c.workers);
  }

  lemma {:induction false} ExitedSums(ws: seq<Phase>)
    requires forall i :: 0 <= i < |ws| ==> ws[i].Exited?
    ensures SumPhases(ws, HolderCount) == SumPhases(ws, PendingCount) == SumPhases(ws, StorerCount) == 0
    ensures HeldStates(ws) == multiset{}
    ensures forall i :: 0 <= i < |ws| ==> !Busy(ws[i])
    decreases |ws|
  {
    if ws != [] {
      ExitedSums(ws[1..]);
    }
  }

  /** Whatever the number of workers and whatever the schedule, a run of the
      pool that ends with every worker exited has counted exactly the goals
      of the search tree below the root. */
  lemma CompletedRunCountsEveryGoal(root: State, numThreads: nat, storeSolutions: bool, schedule: seq<nat>)
    requires numThreads > 0
    requires ValidSchedule(Init(root, numThreads, storeSolutions), schedule)
    requires AllExited(Execute(Init(root, numThreads, storeSolutions), schedule))
    ensures Execute(Init(root, numThreads, storeSolutions), schedule).solCount == GoalCount(root.tree)
              == |GoalPaths(root.tree)|
    ensures Execute(Init(root, numThreads, storeSolutions), schedule).stack == []
    ensures storeSolutions ==>
              |Execute(Init(root, numThreads, storeSolutions), schedule).solutions| == GoalCount(root.tree)
  {
    var c := Init(root, numThreads, storeSolutions);
    InitInv(root, numThreads, storeSolutions);
    ExecuteKeepsInv(c, root, schedule);
    AllExitedMeansDrained(Execute(c, schedule), root);
    GoalCountCountsGoalPaths(root.tree);
  }

  /** A worker leaves its loop only from a failed pop followed by a zero
      reading of the counter, when no state is in flight anywhere. */
  lemma ExitOnlyWhenIdle(c: Config, root: State, w: nat)
    requires Inv(c, root) && w < |c.workers| && !c.workers[w].Exited?
    requires Step(c, w).workers[w].Exited?
    ensures c.workers[w] == Testing(None) && c.activeWorkerCount == 0
    ensures forall i :: 0 <= i < |c.workers| ==> !Holds(c.workers[i])
  {
    assert c.workers[w] == Testing(None) && c.activeWorkerCount <= 0;
    HolderSum(c.workers);
  }

  /** No worker holds a state exactly when the holders add up to zero. */
  lemma {:induction false} HolderSum(ws: seq<Phase>)
    ensures SumPhases(ws, HolderCount) == 0 <==> forall i :: 0 <= i < |ws| ==> !Holds(ws[i])
    decreases |ws|
  {
    if ws != [] {
      HolderSum(ws[1..]);
      assert forall i :: 1 <= i < |ws| ==> ws[i] == ws[1..][i - 1];
    }
  }


  lemma {:induction false} ExecuteAppend(c: Config, a: seq<nat>, b: seq<nat>)
    requires ValidSchedule(c, a + b)
    ensures ValidSchedule(c, a) && ValidSchedule(Execute(c, a), b)
    ensures Execute(c, a + b) == Execute(Execute(c, a), b)
    decreases |a|
  {
    if a == [] {
      assert a + b == b;
    } else {
      assert (a + b)[1..] == a[1..] + b;
      forall k | 0 <= k < |a| ensures a[k] < |c.workers| {
        assert (a + b)[k] == a[k];
      }
      ExecuteAppend(Step(c, a[0]), a[1..], b);
    }
  }

  // A search tree for the example below: root -> middle -> goal, one feasible pair each.
  const exampleGoal := Tree(true, false, [])
  const exampleMiddle := Tree(false, false, [Candidate(Pair(1, 1), true, exampleGoal)])
  const exampleRoot := State([], Tree(false, false, [Candidate(Pair(0, 0), true, exampleMiddle)]))

  // The states the example run passes through: m is the root's child, g the goal below m.
  const exampleM := State([Pair(0, 0)], exampleMiddle)
  const exampleG := State([Pair(0, 0), Pair(1, 1)], exampleGoal)

  // The configurations of the example run, one per step.
  const exampleC0 := Config(false, [exampleM], 0, 0, [], [Fetching, Fetching],
                            multiset{exampleM}, multiset{}, multiset{})
  // worker 0 pops m
  const exampleC1 := Config(false, [], 1, 0, [], [Testing(Some(exampleM)), Fetching],
                            multiset{exampleM}, multiset{exampleM}, multiset{})
  // worker 1 finds the frontier empty
  const exampleC2 := Config(false, [], 1, 0, [], [Testing(Some(exampleM)), Testing(None)],
                            multiset{exampleM}, multiset{exampleM}, multiset{})
  const exampleC3 := Config(false, [], 1, 0, [], [Classifying(exampleM), Testing(None)],
                            multiset{exampleM}, multiset{exampleM}, multiset{})
  const exampleC4 := Config(false, [], 1, 0, [], [Expanding(exampleM, NullNode), Testing(None)],
                            multiset{exampleM}, multiset{exampleM}, multiset{})
  // worker 0 pushes g
  const exampleC5 := Config(false, [exampleG], 1, 0, [], [Expanding(exampleM, At(0)), Testing(None)],
                            multiset{exampleM, exampleG}, multiset{exampleM}, multiset{})
  const exampleC6 := Config(false, [exampleG], 1, 0, [], [Releasing(exampleM), Testing(None)],
                            multiset{exampleM, exampleG}, multiset{exampleM}, multiset{})
  // worker 0 releases m: the counter drops to zero
  const exampleC7 := Config(false, [exampleG], 0, 0, [], [Fetching, Testing(None)],
                            multiset{exampleM, exampleG}, multiset{exampleM}, multiset{exampleM})
  // worker 1 reads the zero counter and leaves, with g still on the frontier
  const exampleC8 := Config(false, [exampleG], 0, 0, [], [Fetching, Exited],
                            multiset{exampleM, exampleG}, multiset{exampleM}, multiset{exampleM})

  lemma ExampleInit()
    ensures Init(exampleRoot, 2, false) == exampleC0
  {
    assert FeasibleFrom(exampleRoot, 1) == [];
    assert AddPair(exampleRoot, At(0)) == exampleM;
    assert Expand(exampleRoot) == [exampleM];
  }

  lemma ExamplePop()
    ensures Step(exampleC0, 0) == exampleC1
  {
  }

  lemma ExampleFailedPop()
    ensures Step(exampleC1, 1) == exampleC2
  {
  }

  lemma ExampleClassifies()
    ensures Step(exampleC2, 0) == exampleC3
    ensures Step(exampleC3, 0) == exampleC4
  {
  }

  lemma ExamplePushes()
    ensures Step(exampleC4, 0) == exampleC5
  {
    assert NextPair(exampleM, NullNode) == Some(At(0)) && IsFeasiblePair(exampleM, At(0));
    assert AddPair(exampleM, At(0)) == exampleG;
    assert multiset{exampleM} + multiset{exampleG} == multiset{exampleM, exampleG};
  }

  lemma ExampleReleases()
    ensures Step(exampleC5, 0) == exampleC6
    ensures Step(exampleC6, 0) == exampleC7
  {
    assert NextPair(exampleM, At(0)) == None;
    assert multiset{} + multiset{exampleM} == multiset{exampleM};
  }

  lemma ExampleExits()
    ensures Step(exampleC7, 1) == exampleC8
  {
  }

  /** The example schedule: worker 0 pops, worker 1 fails to pop, worker 0
      classifies, pushes and releases, then worker 1 reads the counter. */
  const exampleSchedule: seq<nat> := [0, 1, 0, 0, 0, 0, 0, 1]

  lemma ExampleRunsFromRelease()
    ensures ValidSchedule(exampleC5, exampleSchedule[5..])
    ensures Execute(exampleC5, exampleSchedule[5..]) == exampleC8
  {
    ExampleReleases();
    ExampleExits();
    assert Execute(exampleC8, []) == exampleC8;
    ExecuteCons(exampleC7, 1, []);
    ExecuteCons(exampleC6, 0, [1]);
    ExecuteCons(exampleC5, 0, [0, 1]);
    assert exampleSchedule[5..] == [0, 0, 1];
  }

  lemma ExampleRunsFromClassify()
    ensures ValidSchedule(exampleC2, exampleSchedule[2..])
    ensures Execute(exampleC2, exampleSchedule[2..]) == exampleC8
  {
    ExampleRunsFromRelease();
    ExampleClassifies();
    ExamplePushes();
    ExecuteCons(exampleC4, 0, exampleSchedule[5..]);
    assert [0] + exampleSchedule[5..] == exampleSchedule[4..];
    ExecuteCons(exampleC3, 0, exampleSchedule[4..]);
    assert [0] + exampleSchedule[4..] == exampleSchedule[3..];
    ExecuteCons(exampleC2, 0, exampleSchedule[3..]);
    assert [0] + exampleSchedule[3..] == exampleSchedule[2..];
  }

  lemma ExampleRunsFromStart()
    ensures ValidSchedule(exampleC0, exampleSchedule)
    ensures Execute(exampleC0, exampleSchedule) == exampleC8
  {
    ExampleRunsFromClassify();
    ExampleFailedPop();
    ExamplePop();
    ExecuteCons(exampleC1, 1, exampleSchedule[2..]);
    assert [1] + exampleSchedule[2..] == exampleSchedule[1..];
    ExecuteCons(exampleC0, 0, exampleSchedule[1..]);
    assert [0] + exampleSchedule[1..] == exampleSchedule;
  }

  /** A worker may leave its loop while the frontier still holds work, when
      another worker pushed children and released its state between this
      worker's failed pop and its reading of the counter; the invariant then
      guarantees that a busy worker remains to drain it. */
  lemma EarlyExitLeavesWorkToOthers()
    ensures ValidSchedule(Init(exampleRoot, 2, false), exampleSchedule)
    ensures var c := Execute(Init(exampleRoot, 2, false), exampleSchedule);
            c.workers[1].Exited? && c.stack == [State([Pair(0, 0), Pair(1, 1)], exampleGoal)]
  {
    ExampleInit();
    ExampleRunsFromStart();
  }

  /** Work left for the state a worker holds, from its current phase on. */
  function PhaseWork(p: Phase): nat {
    match p
    case Testing(held) => if held.Some? then Tally(held.value.tree, WorkWeight) - 1 else 0
    case Classifying(s) => Tally(s.tree, WorkWeight) - 2
    case Storing(_) => 2
    case Expanding(s, cursor) =>
      var k := NextIndex(cursor);
      if k <= |s.tree.candidates| then 3 + (|s.tree.candidates| - k) + TallyFrom(s.tree, k, WorkWeight)
      else 0
    case Releasing(_) => 1
    case _ => 0
  }

  /** Steps a worker that holds nothing can take before it pops or exits. */
  function IdleWeight(p: Phase): nat {
    match p
    case Fetching => 2
    case Testing(held) => if held.None? then 1 else 0
    case _ => 0
  }

  function Work(c: Config): nat {
    SumTally(c.stack, WorkWeight) + SumPhases(c.workers, WorkCount)
  }

  function Idle(c: Config): nat { SumPhases(c.workers, IdleCount) }

  lemma HolderStepProgress(c: Config, w: nat)
    requires w < |c.workers| && Holds(c.workers[w]) && PhaseOk(c.workers[w])
    ensures Work(Step(c, w)) < Work(c)
  {
    SumPhasesUpdate(c.workers, w, Step(c, w).workers[w], WorkCount);
    HolderWorkDrops(c, w);
  }


  /** One step of a worker holding a state costs one unit of work. */
  lemma HolderWorkDrops(c: Config, w: nat)
    requires w < |c.workers| && Holds(c.workers[w]) && PhaseOk(c.workers[w])
    ensures SumTally(Step(c, w).stack, WorkWeight) + PhaseWork(Step(c, w).workers[w])
            < SumTally(c.stack, WorkWeight) + PhaseWork(c.workers[w])
  {
    match c.workers[w]
    case Testing(held) =>
      assert Step(c, w) == c.(workers := c.workers[w := Classifying(held.value)]);
    case Classifying(s) =>
      ClassifyWorkDrops(c, w);
    case Storing(s) =>
      assert Step(c, w) == c.(solutions := c.solutions + [GetCoreSet(s)], workers := c.workers[w := Releasing(s)]);
    case Expanding(_, _) =>
      ExpandStepProgress(c, w);
    case Releasing(s) =>
      assert Step(c, w) == c.(activeWorkerCount := c.activeWorkerCount - 1, released := c.released + multiset{s},
                              workers := c.workers[w := Fetching]);
  }

  lemma ClassifyWorkDrops(c: Config, w: nat)
    requires w < |c.workers| && c.workers[w].Classifying?
    ensures Step(c, w).stack == c.stack
    ensures PhaseWork(Step(c, w).workers[w]) < PhaseWork(c.workers[w])
  {
    var s := c.workers[w].s;
    var t := s.tree;
    assert Tally(t, WorkWeight) == WeightOf(WorkWeight, t) + (if t.goal || t.dead then 0 else TallyFrom(t, 0, WorkWeight));
    if IsGoal(s) {
      assert Step(c, w) == c.(solCount := c.solCount + 1,
               workers := c.workers[w := if c.storeSolutions then Storing(s) else Releasing(s)]);
    } else if IsDead(s) {
      assert Step(c, w) == c.(workers := c.workers[w := Releasing(s)]);
    } else {
      assert Step(c, w) == c.(workers := c.workers[w := Expanding(s, NullNode)]);
    }
  }

  lemma ExpandStepProgress(c: Config, w: nat)
    requires w < |c.workers| && c.workers[w].Expanding? && PhaseOk(c.workers[w])
    ensures SumTally(Step(c, w).stack, WorkWeight) + PhaseWork(Step(c, w).workers[w])
            < SumTally(c.stack, WorkWeight) + PhaseWork(c.workers[w])
  {
    var s, cursor := c.workers[w].s, c.workers[w].cursor;
    var next := NextPair(s, cursor);
    if next.Some? && IsFeasiblePair(s, next.value) {
      var c' := Step(c, w);
      var child := AddPair(s, next.value);
      assert c'.stack[..|c.stack|] == c.stack;
      assert SumTally(c'.stack, WorkWeight) == SumTally(c.stack, WorkWeight) + Tally(child.tree, WorkWeight);
    }
  }

  lemma IdleStepProgress(c: Config, w: nat)
    requires w < |c.workers| && !Holds(c.workers[w]) && !c.workers[w].Exited?
    requires c.activeWorkerCount == 0
    ensures Work(Step(c, w)) < Work(c) || (Work(Step(c, w)) == Work(c) && Idle(Step(c, w)) < Idle(c))
  {
    var c' := Step(c, w);
    if c.workers[w].Fetching? && c.stack != [] {
      PopMovesWork(c, w);
    } else {
      SumPhasesUpdate(c.workers, w, c'.workers[w], WorkCount);
      SumPhasesUpdate(c.workers, w, c'.workers[w], IdleCount);
      if c.workers[w].Fetching? {
        assert c' == c.(workers := c.workers[w := Testing(None)]);
      } else {
        assert c' == c.(workers := c.workers[w := Exited]);
      }
    }
  }

  /** A successful pop hands the popped state's work from the frontier to
      the worker, less the step itself. */
  lemma PopMovesWork(c: Config, w: nat)
    requires w < |c.workers| && c.workers[w].Fetching? && c.stack != []
    ensures Work(Step(c, w)) < Work(c)
  {
    var c' := Step(c, w);
    var top := c.stack[|c.stack| - 1];
    SumPhasesUpdate(c.workers, w, c'.workers[w], WorkCount);
    assert c'.stack == c.stack[..|c.stack| - 1] && c'.workers[w] == Testing(Some(top));
    assert SumTally(c.stack, WorkWeight) == SumTally(c'.stack, WorkWeight) + Tally(top.tree, WorkWeight);
  }

  /** A step of a worker that holds nothing never adds work, whatever the
      counter: a pop moves the popped state's work from the frontier to the
      worker, and the failed pop and the loop test touch no work at all. */
  lemma IdleStepNeverAddsWork(c: Config, w: nat)
    requires w < |c.workers| && !Holds(c.workers[w])
    ensures Work(Step(c, w)) <= Work(c)
  {
    var c' := Step(c, w);
    if c.workers[w].Fetching? && c.stack != [] {
      PopMovesWork(c, w);
    } else {
      SumPhasesUpdate(c.workers, w, c'.workers[w], WorkCount);
      assert c'.stack == c.stack && PhaseWork(c'.workers[w]) == 0 == PhaseWork(c.workers[w]);
    }
  }

  /** No step of any worker adds work. */
  lemma StepNeverAddsWork(c: Config, w: nat)
    requires w < |c.workers| && PhaseOk(c.workers[w])
    ensures Work(Step(c, w)) <= Work(c)
  {
    if Holds(c.workers[w]) {
      HolderStepProgress(c, w);
    } else {
      IdleStepNeverAddsWork(c, w);
    }
  }

  /** How many steps of `schedule` are taken by a worker holding a state. */
  function HolderSteps(c: Config, schedule: seq<nat>): nat
    requires ValidSchedule(c, schedule)
    decreases |schedule|
  {
    if schedule == [] then 0
    else (if Holds(c.workers[schedule[0]]) then 1 else 0) + HolderSteps(Step(c, schedule[0]), schedule[1..])
  }

  /** Whatever the schedule, the workers holding states take at most Work(c)
      steps in total: every step they take removes work and no step adds
      any, so only the busy-wait of idle workers can go on without end. */
  lemma {:induction false} HolderStepsBounded(c: Config, root: State, schedule: seq<nat>)
    requires Inv(c, root) && ValidSchedule(c, schedule)
    ensures HolderSteps(c, schedule) <= Work(c)
    decreases |schedule|
  {
    if schedule != [] {
      var w := schedule[0];
      assert PhaseOk(c.workers[w]);
      StepNeverAddsWork(c, w);
      if Holds(c.workers[w]) {
        HolderStepProgress(c, w);
      }
      StepKeepsInv(c, root, w);
      HolderStepsBounded(Step(c, w), root, schedule[1..]);
    }
  }

  /** Some schedule from c lets every worker leave its loop. */
  ghost predicate CanFinish(c: Config) {
    exists schedule :: ValidSchedule(c, schedule) && AllExited(Execute(c, schedule))
  }

  /** No configuration the pool can reach is a trap: from any configuration
      that satisfies the invariant, some schedule lets every worker finish
      (step a worker that holds a state while there is one, else any worker
      still in its loop). */
  lemma {:induction false} PoolCanAlwaysFinish(c: Config, root: State)
    requires Inv(c, root)
    ensures CanFinish(c)
    decreases Work(c), Idle(c)
  {
    if AllExited(c) {
      assert ValidSchedule(c, []) && Execute(c, []) == c;
    } else {
      var w := ChooseWorker(c, root);
      StepKeepsInv(c, root, w);
      PoolCanAlwaysFinish(Step(c, w), root);
      var rest :| ValidSchedule(Step(c, w), rest) && AllExited(Execute(Step(c, w), rest));
      ExecuteCons(c, w, rest);
    }
  }

  /** The worker to step next: one that holds a state if there is one, else
      any worker still in its loop; either way the measure goes down. */
  lemma ChooseWorker(c: Config, root: State) returns (w: nat)
    requires Inv(c, root) && !AllExited(c)
    ensures w < |c.workers|
    ensures Work(Step(c, w)) < Work(c) || (Work(Step(c, w)) == Work(c) && Idle(Step(c, w)) < Idle(c))
  {
    if exists i :: 0 <= i < |c.workers| && Holds(c.workers[i]) {
      w :| w < |c.workers| && Holds(c.workers[w]);
      assert PhaseOk(c.workers[w]);
      HolderStepProgress(c, w);
    } else {
      w :| w < |c.workers| && !c.workers[w].Exited?;
      HolderSum(c.workers);
      IdleStepProgress(c, w);
    }
  }

  lemma ExecuteCons(c: Config, w: nat, rest: seq<nat>)
    requires w < |c.workers| && ValidSchedule(Step(c, w), rest)
    ensures ValidSchedule(c, [w] + rest) && Execute(c, [w] + rest) == Execute(Step(c, w), rest)
  {
    assert ([w] + rest)[1..] == rest;
    assert forall k :: 1 <= k < |[w] + rest| ==> ([w] + rest)[k] == rest[k - 1];
  }


  /** Whatever schedule the pool has followed so far, it can still finish,
      and the finished run, prefix included, counts every goal below the root. */
  lemma NoScheduleBlocksCompletion(root: State, numThreads: nat, storeSolutions: bool, prefix: seq<nat>)
    requires numThreads > 0 && ValidSchedule(Init(root, numThreads, storeSolutions), prefix)
    ensures CanFinish(Execute(Init(root, numThreads, storeSolutions), prefix))
    ensures exists suffix :: CompletesWith(Init(root, numThreads, storeSolutions), prefix, suffix, GoalCount(root.tree))
  {
    var c0 := Init(root, numThreads, storeSolutions);
    InitInv(root, numThreads, storeSolutions);
    ExecuteKeepsInv(c0, root, prefix);
    var c := Execute(c0, prefix);
    PoolCanAlwaysFinish(c, root);
    var suffix :| ValidSchedule(c, suffix) && AllExited(Execute(c, suffix));
    JoinSchedules(c0, prefix, suffix);
    CompletedRunCountsEveryGoal(root, numThreads, storeSolutions, prefix + suffix);
    assert CompletesWith(c0, prefix, suffix, GoalCount(root.tree));
  }

  /** Running `prefix` and then `suffix` from c is one valid schedule that
      ends with every worker exited and `goals` solutions counted. */
  ghost predicate CompletesWith(c: Config, prefix: seq<nat>, suffix: seq<nat>, goals: nat) {
    && ValidSchedule(c, prefix + suffix)
    && AllExited(Execute(c, prefix + suffix))
    && Execute(c, prefix + suffix).solCount == goals
  }

  /** A schedule valid from c followed by one valid from where it ends. */
  lemma JoinSchedules(c: Config, a: seq<nat>, b: seq<nat>)
    requires ValidSchedule(c, a) && ValidSchedule(Execute(c, a), b)
    ensures ValidSchedule(c, a + b) && Execute(c, a + b) == Execute(Execute(c, a), b)
  {
    forall k | 0 <= k < |a + b| ensures (a + b)[k] < |c.workers| {
      if k >= |a| { assert (a + b)[k] == b[k - |a|]; }
    }
    ExecuteAppend(c, a, b);
  }

  /** A step changes the phase of the stepping worker only. */
  lemma StepFrame(c: Config, w: nat)
    requires w < |c.workers|
    ensures Step(c, w).workers == c.workers[w := Step(c, w).workers[w]]
  {
  }

  /** Worker w can run alone: every other worker is about to pop or has
      exited, and w, if it found the frontier empty, still finds it empty. */
  ghost predicate SoloReady(c: Config, w: nat) {
    && w < |c.workers| && !c.workers[w].Exited?
    && (forall i :: 0 <= i < |c.workers| && i != w ==> c.workers[i].Fetching? || c.workers[i].Exited?)
    && (c.workers[w] == Testing(None) ==> c.stack == [])
  }

  /** Worker w, stepped alone, runs its loop to the end: it leaves with the
      frontier empty and the counter zero, and no other worker moves. */
  lemma {:induction false} SoloRun(c: Config, root: State, w: nat) returns (schedule: seq<nat>)
    requires Inv(c, root) && SoloReady(c, w)
    ensures ValidSchedule(c, schedule) && forall k :: 0 <= k < |schedule| ==> schedule[k] == w
    ensures var d := Execute(c, schedule);
            d.workers == c.workers[w := Exited] && d.stack == [] && d.activeWorkerCount == 0
    decreases Work(c), Idle(c)
  {
    var c' := Step(c, w);
    StepKeepsInv(c, root, w);
    if c'.workers[w].Exited? {
      SoloExit(c, root, w);
      schedule := [w];
      ExecuteCons(c, w, []);
      assert Execute(c', []) == c';
    } else {
      SoloStep(c, root, w);
      var rest := SoloRun(c', root, w);
      schedule := [w] + rest;
      SoloPrepend(c, w, rest);
    }
  }

  /** One more step of w in front of a schedule made only of w. */
  lemma SoloPrepend(c: Config, w: nat, rest: seq<nat>)
    requires w < |c.workers| && ValidSchedule(Step(c, w), rest)
    requires forall k :: 0 <= k < |rest| ==> rest[k] == w
    ensures ValidSchedule(c, [w] + rest) && Execute(c, [w] + rest) == Execute(Step(c, w), rest)
    ensures forall k :: 0 <= k < |[w] + rest| ==> ([w] + rest)[k] == w
  {
    ExecuteCons(c, w, rest);
    assert forall k :: 1 <= k < |[w] + rest| ==> ([w] + rest)[k] == rest[k - 1];
  }

  /** The lone worker exits only with the frontier empty and the counter zero. */
  lemma SoloExit(c: Config, root: State, w: nat)
    requires Inv(c, root) && SoloReady(c, w) && Step(c, w).workers[w].Exited?
    ensures Step(c, w) == c.(workers := c.workers[w := Exited])
    ensures c.stack == [] && c.activeWorkerCount == 0
  {
    ExitOnlyWhenIdle(c, root, w);
  }

  /** A step of the lone worker that does not exit keeps it ready to run
      alone, changes no other worker, and lowers the measure. */
  lemma SoloStep(c: Config, root: State, w: nat)
    requires Inv(c, root) && SoloReady(c, w) && !Step(c, w).workers[w].Exited?
    ensures SoloReady(Step(c, w), w)
    ensures Step(c, w).workers[w := Exited] == c.workers[w := Exited]
    ensures Work(Step(c, w)) < Work(c) || (Work(Step(c, w)) == Work(c) && Idle(Step(c, w)) < Idle(c))
  {
    SoloStaysReady(c, w);
    if Holds(c.workers[w]) {
      assert PhaseOk(c.workers[w]);
      HolderStepProgress(c, w);
    } else {
      SoloCounterZero(c, root, w);
      IdleStepProgress(c, w);
    }
  }

  lemma SoloStaysReady(c: Config, w: nat)
    requires SoloReady(c, w) && !Step(c, w).workers[w].Exited?
    ensures SoloReady(Step(c, w), w)
    ensures Step(c, w).workers[w := Exited] == c.workers[w := Exited]
  {
    var c' := Step(c, w);
    StepFrame(c, w);
    if c'.workers[w] == Testing(None) {
      assert c.workers[w].Fetching? && c.stack == [] && c'.stack == [];
    }
  }

  /** While the lone worker holds nothing, no state is in flight. */
  lemma SoloCounterZero(c: Config, root: State, w: nat)
    requires Inv(c, root) && SoloReady(c, w) && !Holds(c.workers[w])
    ensures c.activeWorkerCount == 0
  {
    HolderSum(c.workers);
  }

  /** Workers i, i + 1, ... run one after another, each to the end of its
      loop, with the workers before i already exited. */
  lemma {:induction false} JoinFrom(c: Config, root: State, i: nat) returns (schedule: seq<nat>)
    requires Inv(c, root) && i <= |c.workers|
    requires forall j :: 0 <= j < i ==> c.workers[j].Exited?
    requires forall j :: i <= j < |c.workers| ==> c.workers[j].Fetching?
    ensures ValidSchedule(c, schedule) && AllExited(Execute(c, schedule)) && Inv(Execute(c, schedule), root)
    ensures forall k :: 0 <= k < |schedule| ==> i <= schedule[k]
    ensures forall k, l :: 0 <= k < l < |schedule| ==> schedule[k] <= schedule[l]
    decreases |c.workers| - i
  {
    if i == |c.workers| {
      schedule := [];
      assert Execute(c, []) == c;
    } else {
      var mine := SoloRun(c, root, i);
      var d := Execute(c, mine);
      ExecuteKeepsInv(c, root, mine);
      var rest := JoinFrom(d, root, i + 1);
      JoinSchedules(c, mine, rest);
      schedule := mine + rest;
      forall k | 0 <= k < |schedule| ensures i <= schedule[k] && (k >= |mine| ==> i + 1 <= schedule[k]) {
        if k >= |mine| { assert schedule[k] == rest[k - |mine|]; }
      }
    }
  }

  /** The interleaving in which each worker runs its whole loop where the
      caller joins it (the one the class in module Engine executes) is a
      schedule of the pool: worker 0 runs to the end, then worker 1, and so
      on; it ends with every worker exited, the frontier empty and every goal
      below the root counted. */
  lemma JoinOrderIsASchedule(root: State, numThreads: nat, storeSolutions: bool) returns (schedule: seq<nat>)
    requires numThreads > 0
    ensures ValidSchedule(Init(root, numThreads, storeSolutions), schedule)
    ensures forall k, l :: 0 <= k < l < |schedule| ==> schedule[k] <= schedule[l]
    ensures var d := Execute(Init(root, numThreads, storeSolutions), schedule);
            && AllExited(d) && d.stack == [] && d.activeWorkerCount == 0
            && d.solCount == GoalCount(root.tree)
  {
    var c := Init(root, numThreads, storeSolutions);
    InitInv(root, numThreads, storeSolutions);
    schedule := JoinFrom(c, root, 0);
    AllExitedMeansDrained(Execute(c, schedule), root);
  }
}
