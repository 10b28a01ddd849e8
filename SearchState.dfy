/**
 * The search-state capability the parallel engine is generic over, kept
 * abstract: a state knows whether it is a goal, whether it is dead, which
 * candidate pairs its NextPair cursor yields (in order), which of them
 * IsFeasiblePair accepts, and what AddPair makes of a copy of it. An abstract
 * state is therefore a finite tree, and the search below a state is measured
 * by folding that tree.
 */
module SearchState {

  datatype Option<T> = None | Some(value: T)

  /** A candidate match of query node n1 with target node n2. */
  datatype Pair = Pair(n1: nat, n2: nat)

  /** The search space below a state: its goal and dead flags and its
      candidate pairs in cursor order. */
  datatype Tree = Tree(goal: bool, dead: bool, candidates: seq<Candidate>)

  /** One candidate pair, whether it is feasible, and the tree below the
      state obtained by adding it. */
  datatype Candidate = Candidate(pair: Pair, feasible: bool, subtree: Tree)

  /** A search state: its core set (the pairs matched so far) and the
      search space below it. */
  datatype State = State(core: seq<Pair>, tree: Tree)

  /** A solution is the snapshot of a goal state's core set. */
  type Solution = seq<Pair>

  /** The NextPair cursor: NullNode before the first candidate, otherwise the
      position of the candidate returned last. */
  datatype Cursor = NullNode | At(index: nat)

  predicate IsGoal(s: State) { s.tree.goal }

  predicate IsDead(s: State) { s.tree.dead }

  /** Position of the candidate that NextPair yields after `prev`. */
  function NextIndex(prev: Cursor): nat {
    if prev.NullNode? then 0 else prev.index + 1
  }

  /** NextPair(prev): the next candidate after `prev`, or None once the
      candidates are exhausted. */
  function NextPair(s: State, prev: Cursor): Option<Cursor> {
    if NextIndex(prev) < |s.tree.candidates| then Some(At(NextIndex(prev))) else None
  }

  predicate IsFeasiblePair(s: State, c: Cursor)
    requires c.At? && c.index < |s.tree.candidates|
  {
    s.tree.candidates[c.index].feasible
  }

  /** A copy of `s` extended by the candidate under the cursor. */
  function AddPair(s: State, c: Cursor): State
    requires c.At? && c.index < |s.tree.candidates|
  {
    var cand := s.tree.candidates[c.index];
    State(s.core + [cand.pair], cand.subtree)
  }

  function GetCoreSet(s: State): Solution { s.core }

  /** The children pushed for the candidates from position k on, in cursor
      order: one copy extended by each feasible pair. */
  function FeasibleFrom(s: State, k: nat): seq<State>
    requires k <= |s.tree.candidates|
    decreases |s.tree.candidates| - k
  {
    if k == |s.tree.candidates| then []
    else (if IsFeasiblePair(s, At(k)) then [AddPair(s, At(k))] else []) + FeasibleFrom(s, k + 1)
  }

  function Children(s: State): seq<State> { FeasibleFrom(s, 0) }

  /** What expanding `s` puts on the frontier, in push order: nothing for a
      goal or a dead state, otherwise its children. */
  function Expand(s: State): seq<State> {
    if IsGoal(s) || IsDead(s) then [] else Children(s)
  }

  /** `children` are the states built from the candidates at positions idx,
      each feasible and at k or later. */
  ghost predicate ListsFeasible(s: State, k: nat, idx: seq<nat>, children: seq<State>) {
    var cands := s.tree.candidates;
    && |idx| == |children|
    && forall j :: 0 <= j < |idx| ==>
         k <= idx[j] < |cands| && cands[idx[j]].feasible && children[j] == AddPair(s, At(idx[j]))
  }

  ghost predicate Increasing(idx: seq<nat>) {
    forall j, l :: 0 <= j < l < |idx| ==> idx[j] < idx[l]
  }

  /** Every feasible candidate from position k on is listed in idx. */
  ghost predicate CoversFeasible(s: State, k: nat, idx: seq<nat>) {
    forall i :: k <= i < |s.tree.candidates| && s.tree.candidates[i].feasible ==> i in idx
  }

  /** `children` are the states built from the feasible candidates at
      positions idx (from k on), and idx lists every such position once, in
      increasing (cursor) order. */
  ghost predicate EnumeratesFeasible(s: State, k: nat, idx: seq<nat>, children: seq<State>) {
    ListsFeasible(s, k, idx, children) && Increasing(idx) && CoversFeasible(s, k, idx)
  }

  /** Positions of the feasible candidates from k on, in cursor order. */
  ghost function FeasibleIndices(s: State, k: nat): seq<nat>
    requires k <= |s.tree.candidates|
    decreases |s.tree.candidates| - k
  {
    if k == |s.tree.candidates| then []
    else (if IsFeasiblePair(s, At(k)) then [k] else []) + FeasibleIndices(s, k + 1)
  }

  lemma ListsPush(s: State, k: nat, rest: seq<nat>)
    requires k < |s.tree.candidates| && IsFeasiblePair(s, At(k))
    requires ListsFeasible(s, k + 1, rest, FeasibleFrom(s, k + 1))
    ensures ListsFeasible(s, k, [k] + rest, FeasibleFrom(s, k))
  {
    var tail := FeasibleFrom(s, k + 1);
    var idx := [k] + rest;
    var children := FeasibleFrom(s, k);
    assert children == [AddPair(s, At(k))] + tail;
    forall j | 0 <= j < |idx|
      ensures k <= idx[j] < |s.tree.candidates| && s.tree.candidates[idx[j]].feasible
      ensures children[j] == AddPair(s, At(idx[j]))
    {
      if j > 0 { assert idx[j] == rest[j - 1] && children[j] == tail[j - 1]; }
    }
  }

  lemma IncreasingPush(k: nat, rest: seq<nat>)
    requires Increasing(rest) && forall j :: 0 <= j < |rest| ==> k < rest[j]
    ensures Increasing([k] + rest)
  {
    var idx := [k] + rest;
    forall j, l | 0 <= j < l < |idx| ensures idx[j] < idx[l] {
      assert idx[l] == rest[l - 1];
      if j > 0 { assert idx[j] == rest[j - 1]; }
    }
  }

  lemma CoversPush(s: State, k: nat, rest: seq<nat>)
    requires CoversFeasible(s, k + 1, rest)
    ensures CoversFeasible(s, k, [k] + rest)
  {
    forall i | k <= i < |s.tree.candidates| && s.tree.candidates[i].feasible ensures i in [k] + rest {
      if i > k { assert i in rest; }
    }
  }

  /** An infeasible candidate at k adds neither a position nor a child. */
  lemma EnumerationSkip(s: State, k: nat, idx: seq<nat>, children: seq<State>)
    requires k < |s.tree.candidates| && !IsFeasiblePair(s, At(k))
    requires EnumeratesFeasible(s, k + 1, idx, children)
    ensures EnumeratesFeasible(s, k, idx, children)
  {
  }

  lemma {:induction false} FeasibleFromInCursorOrder(s: State, k: nat)
    requires k <= |s.tree.candidates|
    ensures EnumeratesFeasible(s, k, FeasibleIndices(s, k), FeasibleFrom(s, k))
    decreases |s.tree.candidates| - k
  {
    if k < |s.tree.candidates| {
      var rest := FeasibleIndices(s, k + 1);
      FeasibleFromInCursorOrder(s, k + 1);
      if IsFeasiblePair(s, At(k)) {
        assert FeasibleIndices(s, k) == [k] + rest;
        ListsPush(s, k, rest);
        IncreasingPush(k, rest);
        CoversPush(s, k, rest);
      } else {
        assert FeasibleIndices(s, k) == rest;
        assert FeasibleFrom(s, k) == FeasibleFrom(s, k + 1);
        EnumerationSkip(s, k, rest, FeasibleFrom(s, k + 1));
      }
    }
  }

  /** Expanding a live state yields exactly one child per feasible candidate,
      in cursor order, each the parent's core extended by that one pair. */
  lemma ChildrenInCursorOrder(s: State)
    ensures exists idx :: EnumeratesFeasible(s, 0, idx, Children(s))
    ensures forall x :: x in Children(s) ==>
              |x.core| == |s.core| + 1 && x.core[..|s.core|] == s.core
  {
    var idx := FeasibleIndices(s, 0);
    FeasibleFromInCursorOrder(s, 0);
    forall x | x in Children(s)
      ensures |x.core| == |s.core| + 1 && x.core[..|s.core|] == s.core
    {
      var j :| 0 <= j < |Children(s)| && Children(s)[j] == x;
      assert x == AddPair(s, At(idx[j]));
    }
  }

  lemma LastOfEnumeration(s: State, i: nat, idx: seq<nat>, children: seq<State>)
    requires i < |s.tree.candidates| && s.tree.candidates[i].feasible
    requires forall j :: i < j < |s.tree.candidates| ==> !s.tree.candidates[j].feasible
    requires EnumeratesFeasible(s, 0, idx, children)
    ensures children != [] && children[|children| - 1] == AddPair(s, At(i))
  {
    assert i in idx;
    var p :| 0 <= p < |idx| && idx[p] == i;
    var last := |idx| - 1;
    assert idx[last] < |s.tree.candidates| && s.tree.candidates[idx[last]].feasible;
  }

  /** The child of the last feasible candidate is pushed last, so it ends on
      top of the frontier. */
  lemma LastFeasibleOnTop(s: State, i: nat)
    requires i < |s.tree.candidates| && s.tree.candidates[i].feasible
    requires forall j :: i < j < |s.tree.candidates| ==> !s.tree.candidates[j].feasible
    ensures Children(s) != [] && Children(s)[|Children(s)| - 1] == AddPair(s, At(i))
  {
    FeasibleFromInCursorOrder(s, 0);
    LastOfEnumeration(s, i, FeasibleIndices(s, 0), Children(s));
  }

  /** Fold of `weight` over the nodes the engine visits below (and at) `t`:
      the node itself, and, when it is neither goal nor dead, the subtrees of
      its feasible candidates. */
  function Tally(t: Tree, weight: Weight): nat
    decreases t, 1
  {
    WeightOf(weight, t) + (if t.goal || t.dead then 0 else TallyFrom(t, 0, weight))
  }

  function TallyFrom(t: Tree, k: nat, weight: Weight): nat
    requires k <= |t.candidates|
    decreases t, 0, |t.candidates| - k
  {
    if k == |t.candidates| then 0
    else (if t.candidates[k].feasible then Tally(t.candidates[k].subtree, weight) else 0)
         + TallyFrom(t, k + 1, weight)
  }

  /** What a fold counts at each node: its goal, the node itself, or the
      steps a worker spends on it (enough to pay for every step of the
      liveness argument in module Interleaving). */
  datatype Weight = GoalWeight | NodeWeight | WorkWeight

  function WeightOf(weight: Weight, t: Tree): nat {
    match weight
    case GoalWeight => if t.goal then 1 else 0
    case NodeWeight => 1
    case WorkWeight => 6 + |t.candidates|
  }

  /** Number of goal nodes reachable from `t` through feasible pairs without
      passing through a goal or a dead node. */
  function GoalCount(t: Tree): nat { Tally(t, GoalWeight) }

  /** Number of states the engine processes when it searches below `t`. */
  function Size(t: Tree): nat { Tally(t, NodeWeight) }

  /** `path` picks, level by level, the position of a feasible candidate of a
      node that is neither goal nor dead, and ends at a goal node. */
  ghost predicate LeadsToGoal(t: Tree, path: seq<nat>)
    decreases |path|
  {
    if path == [] then t.goal
    else && !t.goal && !t.dead
         && path[0] < |t.candidates| && t.candidates[path[0]].feasible
         && LeadsToGoal(t.candidates[path[0]].subtree, path[1..])
  }

  ghost function Prefixed(j: nat, paths: set<seq<nat>>): set<seq<nat>> {
    set p | p in paths :: [j] + p
  }

  /** The paths from `t` to the goal nodes the engine reaches, built by
      following the search. */
  ghost function GoalPaths(t: Tree): set<seq<nat>>
    decreases t, 1
  {
    if t.goal then {[]} else if t.dead then {} else GoalPathsFrom(t, 0)
  }

  ghost function GoalPathsFrom(t: Tree, k: nat): set<seq<nat>>
    requires k <= |t.candidates|
    decreases t, 0, |t.candidates| - k
  {
    if k == |t.candidates| then {}
    else (if t.candidates[k].feasible then Prefixed(k, GoalPaths(t.candidates[k].subtree)) else {})
         + GoalPathsFrom(t, k + 1)
  }

  lemma {:induction false} PrefixedCard(j: nat, paths: set<seq<nat>>)
    ensures |Prefixed(j, paths)| == |paths|
    decreases |paths|
  {
    if paths == {} {
      assert Prefixed(j, paths) == {};
    } else {
      var x :| x in paths;
      var rest := paths - {x};
      PrefixedCard(j, rest);
      assert Prefixed(j, paths) == Prefixed(j, rest) + {[j] + x};
      forall p | p in rest ensures [j] + p != [j] + x {
        assert ([j] + p)[1..] == p && ([j] + x)[1..] == x;
      }
    }
  }

  lemma {:induction false} GoalPathsFromHeads(t: Tree, k: nat)
    requires k <= |t.candidates|
    ensures forall p :: p in GoalPathsFrom(t, k) ==> p != [] && k <= p[0]
    decreases |t.candidates| - k
  {
    if k < |t.candidates| {
      GoalPathsFromHeads(t, k + 1);
    }
  }

  lemma {:induction false} GoalPathsCard(t: Tree)
    ensures |GoalPaths(t)| == GoalCount(t)
    decreases t, 1
  {
    if !t.goal && !t.dead {
      GoalPathsFromCard(t, 0);
    }
  }

  lemma {:induction false} GoalPathsFromCard(t: Tree, k: nat)
    requires k <= |t.candidates|
    ensures |GoalPathsFrom(t, k)| == TallyFrom(t, k, GoalWeight)
    decreases t, 0, |t.candidates| - k
  {
    if k < |t.candidates| {
      GoalPathsFromCard(t, k + 1);
      var sub := t.candidates[k].subtree;
      if t.candidates[k].feasible {
        GoalPathsCard(sub);
        PrefixedCard(k, GoalPaths(sub));
        GoalPathsFromHeads(t, k + 1);
        var head := Prefixed(k, GoalPaths(sub));
        assert head * GoalPathsFrom(t, k + 1) == {} by {
          forall p | p in head ensures p !in GoalPathsFrom(t, k + 1) {
            var q :| q in GoalPaths(sub) && p == [k] + q;
            assert p[0] == k;
          }
        }
      } else {
        assert GoalPathsFrom(t, k) == GoalPathsFrom(t, k + 1);
      }
    }
  }

  lemma {:induction false} GoalPathsMember(t: Tree, p: seq<nat>)
    ensures p in GoalPaths(t) <==> LeadsToGoal(t, p)
    decreases t, 1
  {
    if !t.goal && !t.dead {
      GoalPathsFromMember(t, 0, p);
    }
  }

  lemma {:induction false} GoalPathsFromMember(t: Tree, k: nat, p: seq<nat>)
    requires k <= |t.candidates| && !t.goal && !t.dead
    ensures p in GoalPathsFrom(t, k) <==> p != [] && k <= p[0] && LeadsToGoal(t, p)
    decreases t, 0, |t.candidates| - k
  {
    if k < |t.candidates| {
      GoalPathsFromMember(t, k + 1, p);
      if p != [] && p[0] == k && t.candidates[k].feasible {
        var sub := t.candidates[k].subtree;
        GoalPathsMember(sub, p[1..]);
        assert p == [k] + p[1..];
        assert p in Prefixed(k, GoalPaths(sub)) <==> p[1..] in GoalPaths(sub) by {
          if p in Prefixed(k, GoalPaths(sub)) {
            var q :| q in GoalPaths(sub) && p == [k] + q;
            assert q == p[1..];
          }
        }
      }
      if p != [] && p[0] == k && !t.candidates[k].feasible {
        assert !LeadsToGoal(t, p);
      }
    }
  }

  /** GoalCount counts goal nodes: there are exactly GoalCount(t) paths that
      lead from `t` to a goal through feasible candidates of live nodes. */
  lemma GoalCountCountsGoalPaths(t: Tree)
    ensures forall p :: p in GoalPaths(t) <==> LeadsToGoal(t, p)
    ensures |GoalPaths(t)| == GoalCount(t)
  {
    forall p ensures p in GoalPaths(t) <==> LeadsToGoal(t, p) {
      GoalPathsMember(t, p);
    }
    GoalPathsCard(t);
  }

  /** Fold of `weight` over the search spaces of a sequence of states. */
  function SumTally(ss: seq<State>, weight: Weight): nat {
    if ss == [] then 0 else SumTally(ss[..|ss| - 1], weight) + Tally(ss[|ss| - 1].tree, weight)
  }

  lemma {:induction false} SumTallyAppend(a: seq<State>, b: seq<State>, weight: Weight)
    ensures SumTally(a + b, weight) == SumTally(a, weight) + SumTally(b, weight)
    decreases |b|
  {
    if b != [] {
      assert (a + b)[..|a + b| - 1] == a + b[..|b| - 1];
      SumTallyAppend(a, b[..|b| - 1], weight);
    } else {
      assert a + b == a;
    }
  }

  lemma {:induction false} FeasibleFromTally(s: State, k: nat, weight: Weight)
    requires k <= |s.tree.candidates|
    ensures SumTally(FeasibleFrom(s, k), weight) == TallyFrom(s.tree, k, weight)
    decreases |s.tree.candidates| - k
  {
    if k < |s.tree.candidates| {
      var head := if IsFeasiblePair(s, At(k)) then [AddPair(s, At(k))] else [];
      SumTallyAppend(head, FeasibleFrom(s, k + 1), weight);
      FeasibleFromTally(s, k + 1, weight);
      assert head != [] ==> head[..0] == [];
    }
  }

  /** Expanding a state hands the whole search below it, except the state
      itself, to the children it pushes. */
  lemma ExpandTally(s: State, weight: Weight)
    ensures Tally(s.tree, weight) == WeightOf(weight, s.tree) + SumTally(Expand(s), weight)
  {
    FeasibleFromTally(s, 0, weight);
  }

  /** Instances of ExpandTally: a goal counts one, a dead state none, and a
      live state as many as its children together; every expansion removes
      exactly one state from the work left. */
  lemma ExpandCounts(s: State)
    ensures GoalCount(s.tree) == (if IsGoal(s) then 1 else 0) + SumTally(Expand(s), GoalWeight)
    ensures Size(s.tree) == 1 + SumTally(Expand(s), NodeWeight)
  {
    ExpandTally(s, GoalWeight);
    ExpandTally(s, NodeWeight);
  }
}
