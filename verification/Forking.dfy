/**
 Forking. The solver is an exact oracle over the assignments that satisfy a
 path condition; every fork splits one path condition in two and halves the
 weight of its state.
 */
module Forking {
  import opened Exprs
  import opened LogicConstructors
  import opened Constraints

  // ------------------------------------------------------------------ the oracle

  datatype Validity = True | False | Unknown

  type Solver = (seq<Expr>, Expr) -> Validity

  ghost predicate Possible(c: seq<Expr>, e: Expr, value: nat) {
    exists a: Assignment :: Sat(c, a) && Eval(e, a) == value
  }

  /** `Unknown` exactly when both outcomes are possible. */
  ghost predicate Exact(solver: Solver) {
    forall c, e :: AllBool(c) && Width(e) == BOOL ==>
      match solver(c, e)
      case True => !Possible(c, e, 0)
      case False => !Possible(c, e, 1)
      case Unknown => Possible(c, e, 0) && Possible(c, e, 1)
  }

  // ------------------------------------------------ runs of forks, on their values

  /** A leaf of the exploration: its path condition and its weight. */
  datatype Leaf = Leaf(pc: seq<Expr>, weight: real)

  ghost predicate Satisfiable(c: seq<Expr>) {
    exists a: Assignment :: Sat(c, a)
  }

  /** `t` and `f` take over from `s` on the two sides of `cond`. */
  ghost predicate SplitsOn(s: seq<Expr>, cond: Expr, t: seq<Expr>, f: seq<Expr>) {
    Width(cond) == BOOL && Conjoined(t, s, cond) && Conjoined(f, s, IsZero(cond))
    && Satisfiable(t) && Satisfiable(f)
  }

  /** One fork: leaf `i` keeps one side, a new leaf at the end takes the other. */
  ghost predicate ForkStep(s: seq<Leaf>, s': seq<Leaf>) {
    exists i, cond :: 0 <= i < |s| && ForkAt(s, s', i, cond)
  }

  ghost predicate ForkAt(s: seq<Leaf>, s': seq<Leaf>, i: nat, cond: Expr)
    requires i < |s|
  {
    |s'| == |s| + 1
    && s'[..|s|] == s[i := s'[i]]
    && s'[i].weight == s[i].weight * 0.5
    && s'[|s|].weight == s[i].weight - s'[i].weight
    && (SplitsOn(s[i].pc, cond, s'[i].pc, s'[|s|].pc)
        || SplitsOn(s[i].pc, cond, s'[|s|].pc, s'[i].pc))
  }

  /** The path conditions of the leaves are satisfiable, pairwise disjoint, and
      together cover exactly the assignments of the initial path condition. */
  ghost predicate Partition(init: seq<Expr>, s: seq<Leaf>) {
    (forall i :: 0 <= i < |s| ==> Satisfiable(s[i].pc))
    && (forall i, j, a: Assignment :: 0 <= i < j < |s| ==> !(Sat(s[i].pc, a) && Sat(s[j].pc, a)))
    && (forall a: Assignment :: Sat(init, a) <==> Covered(s, a))
  }

  ghost predicate Covered(s: seq<Leaf>, a: Assignment) {
    exists i :: 0 <= i < |s| && Sat(s[i].pc, a)
  }

  function TotalLeafWeight(s: seq<Leaf>): real {
    if s == [] then 0.0 else TotalLeafWeight(s[..|s| - 1]) + s[|s| - 1].weight
  }

  /** Of the two sides of a split, an assignment satisfies exactly one if it
      satisfied the condition before, and neither otherwise. */
  lemma SplitSides(s: seq<Expr>, cond: Expr, t: seq<Expr>, f: seq<Expr>, a: Assignment)
    requires SplitsOn(s, cond, t, f)
    ensures Sat(s, a) <==> Sat(t, a) || Sat(f, a)
    ensures !(Sat(t, a) && Sat(f, a))
  {
    hide Sat, Eval, Width, IsZero;
    BoolRange(cond, a);
    IsZeroSound(cond, a);
  }

  lemma ForkSides(s: seq<Leaf>, s': seq<Leaf>, i: nat, cond: Expr, a: Assignment)
    requires i < |s| && ForkAt(s, s', i, cond)
    ensures Sat(s[i].pc, a) <==> Sat(s'[i].pc, a) || Sat(s'[|s|].pc, a)
    ensures !(Sat(s'[i].pc, a) && Sat(s'[|s|].pc, a))
  {
    hide Sat, SplitsOn;
    if SplitsOn(s[i].pc, cond, s'[i].pc, s'[|s|].pc) {
      SplitSides(s[i].pc, cond, s'[i].pc, s'[|s|].pc, a);
    } else {
      SplitSides(s[i].pc, cond, s'[|s|].pc, s'[i].pc, a);
    }
  }

  lemma ForkElsewhere(s: seq<Leaf>, s': seq<Leaf>, i: nat, cond: Expr, j: nat)
    requires i < |s| && ForkAt(s, s', i, cond) && j < |s| && j != i
    ensures s'[j] == s[j]
  {
    assert s'[..|s|][j] == s[j];
  }

  lemma ForkKeepsDisjoint(init: seq<Expr>, s: seq<Leaf>, s': seq<Leaf>, i: nat, cond: Expr, j: nat, k: nat, a: Assignment)
    requires Partition(init, s) && i < |s| && ForkAt(s, s', i, cond) && j < k < |s'|
    ensures !(Sat(s'[j].pc, a) && Sat(s'[k].pc, a))
  {
    hide Sat;
    ForkSides(s, s', i, cond, a);
    if j != i {
      ForkElsewhere(s, s', i, cond, j);
    }
    if k != i && k != |s| {
      ForkElsewhere(s, s', i, cond, k);
    }
  }

  lemma ForkKeepsCover(s: seq<Leaf>, s': seq<Leaf>, i: nat, cond: Expr, a: Assignment)
    requires i < |s| && ForkAt(s, s', i, cond)
    ensures Covered(s, a) <==> Covered(s', a)
  {
    hide Sat;
    ForkSides(s, s', i, cond, a);
    if Covered(s, a) {
      var j :| 0 <= j < |s| && Sat(s[j].pc, a);
      if j != i {
        ForkElsewhere(s, s', i, cond, j);
        assert Sat(s'[j].pc, a);
      }
    }
    if Covered(s', a) {
      var j :| 0 <= j < |s'| && Sat(s'[j].pc, a);
      if j != i && j != |s| {
        ForkElsewhere(s, s', i, cond, j);
      }
      assert Sat(s[if j == |s| then i else j].pc, a);
    }
  }

  lemma ForkKeepsPartition(init: seq<Expr>, s: seq<Leaf>, s': seq<Leaf>)
    requires Partition(init, s) && ForkStep(s, s')
    ensures Partition(init, s')
  {
    hide Sat, Satisfiable;
    var i, cond :| 0 <= i < |s| && ForkAt(s, s', i, cond);
    forall j | 0 <= j < |s'| ensures Satisfiable(s'[j].pc) {
      if j != i && j != |s| {
        ForkElsewhere(s, s', i, cond, j);
      }
    }
    forall j, k, a: Assignment | 0 <= j < k < |s'| ensures !(Sat(s'[j].pc, a) && Sat(s'[k].pc, a)) {
      ForkKeepsDisjoint(init, s, s', i, cond, j, k, a);
    }
    forall a: Assignment ensures Sat(init, a) <==> Covered(s', a) {
      ForkKeepsCover(s, s', i, cond, a);
    }
  }

  lemma {:induction false} WeightUpdate(s: seq<Leaf>, i: nat, leaf: Leaf)
    requires i < |s|
    ensures TotalLeafWeight(s[i := leaf]) == TotalLeafWeight(s) - s[i].weight + leaf.weight
  {
    var n := |s| - 1;
    var u := s[i := leaf];
    if i == n {
      assert u[..n] == s[..n];
    } else {
      WeightUpdate(s[..n], i, leaf);
      assert u[..n] == s[..n][i := leaf];
    }
  }

  lemma ForkKeepsWeight(s: seq<Leaf>, s': seq<Leaf>)
    requires ForkStep(s, s')
    ensures TotalLeafWeight(s') == TotalLeafWeight(s)
  {
    hide SplitsOn;
    var i, cond :| 0 <= i < |s| && ForkAt(s, s', i, cond);
    WeightUpdate(s, i, s'[i]);
  }

  /** A run of forks from a single state. */
  ghost predicate IsRun(run: seq<seq<Leaf>>) {
    run != [] && |run[0]| == 1
    && forall k :: 0 < k < |run| ==> ForkStep(run[k - 1], run[k])
  }

  /** Over any run of forks, at every moment, the leaves partition the assignments
      of the initial state and their weights sum to its weight. */
  lemma {:induction false} RunsPartition(run: seq<seq<Leaf>>)
    requires IsRun(run) && Satisfiable(run[0][0].pc)
    ensures Partition(run[0][0].pc, run[|run| - 1])
    ensures TotalLeafWeight(run[|run| - 1]) == run[0][0].weight
    decreases |run|
  {
    hide Sat, Satisfiable, ForkStep;
    var init := run[0][0].pc;
    var n := |run| - 1;
    if n == 0 {
      SingleLeaf(run[0]);
    } else {
      RunsPartition(run[..n]);
      ForkKeepsPartition(init, run[n - 1], run[n]);
      ForkKeepsWeight(run[n - 1], run[n]);
    }
  }

  lemma SingleLeaf(s: seq<Leaf>)
    requires |s| == 1 && Satisfiable(s[0].pc)
    ensures Partition(s[0].pc, s) && TotalLeafWeight(s) == s[0].weight
  {
    hide Sat, Satisfiable;
    forall a: Assignment ensures Sat(s[0].pc, a) <==> Covered(s, a) {
      if Sat(s[0].pc, a) {
        assert 0 <= 0 < |s|;
      }
    }
  }

  // ------------------------------------------------------------- forking in place

  class ExecutionState {
    /** The list held by this state's constraint manager, a value member. */
    var constraints: seq<Expr>
    var weight: real
    var depth: nat

    constructor (pc: seq<Expr>, w: real, d: nat)
      ensures constraints == pc && weight == w && depth == d
    {
      constraints, weight, depth := pc, w, d;
    }

    /** Copies this state and shares its weight with the copy. */
    method Branch() returns (falseState: ExecutionState)
      modifies this
      ensures constraints == old(constraints)
      ensures depth == old(depth) + 1 && weight == old(weight) * 0.5
      ensures fresh(falseState) && falseState.constraints == constraints
      ensures falseState.depth == depth && falseState.weight == old(weight) - weight
    {
      depth := depth + 1;
      falseState := new ExecutionState(constraints, weight, depth);
      weight := weight * 0.5;
      falseState.weight := falseState.weight - weight;
    }

    /** A constant condition must be true and is not recorded. Neither assertion
        against a false constraint can fire. */
    method AddConstraint(cond: Expr)
      requires AllBool(constraints) && Width(cond) == BOOL && Possible(constraints, cond, 1)
      modifies this`constraints
      ensures AllBool(constraints) && Conjoined(constraints, old(constraints), cond)
    {
      hide Sat, Width, Eval;
      if cond.Constant? {
        PossibleConstant(constraints, cond);
        return;
      }
      var manager := new ConstraintManager();
      manager.constraints := constraints;
      var ok := manager.AddConstraint(cond);
      assert ok;
      constraints := manager.constraints;
    }
  }

  lemma PossibleConstant(c: seq<Expr>, cond: Expr)
    requires cond.Constant? && Possible(c, cond, 1)
    ensures Conjoined(c, c, cond)
  {
    hide Sat;
  }

  lemma NegatedPossible(s: seq<Expr>, cond: Expr)
    requires Width(cond) == BOOL && Possible(s, cond, 0)
    ensures Width(IsZero(cond)) == BOOL && Possible(s, IsZero(cond), 1)
  {
    hide Sat, Eval, Width, IsZero;
    IsZeroTyped(cond);
    var a: Assignment :| Sat(s, a) && Eval(cond, a) == 0;
    IsZeroSound(cond, a);
  }

  lemma SplitMade(s: seq<Expr>, cond: Expr, t: seq<Expr>, f: seq<Expr>)
    requires Width(cond) == BOOL && Possible(s, cond, 1) && Possible(s, IsZero(cond), 1)
    requires Conjoined(t, s, cond) && Conjoined(f, s, IsZero(cond))
    ensures SplitsOn(s, cond, t, f)
  {
    hide Sat, Eval, IsZero;
    var a: Assignment :| Sat(s, a) && Eval(cond, a) == 1;
    assert Sat(t, a);
    var b: Assignment :| Sat(s, b) && Eval(IsZero(cond), b) == 1;
    assert Sat(f, b);
  }

  lemma ForkMade(s: seq<Leaf>, i: nat, cond: Expr, kept: Leaf, other: Leaf)
    requires i < |s| && kept.weight == s[i].weight * 0.5 && other.weight == s[i].weight - kept.weight
    requires SplitsOn(s[i].pc, cond, kept.pc, other.pc) || SplitsOn(s[i].pc, cond, other.pc, kept.pc)
    ensures ForkStep(s, s[i := kept] + [other])
  {
    hide SplitsOn;
    assert ForkAt(s, s[i := kept] + [other], i, cond);
  }

  lemma DecidedTrue(s: seq<Expr>, cond: Expr)
    requires Width(cond) == BOOL && !Possible(s, cond, 0)
    ensures Conjoined(s, s, cond)
  {
    hide Sat, Eval, Width;
    forall a: Assignment ensures Sat(s, a) <==> Sat(s, a) && Eval(cond, a) == 1 {
      BoolRange(cond, a);
    }
  }

  lemma DecidedFalse(s: seq<Expr>, cond: Expr)
    requires Width(cond) == BOOL && !Possible(s, cond, 1)
    ensures Conjoined(s, s, IsZero(cond))
  {
    hide Sat, Eval, Width, IsZero;
    forall a: Assignment ensures Sat(s, a) <==> Sat(s, a) && Eval(IsZero(cond), a) == 1 {
      BoolRange(cond, a);
      IsZeroSound(cond, a);
    }
  }

  class Explorer {
    const solver: Solver
    const maxDepth: nat

    /** States still being explored. */
    var states: set<ExecutionState>

    /** Every leaf of the exploration, finished ones included. */
    ghost var leaves: seq<ExecutionState>

    /** The path conditions and weights of the leaves. */
    ghost var view: seq<Leaf>

    ghost predicate Valid()
      reads this, leaves
    {
      Exact(solver)
      && (forall s :: s in states ==> s in leaves)
      && |view| == |leaves|
      && (forall i :: 0 <= i < |leaves| ==>
            AllBool(leaves[i].constraints) && view[i] == Leaf(leaves[i].constraints, leaves[i].weight))
      && (forall i, j :: 0 <= i < j < |leaves| ==> leaves[i] != leaves[j])
    }

    constructor (solve: Solver, bound: nat, pc: seq<Expr>)
      requires Exact(solve) && AllBool(pc)
      ensures Valid() && solver == solve && maxDepth == bound
      ensures view == [Leaf(pc, 1.0)] && |states| == 1
    {
      var s := new ExecutionState(pc, 1.0, 0);
      solver, maxDepth := solve, bound;
      states, leaves, view := {s}, [s], [Leaf(pc, 1.0)];
    }

    /** Explores both outcomes of `cond` where both are possible. `swap` says which
        of the two states continues on the true side. */
    method Fork(current: ExecutionState, cond: Expr, swap: bool)
        returns (trueState: ExecutionState?, falseState: ExecutionState?)
      requires Valid() && current in states && Width(cond) == BOOL
      modifies this, current
      ensures Valid()
      ensures trueState != null ==> Takes(trueState, old(current.constraints), cond)
      ensures falseState != null ==> Takes(falseState, old(current.constraints), IsZero(cond))
      ensures trueState == null && falseState != null ==>
        view == old(view) && states == old(states) && falseState == current
        && !Possible(old(current.constraints), cond, 1)
      ensures falseState == null && trueState != null ==>
        view == old(view) && states == old(states) && trueState == current
        && !Possible(old(current.constraints), cond, 0)
      ensures falseState != null && trueState != null ==>
        ForkStep(old(view), view) && states == old(states) + {trueState, falseState}
        && (if swap then falseState else trueState) == current && fresh(if swap then trueState else falseState)
      ensures falseState == null && trueState == null ==>
        ForkStep(old(view), view) && states == old(states) - {current}
      ensures Possible(old(current.constraints), cond, 0) && Possible(old(current.constraints), cond, 1) ==>
        (trueState == null && falseState == null <==> 0 < maxDepth <= old(current.depth) + 1)
        && (trueState != null && falseState != null <==> !(0 < maxDepth <= old(current.depth) + 1))
    {
      hide Sat, Eval, Width, IsZero, Possible, Conjoined;
      ghost var pc := current.constraints;
      match solver(current.constraints, cond)
      case True =>
        DecidedTrue(pc, cond);
        trueState, falseState := current, null;
      case False =>
        DecidedFalse(pc, cond);
        trueState, falseState := null, current;
      case Unknown =>
        NegatedPossible(pc, cond);
        if swap {
          trueState := ForkBoth(current, IsZero(cond), cond, cond);
          falseState := current;
        } else {
          falseState := ForkBoth(current, cond, IsZero(cond), cond);
          trueState := current;
        }
        if maxDepth != 0 && maxDepth <= trueState.depth {
          states := states - {trueState, falseState};
          trueState, falseState := null, null;
        }
    }

    /** `s` is explored further under what was known before and `cond`. */
    ghost predicate Takes(s: ExecutionState, pc: seq<Expr>, cond: Expr)
      reads this, s
    {
      s in states && Conjoined(s.constraints, pc, cond)
    }

    /** `current` goes on under `mine`, a new state under `theirs`. */
    method ForkBoth(current: ExecutionState, mine: Expr, theirs: Expr, ghost cond: Expr)
        returns (other: ExecutionState)
      requires Valid() && current in states && Width(mine) == Width(theirs) == Width(cond) == BOOL
      requires (mine == cond && theirs == IsZero(cond)) || (theirs == cond && mine == IsZero(cond))
      requires Possible(current.constraints, mine, 1) && Possible(current.constraints, theirs, 1)
      modifies this, current
      ensures Valid() && ForkStep(old(view), view)
      ensures Takes(current, old(current.constraints), mine)
      ensures Takes(other, old(current.constraints), theirs)
      ensures fresh(other) && states == old(states) + {other}
      ensures other.depth == current.depth == old(current.depth) + 1
    {
      hide Sat, Eval, Width, IsZero, Possible, Conjoined, Exact, Satisfiable, SplitsOn, ForkStep, AllBool;
      ghost var pc := current.constraints;
      ghost var i :| 0 <= i < |leaves| && leaves[i] == current;
      other := current.Branch();
      states, leaves := states + {other}, leaves + [other];
      current.AddConstraint(mine);
      other.AddConstraint(theirs);
      view := view[i := Leaf(current.constraints, current.weight)]
              + [Leaf(other.constraints, other.weight)];
      if mine == cond {
        SplitMade(pc, cond, current.constraints, other.constraints);
      } else {
        SplitMade(pc, cond, other.constraints, current.constraints);
      }
      ForkMade(old(view), i, cond, view[i], view[|old(view)|]);
    }
  }
}
