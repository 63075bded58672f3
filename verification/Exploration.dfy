/**
 The executor's bookkeeping of states: the live set, the states added and removed
 since the last update, the process tree and the branch tree all agree.
 */
module Exploration {
  import opened States
  import opened BranchTrees
  import opened ProcessTrees

  class Executor {
    const usePathSlicer: bool
    const markPrunedOnly: bool
    const processTree: PTree
    const brTree: BranchTree

    var states: set<ExecutionState>
    var addedStates: set<ExecutionState>
    var removedStates: set<ExecutionState>

    /** The branch tree holds exactly the given states, or none before the first branch,
        when there is at most one state. */
    ghost predicate BranchesOk(live: set<ExecutionState>)
      reads brTree, brTree.t.at.Values, brTree.t.slot.Keys`parentBranch
    {
      brTree.Valid()
      && (!usePathSlicer ==> brTree.root == null)
      && (usePathSlicer && brTree.root != null ==> brTree.t.slot.Keys == live)
      && (usePathSlicer && brTree.root == null ==> forall s, s' :: s in live && s' in live ==> s == s')
    }

    /** So do the leaves of the process tree. */
    ghost predicate TreesOk(live: set<ExecutionState>)
      reads processTree, processTree.nodes, processTree.leaves`ptreeNode,
            brTree, brTree.t.at.Values, brTree.t.slot.Keys`parentBranch
    {
      processTree.Valid() && processTree.leaves == live && BranchesOk(live)
    }

    ghost predicate Valid()
      reads this, processTree, processTree.nodes, processTree.leaves`ptreeNode,
            brTree, brTree.t.at.Values, brTree.t.slot.Keys`parentBranch
    {
      TreesOk(states + addedStates) && states !! addedStates && removedStates <= states
    }

    constructor (initial: ExecutionState, usePathSlicer: bool, markPrunedOnly: bool)
      modifies initial`ptreeNode
      ensures Valid() && states == {initial} && addedStates == {} && removedStates == {}
    {
      this.usePathSlicer, this.markPrunedOnly := usePathSlicer, markPrunedOnly;
      processTree := new PTree(initial);
      brTree := new BranchTree();
      states, addedStates, removedStates := {initial}, {}, {};
    }

    method AddToTrees(current: ExecutionState, other: ExecutionState, dynInstrIdx: nat, swapped: bool, ghost live: set<ExecutionState>)
      requires TreesOk(live) && current in live && other !in live
      modifies processTree, processTree.nodes, brTree, brTree.t.at.Values
      modifies current`ptreeNode, other`ptreeNode, current`parentBranch, other`parentBranch
      ensures TreesOk(live + {other})
      ensures usePathSlicer ==>
        Branched(old(brTree.root != null), old(brTree.t.at), old(brTree.t.slot), brTree.t.at, brTree.t.slot, current, other, dynInstrIdx)
      ensures fresh(processTree.nodes - old(processTree.nodes)) && fresh(brTree.t.at.Values - old(brTree.t.at.Values))
    {
      hide BranchesOk, PTree.Valid, PTree.ValidBut, Branched;
      processTree.LeafAt(current);
      AddToBranchTree(current, other, dynInstrIdx, live);
      processTree.Split(current, other, swapped);
    }

    method AddToBranchTree(current: ExecutionState, other: ExecutionState, dynInstrIdx: nat, ghost live: set<ExecutionState>)
      requires BranchesOk(live) && current in live && other !in live
      modifies brTree, brTree.t.at.Values, current`parentBranch, other`parentBranch
      ensures BranchesOk(live + {other}) && fresh(brTree.t.at.Values - old(brTree.t.at.Values))
      ensures usePathSlicer ==>
        Branched(old(brTree.root != null), old(brTree.t.at), old(brTree.t.slot), brTree.t.at, brTree.t.slot, current, other, dynInstrIdx)
    {
      hide BranchTree.Valid;
      if usePathSlicer {
        if brTree.root == null {
          brTree.NothingAttached();
        }
        brTree.AddBranch(current, dynInstrIdx, other);
      }
    }

    method RemoveFromBranchTree(s: ExecutionState, ghost live: set<ExecutionState>)
      requires BranchesOk(live) && s in live
      modifies brTree`t, brTree.t.at.Values, s`parentBranch
      ensures BranchesOk(live - {s}) && brTree.t.at == old(brTree.t.at)
    {
      hide BranchTree.Valid;
      if usePathSlicer {
        brTree.RemoveState(s);
      }
    }

    method RemoveFromTrees(s: ExecutionState, ghost live: set<ExecutionState>)
      requires TreesOk(live) && s in live
      modifies processTree, processTree.nodes, brTree, brTree.t.at.Values, s`parentBranch
      ensures TreesOk(live - {s}) && processTree.nodes <= old(processTree.nodes) && brTree.t.at == old(brTree.t.at)
    {
      hide BranchesOk, PTree.Valid, PTree.ValidBut;
      processTree.LeafAt(s);
      processTree.NodeAt(s.ptreeNode);
      processTree.Remove(s.ptreeNode);
      RemoveFromBranchTree(s, live);
    }

    // ------------------------------------------------------------------- the steps

    /** A fork of which both sides are possible; `current` goes on as one of them. */
    method Fork(current: ExecutionState, dynInstrIdx: nat, swapped: bool) returns (other: ExecutionState)
      requires Valid() && current in states + addedStates
      modifies this`addedStates, processTree, processTree.nodes, brTree, brTree.t.at.Values
      modifies current`ptreeNode, current`parentBranch
      ensures Valid() && fresh(other) && addedStates == old(addedStates) + {other} && other.isPruned == current.isPruned
      ensures usePathSlicer ==>
        Branched(old(brTree.root != null), old(brTree.t.at), old(brTree.t.slot), brTree.t.at, brTree.t.slot, current, other, dynInstrIdx)
    {
      hide TreesOk, Branched;
      other := new ExecutionState.Copy(current);
      AddToTrees(current, other, dynInstrIdx, swapped, states + addedStates);
      assert states + (addedStates + {other}) == states + addedStates + {other};
      addedStates := addedStates + {other};
    }

    /** A state that the searcher has not seen yet goes at once, any other is removed by
        the next update. */
    method TerminateState(s: ExecutionState)
      requires Valid() && s in states + addedStates
      modifies this`addedStates, this`removedStates, processTree, processTree.nodes, brTree, brTree.t.at.Values
      modifies s`parentBranch
      ensures Valid()
      ensures s in old(addedStates) ==> addedStates == old(addedStates) - {s} && removedStates == old(removedStates)
      ensures s !in old(addedStates) ==> addedStates == old(addedStates) && removedStates == old(removedStates) + {s}
    {
      hide TreesOk;
      if s !in addedStates {
        removedStates := removedStates + {s};
      } else {
        ghost var live := states + addedStates;
        addedStates := addedStates - {s};
        assert states + addedStates == live - {s};
        RemoveFromTrees(s, live);
      }
    }

    /** A pruned state goes at once wherever it is. */
    method TerminateStateAtOnce(s: ExecutionState)
      requires Valid() && s in states + addedStates
      modifies this, processTree, processTree.nodes, brTree, brTree.t.at.Values, s`parentBranch
      ensures Valid() && states == old(states) - {s} && addedStates == old(addedStates) - {s}
      ensures removedStates == old(removedStates) - {s}
      ensures processTree.nodes <= old(processTree.nodes) && brTree.t.at == old(brTree.t.at)
    {
      hide TreesOk;
      ghost var live := states + addedStates;
      addedStates := addedStates - {s};
      removedStates := removedStates - {s};
      states := states - {s};
      assert states + addedStates == live - {s};
      RemoveFromTrees(s, live);
    }

    /** Takes over the added states and drops the removed ones; does nothing if the
        current state was pruned meanwhile. */
    method UpdateStates(current: ExecutionState?)
      requires Valid()
      modifies this, processTree, processTree.nodes, brTree, brTree.t.at.Values, removedStates`parentBranch
      ensures Valid()
      ensures var discarded := usePathSlicer && current != null && current.isPruned && !markPrunedOnly;
              if discarded then
                states == old(states) && addedStates == old(addedStates) && removedStates == old(removedStates)
              else
                states == old(states) + old(addedStates) - old(removedStates) && addedStates == {} && removedStates == {}
    {
      hide TreesOk;
      if usePathSlicer && current != null && current.isPruned && !markPrunedOnly {
        return;
      }
      assert states + addedStates + {} == states + addedStates;
      states, addedStates := states + addedStates, {};
      while removedStates != {}
        invariant TreesOk(states) && addedStates == {} && removedStates <= states && removedStates <= old(removedStates)
        invariant states - removedStates == old(states) + old(addedStates) - old(removedStates)
        invariant processTree.nodes <= old(processTree.nodes) && brTree.t.at == old(brTree.t.at)
        decreases removedStates
      {
        var s :| s in removedStates;
        assert s in states;
        RemoveFromTrees(s, states);
        states := states - {s};
        removedStates := removedStates - {s};
      }
      assert states + addedStates == states;
    }

    /** What the branch tree says is to be pruned for a list of branches. */
    ghost function ToPrune(s: ExecutionState, idxs: seq<nat>): set<ExecutionState>
      reads brTree
    {
      if brTree.root == null || s !in brTree.t.slot then {}
      else AllPruned(brTree.t.slot, s, Trail(brTree.t.at, brTree.t.slot[s]), idxs)
    }

    /** Prunes what the slicer found irrelevant to `s`, which itself stays. */
    method SlicingAndPruneStates(s: ExecutionState, rmBrs: seq<nat>, rmCalls: seq<nat>)
      returns (prunedStates: set<ExecutionState>)
      requires Valid() && usePathSlicer && s in states + addedStates
      modifies this, processTree, processTree.nodes, brTree, brTree.t.at.Values
      modifies (states + addedStates)`parentBranch, (states + addedStates)`isPruned
      ensures Valid() && prunedStates <= old(states + addedStates) && s !in prunedStates
      ensures prunedStates == if old(s.isPruned) then {} else old(ToPrune(s, rmBrs + rmCalls))
      ensures forall p :: p in old(states + addedStates) ==> (p.isPruned <==> p in prunedStates || old(p.isPruned))
      ensures var gone := if markPrunedOnly then {} else prunedStates;
              states == old(states) - gone && addedStates == old(addedStates) - gone
              && removedStates == old(removedStates) - gone
    {
      hide BranchesOk, PTree.Valid, ToPrune;
      prunedStates := {};
      if s.isPruned {
        return;
      }
      prunedStates := FindAllPruned(s, rmBrs + rmCalls);
      Prune(prunedStates);
    }

    lemma BranchFacts(live: set<ExecutionState>)
      requires BranchesOk(live) && usePathSlicer
      ensures brTree.Valid() && (brTree.root != null ==> brTree.t.slot.Keys == live)
    {
    }

    method FindAllPruned(s: ExecutionState, idxs: seq<nat>) returns (prunedStates: set<ExecutionState>)
      requires BranchesOk(states + addedStates) && usePathSlicer && s in states + addedStates
      ensures prunedStates <= states + addedStates && s !in prunedStates
      ensures prunedStates == ToPrune(s, idxs)
    {
      hide BranchTree.Valid, Pruned, BranchesOk;
      prunedStates := {};
      BranchFacts(states + addedStates);
      for i := 0 to |idxs|
        invariant brTree.Valid()
        invariant prunedStates <= states + addedStates && s !in prunedStates
        invariant prunedStates == ToPrune(s, idxs[..i])
      {
        var found;
        prunedStates, found := brTree.FindPrunedStates(s, idxs[i], prunedStates);
        assert idxs[..i + 1] == idxs[..i] + [idxs[i]];
      }
      assert idxs[..|idxs|] == idxs;
    }

    method Prune(prunedStates: set<ExecutionState>)
      requires Valid() && prunedStates <= states + addedStates
      modifies this, processTree, processTree.nodes, brTree, brTree.t.at.Values
      modifies prunedStates`parentBranch, prunedStates`isPruned
      ensures Valid() && forall p :: p in prunedStates ==> p.isPruned
      ensures var gone := if markPrunedOnly then {} else prunedStates;
              states == old(states) - gone && addedStates == old(addedStates) - gone
              && removedStates == old(removedStates) - gone
    {
      hide Valid;
      var pending := prunedStates;
      ghost var gone: set<ExecutionState> := {};
      while pending != {}
        invariant Valid() && pending <= prunedStates
        invariant forall p :: p in prunedStates - pending ==> p.isPruned
        invariant gone == if markPrunedOnly then {} else prunedStates - pending
        invariant states == old(states) - gone && addedStates == old(addedStates) - gone
        invariant removedStates == old(removedStates) - gone
        invariant processTree.nodes <= old(processTree.nodes) && brTree.t.at == old(brTree.t.at)
        decreases pending
      {
        var p :| p in pending;
        p.isPruned := true;
        if !markPrunedOnly {
          TerminateStateAtOnce(p);
          gone := gone + {p};
        }
        pending := pending - {p};
      }
    }

    /** What a random path ends at is a live state. */
    method SelectState(words: nat -> nat) returns (s: ExecutionState)
      requires Valid() && states + addedStates != {}
      ensures s in states + addedStates
    {
      ghost var way;
      s, way := processTree.SelectState(words);
    }
  }

  /** A branch with the given index takes the place of `current`, with `current` and
      `other` as its two sides. */
  ghost predicate Branched(rooted: bool, at: map<Path, BranchNode>, slot: map<ExecutionState, Path>,
                           at': map<Path, BranchNode>, slot': map<ExecutionState, Path>,
                           current: ExecutionState, other: ExecutionState, dynInstrIdx: nat)
  {
    (rooted ==> current in slot)
    && var q := if rooted then slot[current] else [];
       q in at' && at'[q].dynInstrIdx == dynInstrIdx && at' == at[q := at'[q]]
       && slot' == slot[current := q + [false]][other := q + [true]]
  }

  /** The states to prune for a list of branches. */
  ghost function AllPruned<S>(slot: map<S, Path>, s: S, trail: seq<nat>, idxs: seq<nat>): (all: set<S>)
    requires s in slot && |trail| == |slot[s]|
    ensures s !in all && all <= slot.Keys
  {
    if idxs == [] then {}
    else AllPruned(slot, s, trail, idxs[..|idxs| - 1]) + Pruned(slot, s, trail, idxs[|idxs| - 1])
  }

  /** What is pruned for a list is what is pruned for one of its branches. */
  lemma {:induction false} AllPrunedUnion<S>(slot: map<S, Path>, s: S, trail: seq<nat>, idxs: seq<nat>, p: S)
    requires s in slot && |trail| == |slot[s]|
    ensures p in AllPruned(slot, s, trail, idxs)
       <==> exists i :: 0 <= i < |idxs| && p in Pruned(slot, s, trail, idxs[i])
  {
    hide Pruned;
    if idxs != [] {
      var front := idxs[..|idxs| - 1];
      AllPrunedUnion(slot, s, trail, front, p);
      if p in AllPruned(slot, s, trail, front) {
        var i :| 0 <= i < |front| && p in Pruned(slot, s, trail, front[i]);
        assert p in Pruned(slot, s, trail, idxs[i]);
      }
      if i :| 0 <= i < |idxs| && p in Pruned(slot, s, trail, idxs[i]) {
        if i < |front| {
          assert p in Pruned(slot, s, trail, front[i]);
        }
      }
    }
  }
}
