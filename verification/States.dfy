/**
 Execution states as far as the exploration bookkeeping is concerned, and the nodes
 of the two trees they hang off.
 */
module States {
  /** Turns taken at each branch from the root down; `false` is child 0. */
  type Path = seq<bool>

  class ExecutionState {
    var parentBranch: BranchNode?
    var ptreeNode: PTreeNode?
    var isPruned: bool

    constructor ()
      ensures parentBranch == null && ptreeNode == null && !isPruned
    {
      parentBranch, ptreeNode, isPruned := null, null, false;
    }

    constructor Copy(state: ExecutionState)
      ensures parentBranch == null && ptreeNode == state.ptreeNode && isPruned == state.isPruned
    {
      parentBranch, ptreeNode, isPruned := null, state.ptreeNode, state.isPruned;
    }
  }

  class BranchNode {
    const dynInstrIdx: nat
    var childStates: seq<ExecutionState?>
    var childBranches: seq<BranchNode?>
    var parentBranch: BranchNode?
    ghost const path: Path

    constructor (dynInstrIdx: nat, left: ExecutionState, right: ExecutionState, parent: BranchNode?, ghost path: Path)
      ensures this.dynInstrIdx == dynInstrIdx && this.path == path
      ensures childStates == [left, right] && childBranches == [null, null] && parentBranch == parent
    {
      this.dynInstrIdx := dynInstrIdx;
      childStates, childBranches := [left, right], [null, null];
      parentBranch := parent;
      this.path := path;
    }
  }

  class PTreeNode {
    const parent: PTreeNode?
    var left: PTreeNode?
    var right: PTreeNode?
    var data: ExecutionState?
    ghost const depth: nat

    constructor (parent: PTreeNode?, data: ExecutionState)
      ensures this.parent == parent && this.data == data && left == null && right == null
      ensures depth == if parent == null then 0 else parent.depth + 1
    {
      this.parent, this.data := parent, data;
      left, right := null, null;
      depth := if parent == null then 0 else parent.depth + 1;
    }
  }
}
