/**
 The branch tree: which states came out of which symbolic branch. Ghost maps give
 the place of every node and of every attached state as the path of turns from the
 root, so that "beneath" is "has as a prefix".
 */
module BranchTrees {
  import opened States

  function Up(q: Path): Path
    requires q != []
  {
    q[..|q| - 1]
  }

  function Last(q: Path): bool
    requires q != []
  {
    q[|q| - 1]
  }

  function Child(b: bool): (i: nat)
    ensures i < 2
  {
    if b then 1 else 0
  }

  /** Nodes are at paths closed under prefixes; states hang off nodes where no node is. */
  ghost predicate Placed<S>(nodes: set<Path>, slot: map<S, Path>) {
    (forall q {:trigger Up(q)} :: q in nodes && q != [] ==> Up(q) in nodes)
    && (forall s :: s in slot ==> slot[s] != [] && Up(slot[s]) in nodes && slot[s] !in nodes)
  }

  /** The attached states below a path. */
  ghost function Beneath<S>(slot: map<S, Path>, q: Path): set<S> {
    set s | s in slot && q <= slot[s]
  }

  lemma {:induction false} PrefixPlaced<S>(nodes: set<Path>, slot: map<S, Path>, q: Path, r: Path)
    requires Placed(nodes, slot) && r in nodes && q <= r
    ensures q in nodes
    decreases |r|
  {
    if q != r {
      PrefixPlaced(nodes, slot, q, Up(r));
    }
  }

  /** Below a node means below one of its two children. */
  lemma BeneathNode<S>(nodes: set<Path>, slot: map<S, Path>, q: Path)
    requires Placed(nodes, slot) && q in nodes
    ensures Beneath(slot, q) == Beneath(slot, q + [false]) + Beneath(slot, q + [true])
    ensures Beneath(slot, q + [false]) !! Beneath(slot, q + [true])
  {
    forall s | s in slot && q <= slot[s] ensures q + [false] <= slot[s] || q + [true] <= slot[s] {
      assert slot[s] != q;
      var b := slot[s][|q|];
      assert q + [b] <= slot[s];
    }
    forall s | s in slot && q + [false] <= slot[s] ensures !(q + [true] <= slot[s]) && q <= slot[s] {
      assert slot[s][|q|] == (q + [false])[|q|];
      assert (q + [true])[|q|];
    }
  }

  /** Where there is no node, only a state in that very place is below. */
  lemma BeneathSlot<S>(nodes: set<Path>, slot: map<S, Path>, q: Path, s: S)
    requires Placed(nodes, slot) && q !in nodes && s in slot && q <= slot[s]
    ensures slot[s] == q
  {
    if slot[s] != q {
      assert q <= Up(slot[s]);
      PrefixPlaced(nodes, slot, q, Up(slot[s]));
    }
  }

  /** The pointers of a node. */
  datatype Links = Links(states: seq<ExecutionState?>, branches: seq<BranchNode?>, parent: BranchNode?)

  /** The pointers of the node at `q` say what the maps say. */
  ghost predicate Linked(at: map<Path, BranchNode>, slot: map<ExecutionState, Path>, q: Path, links: Links) {
    |links.states| == 2 && |links.branches| == 2
    && links.parent == (if q != [] && Up(q) in at then at[Up(q)] else null)
    && (forall b :: links.branches[Child(b)] == if q + [b] in at then at[q + [b]] else null)
    && (forall b :: links.states[Child(b)] != null ==>
          (links.states[Child(b)] in slot && slot[links.states[Child(b)]] == q + [b]))
  }

  ghost predicate Holds(states: seq<ExecutionState?>, b: bool, s: ExecutionState) {
    |states| == 2 && states[Child(b)] == s
  }

  /** The whole tree as a value: where each node and each attached state is, and the
      pointers of the nodes. */
  datatype Shape = Shape(at: map<Path, BranchNode>, slot: map<ExecutionState, Path>, links: map<Path, Links>)

  /** The pointers of all nodes say what the maps say. */
  ghost predicate Wired(t: Shape) {
    t.links.Keys == t.at.Keys
    && (forall q {:trigger t.links[q]} :: q in t.at ==> t.at[q].path == q && Linked(t.at, t.slot, q, t.links[q]))
    && (forall s {:trigger t.slot[s]} :: s in t.slot ==> Hangs(t, s))
  }

  ghost predicate Hangs(t: Shape, s: ExecutionState)
    requires s in t.slot
  {
    var q := t.slot[s];
    q != [] && Up(q) in t.links && Holds(t.links[Up(q)].states, Last(q), s)
  }

  lemma Distinct(t: Shape)
    requires Wired(t)
    ensures forall q :: q in t.at ==> t.at[q].path == q
  {
    hide Linked, Hangs;
    forall q | q in t.at ensures t.at[q].path == q {
      assert q in t.links && t.links[q] == t.links[q];
    }
  }

  function Removed(t: Shape, s: ExecutionState, q: Path, b: bool): Shape
    requires q in t.links && |t.links[q].states| == 2
  {
    var links := t.links[q].(states := t.links[q].states[Child(b) := null]);
    Shape(t.at, t.slot - {s}, t.links[q := links])
  }

  lemma WiredRemoved(t: Shape, s: ExecutionState, q: Path, b: bool)
    requires Wired(t) && s in t.slot && t.slot[s] == q + [b] && q in t.at
    ensures Linked(t.at, t.slot, q, t.links[q]) && Wired(Removed(t, s, q, b))
  {
    hide Linked;
    assert Linked(t.at, t.slot, q, t.links[q]);
    LinkedRemoved(t.at, t.slot, q, t.links[q], s, b);
    assert Up(q + [b]) == q;
    var t' := Removed(t, s, q, b);
    forall r | r in t'.at ensures t'.at[r].path == r && Linked(t'.at, t'.slot, r, t'.links[r]) {
      assert Linked(t.at, t.slot, r, t.links[r]);
      if r != q {
        LinkedElsewhere(t.at, t.slot, r, t.links[r], s);
      }
    }
    forall u | u in t'.slot ensures Hangs(t', u) {
      assert t.slot[u] == t'.slot[u] && Hangs(t, u);
      if Up(t.slot[u]) == q {
        assert t.slot[u] == q + [Last(t.slot[u])];
      }
    }
  }

  /** Node `child` takes the place of state `s`, which hung off child `b` of node `p`. */
  function Added(t: Shape, s: ExecutionState, s': ExecutionState, p: Path, b: bool, child: BranchNode): Shape
    requires p in t.at && p in t.links && |t.links[p].states| == 2 && |t.links[p].branches| == 2
  {
    var q := p + [b];
    var above := Links(t.links[p].states[Child(b) := null], t.links[p].branches[Child(b) := child], t.links[p].parent);
    Shape(t.at[q := child],
          t.slot[s := q + [false]][s' := q + [true]],
          t.links[p := above][q := Links([s, s'], [null, null], t.at[p])])
  }

  lemma NoNodeBelow<S>(nodes: set<Path>, slot: map<S, Path>, q: Path, b: bool)
    requires Placed(nodes, slot) && q !in nodes
    ensures q + [b] !in nodes
  {
    assert Up(q + [b]) == q;
  }

  lemma PlacedAdded<S>(nodes: set<Path>, slot: map<S, Path>, s: S, s': S)
    requires Placed(nodes, slot) && s in slot && (forall u :: u in slot && u != s ==> slot[u] != slot[s])
    ensures Placed(nodes + {slot[s]}, slot[s := slot[s] + [false]][s' := slot[s] + [true]])
  {
    var q := slot[s];
    NoNodeBelow(nodes, slot, q, false);
    NoNodeBelow(nodes, slot, q, true);
    assert Up(q + [false]) == q && Up(q + [true]) == q;
  }

  lemma UniquePlace(t: Shape, s: ExecutionState)
    requires Wired(t) && s in t.slot
    ensures forall u :: u in t.slot && u != s ==> t.slot[u] != t.slot[s]
  {
    hide Linked;
    assert Hangs(t, s);
    forall u | u in t.slot && u != s ensures t.slot[u] != t.slot[s] {
      assert Hangs(t, u);
    }
  }

  /** The node above gets a branch where it had a state ... */
  lemma LinkedAbove(t: Shape, s: ExecutionState, s': ExecutionState, p: Path, b: bool, child: BranchNode)
    requires p in t.at && p in t.links && Linked(t.at, t.slot, p, t.links[p]) && s in t.slot && t.slot[s] == p + [b]
    requires s' !in t.slot
    ensures var t' := Added(t, s, s', p, b, child); Linked(t'.at, t'.slot, p, t'.links[p])
  {
    var t' := Added(t, s, s', p, b, child);
    assert forall b' :: (p + [b'])[|p|] == b' && |p + [b']| == |p| + 1;
    assert p != p + [b];
    if p != [] {
      assert Up(p) != p + [b];
    }
  }

  /** ... the new node has the two states ... */
  lemma LinkedNew(t: Shape, s: ExecutionState, s': ExecutionState, p: Path, b: bool, child: BranchNode)
    requires Placed(t.at.Keys, t.slot) && p in t.at && p in t.links && Linked(t.at, t.slot, p, t.links[p])
    requires p + [b] !in t.at && s != s'
    ensures var t' := Added(t, s, s', p, b, child); Linked(t'.at, t'.slot, p + [b], t'.links[p + [b]])
  {
    var q := p + [b];
    assert Up(q) == p && p != q;
    NoNodeBelow(t.at.Keys, t.slot, q, false);
    NoNodeBelow(t.at.Keys, t.slot, q, true);
    assert q + [false] != q && q + [true] != q;
  }

  /** ... and all others stay. */
  lemma LinkedBeside(t: Shape, s: ExecutionState, s': ExecutionState, p: Path, b: bool, child: BranchNode, r: Path)
    requires Placed(t.at.Keys, t.slot) && p in t.at && p in t.links && Linked(t.at, t.slot, p, t.links[p])
    requires s in t.slot && t.slot[s] == p + [b] && p + [b] !in t.at && s' !in t.slot
    requires r in t.at && r in t.links && r != p && Linked(t.at, t.slot, r, t.links[r])
    ensures var t' := Added(t, s, s', p, b, child); Linked(t'.at, t'.slot, r, t'.links[r])
  {
    var q := p + [b];
    assert Up(q) == p;
    assert forall b' :: Up(r + [b']) == r;
    if r != [] {
      assert Up(r) in t.at;
    }
  }

  lemma WiredAdded(t: Shape, s: ExecutionState, s': ExecutionState, p: Path, b: bool, child: BranchNode)
    requires Wired(t) && Placed(t.at.Keys, t.slot) && p in t.at && s in t.slot && t.slot[s] == p + [b]
    requires s' !in t.slot && s != s' && child.path == p + [b]
    ensures Linked(t.at, t.slot, p, t.links[p]) && Wired(Added(t, s, s', p, b, child))
  {
    hide Linked, Placed;
    assert Linked(t.at, t.slot, p, t.links[p]);
    TwoChildren(t.at, t.slot, p, t.links[p]);
    PlaceOf(t.at.Keys, t.slot, s);
    var t' := Added(t, s, s', p, b, child);
    forall r | r in t'.at ensures t'.at[r].path == r && Linked(t'.at, t'.slot, r, t'.links[r]) {
      if r == p {
        LinkedAbove(t, s, s', p, b, child);
      } else if r == p + [b] {
        LinkedNew(t, s, s', p, b, child);
      } else {
        assert Linked(t.at, t.slot, r, t.links[r]);
        LinkedBeside(t, s, s', p, b, child, r);
      }
    }
    UniquePlace(t, s);
    forall u | u in t'.slot ensures Hangs(t', u) {
      HangsAdded(t, s, s', p, b, child, u);
    }
  }

  lemma HangsAdded(t: Shape, s: ExecutionState, s': ExecutionState, p: Path, b: bool, child: BranchNode, u: ExecutionState)
    requires p in t.at && p in t.links && Linked(t.at, t.slot, p, t.links[p])
    requires s in t.slot && t.slot[s] == p + [b] && p + [b] !in t.links && s' !in t.slot && s != s'
    requires u in t.slot && u != s ==> Hangs(t, u) && t.slot[u] != t.slot[s]
    requires u in Added(t, s, s', p, b, child).slot
    ensures Hangs(Added(t, s, s', p, b, child), u)
  {
    hide Linked;
    var q := p + [b];
    if u == s {
      assert Up(q + [false]) == q;
    } else if u == s' {
      assert Up(q + [true]) == q;
    } else if Up(t.slot[u]) == p {
      assert t.slot[u] == p + [Last(t.slot[u])];
    }
  }

  /** The tree after the very first branch. */
  function First(s: ExecutionState, s': ExecutionState, child: BranchNode): Shape {
    Shape(map[[] := child], map[s := [false], s' := [true]], map[[] := Links([s, s'], [null, null], null)])
  }

  lemma LinkedFirst(s: ExecutionState, s': ExecutionState, child: BranchNode)
    requires s != s'
    ensures var t := First(s, s', child); Linked(t.at, t.slot, [], t.links[[]])
  {
    var t := First(s, s', child);
    var q: Path := [];
    assert q + [false] == [false] && q + [true] == [true];
    assert [false] !in t.at && [true] !in t.at;
  }

  lemma PlacedFirst(s: ExecutionState, s': ExecutionState, child: BranchNode)
    requires s != s'
    ensures var t := First(s, s', child); Placed(t.at.Keys, t.slot)
  {
    assert Up([false]) == [] && Up([true]) == [];
  }

  lemma WiredFirst(s: ExecutionState, s': ExecutionState, child: BranchNode)
    requires s != s' && child.path == []
    ensures Wired(First(s, s', child))
  {
    hide Linked;
    var t := First(s, s', child);
    LinkedFirst(s, s', child);
    forall u | u in t.slot ensures Hangs(t, u) {
      assert u == s || u == s';
      assert Up([false]) == [] && Up([true]) == [];
    }
  }

  lemma TwoChildren(at: map<Path, BranchNode>, slot: map<ExecutionState, Path>, q: Path, links: Links)
    requires Linked(at, slot, q, links)
    ensures |links.states| == 2 && |links.branches| == 2
  {
  }

  lemma PlaceOf<S>(nodes: set<Path>, slot: map<S, Path>, s: S)
    requires Placed(nodes, slot) && s in slot
    ensures slot[s] != [] && Up(slot[s]) in nodes && slot[s] !in nodes
  {
  }

  lemma PlacedRemoved<S>(nodes: set<Path>, slot: map<S, Path>, s: S)
    requires Placed(nodes, slot)
    ensures Placed(nodes, slot - {s})
  {
  }

  /** A node that has a state as child `b` is where that state hangs. */
  lemma SamePlace(at: map<Path, BranchNode>, slot: map<ExecutionState, Path>, q: Path, links: Links, s: ExecutionState, b: bool)
    requires Linked(at, slot, q, links) && links.states[Child(b)] == s
    ensures s in slot && slot[s] == q + [b] && |links.branches| == 2
  {
  }

  /** Removing a state empties its place at the node above it ... */
  lemma LinkedRemoved(at: map<Path, BranchNode>, slot: map<ExecutionState, Path>, q: Path, links: Links, s: ExecutionState, b: bool)
    requires Linked(at, slot, q, links) && s in slot && slot[s] == q + [b]
    ensures Linked(at, slot - {s}, q, links.(states := links.states[Child(b) := null]))
  {
    var links' := links.(states := links.states[Child(b) := null]);
    forall b' | links'.states[Child(b')] != null
      ensures links'.states[Child(b')] in slot - {s} && (slot - {s})[links'.states[Child(b')]] == q + [b']
    {
      assert b' != b;
      assert (q + [b])[|q|] != (q + [b'])[|q|];
    }
  }

  /** ... and concerns no other node. */
  lemma LinkedElsewhere(at: map<Path, BranchNode>, slot: map<ExecutionState, Path>, q: Path, links: Links, s: ExecutionState)
    requires Linked(at, slot, q, links) && s in slot && slot[s] != [] && Up(slot[s]) != q
    ensures Linked(at, slot - {s}, q, links)
  {
    forall b | links.states[Child(b)] != null ensures links.states[Child(b)] != s {
      assert Up(q + [b]) == q;
    }
  }

  method Relink(parent: BranchNode, i: nat, child: BranchNode, curState: ExecutionState, otherState: ExecutionState)
    requires |parent.childStates| == 2 && |parent.childBranches| == 2 && i < 2
    modifies parent`childStates, parent`childBranches, curState`parentBranch, otherState`parentBranch
    ensures parent.childBranches == old(parent.childBranches)[i := child]
    ensures parent.childStates == old(parent.childStates)[i := null]
    ensures curState.parentBranch == child && otherState.parentBranch == child
  {
    parent.childBranches := parent.childBranches[i := child];
    parent.childStates := parent.childStates[i := null];
    curState.parentBranch, otherState.parentBranch := child, child;
  }

  class BranchTree {
    var root: BranchNode?
    ghost var t: Shape

    /** The pointers on the heap are those of the value. */
    ghost predicate Mirrored()
      reads this, t.at.Values, t.slot.Keys`parentBranch
    {
      t.links.Keys == t.at.Keys
      && (forall q {:trigger t.links[q]} :: q in t.at ==>
            (t.links[q].states == t.at[q].childStates && t.links[q].branches == t.at[q].childBranches
             && t.links[q].parent == t.at[q].parentBranch))
      && (forall s {:trigger t.slot[s]} :: s in t.slot ==>
            (t.slot[s] != [] && Up(t.slot[s]) in t.at && s.parentBranch == t.at[Up(t.slot[s])]))
    }

    ghost predicate NodeOk(q: Path)
      requires q in t.at
      reads this, t.at[q]
    {
      var n := t.at[q];
      n.path == q && q in t.links && Linked(t.at, t.slot, q, t.links[q])
      && t.links[q].states == n.childStates && t.links[q].branches == n.childBranches && t.links[q].parent == n.parentBranch
    }

    ghost predicate StateOk(s: ExecutionState)
      requires s in t.slot && t.slot[s] != [] && Up(t.slot[s]) in t.at
      reads this, s`parentBranch, t.at[Up(t.slot[s])]
    {
      s.parentBranch == t.at[Up(t.slot[s])] && Holds(t.at[Up(t.slot[s])].childStates, Last(t.slot[s]), s)
    }

    ghost predicate Valid()
      reads this, t.at.Values, t.slot.Keys`parentBranch
    {
      (root == null ==> t.at == map[])
      && (root != null ==> [] in t.at && t.at[[]] == root)
      && Placed(t.at.Keys, t.slot)
      && Mirrored() && Wired(t)
    }

    constructor ()
      ensures Valid() && root == null && t.slot == map[]
    {
      root := null;
      t := Shape(map[], map[], map[]);
    }

    /** A branch takes the place of the state that met it; the two sides hang off it. */
    method AddBranch(curState: ExecutionState, dynInstrIdx: nat, otherState: ExecutionState)
      requires Valid() && curState != otherState && otherState !in t.slot
      requires root != null ==> curState in t.slot
      modifies this, curState`parentBranch, otherState`parentBranch, t.at.Values
      ensures Valid() && root != null
      ensures var q := if old(root) == null then [] else old(t.slot[curState]);
              q in t.at && fresh(t.at[q]) && t.at[q].dynInstrIdx == dynInstrIdx
              && t.at == old(t.at)[q := t.at[q]]
              && t.slot == old(t.slot)[curState := q + [false]][otherState := q + [true]]
    {
      hide Linked, Placed, Wired, Mirrored;
      if root == null {
        NothingAttached();
        AddFirst(curState, dynInstrIdx, otherState);
        ghost var q: Path := [];
        assert q + [false] == [false] && q + [true] == [true];
      } else {
        StateAt(curState);
        ghost var q, p := t.slot[curState], Up(t.slot[curState]);
        NodeAt(p);
        Distinct(t);
        var parent := curState.parentBranch;
        var child := new BranchNode(dynInstrIdx, curState, otherState, parent, q);
        var i := if parent.childStates[0] == curState then 0 else 1;
        assert i == 1 ==> parent.childStates[1] == curState;
        SamePlace(t.at, t.slot, p, t.links[p], curState, i == 1);
        WiredAdded(t, curState, otherState, p, i == 1, child);
        UniquePlace(t, curState);
        PlacedAdded(t.at.Keys, t.slot, curState, otherState);
        ghost var keys := t.at.Keys;
        Attach(parent, i, child, curState, otherState, p);
        assert t.at.Keys == keys + {q};
      }
    }

    method AddFirst(curState: ExecutionState, dynInstrIdx: nat, otherState: ExecutionState)
      requires curState != otherState
      modifies this, curState`parentBranch, otherState`parentBranch
      ensures Valid() && root != null && fresh(root) && root.dynInstrIdx == dynInstrIdx
      ensures t == First(curState, otherState, root)
    {
      hide Wired, Placed;
      root := new BranchNode(dynInstrIdx, curState, otherState, null, []);
      curState.parentBranch, otherState.parentBranch := root, root;
      t := First(curState, otherState, root);
      PlacedFirst(curState, otherState, root);
      WiredFirst(curState, otherState, root);
    }

    method Attach(parent: BranchNode, i: nat, child: BranchNode, curState: ExecutionState, otherState: ExecutionState, ghost p: Path)
      requires Mirrored() && (forall r :: r in t.at ==> t.at[r].path == r)
      requires p in t.at && t.at[p] == parent && |parent.childStates| == 2 && |parent.childBranches| == 2 && i < 2
      requires curState in t.slot && t.slot[curState] == p + [i == 1] && otherState !in t.slot
      requires p + [i == 1] !in t.at && child.path == p + [i == 1]
      requires child.childStates == [curState, otherState] && child.childBranches == [null, null]
      requires child.parentBranch == parent
      modifies this`t, parent, curState`parentBranch, otherState`parentBranch
      ensures Mirrored()
      ensures t == old(Added(t, curState, otherState, p, i == 1, child))
    {
      Relink(parent, i, child, curState, otherState);
      t := Added(t, curState, otherState, p, i == 1, child);
    }

    /** A state leaves; nothing else moves. */
    method RemoveState(curState: ExecutionState)
      requires Valid() && (root != null ==> curState in t.slot)
      modifies this`t, curState`parentBranch, t.at.Values
      ensures Valid() && t.at == old(t.at)
      ensures t.slot == old(t.slot) - {curState}
      ensures root != null ==> curState.parentBranch == null
    {
      hide Linked, Placed, Wired, Mirrored;
      if root == null {
        NothingAttached();
        return;
      }
      StateAt(curState);
      ghost var q := Up(t.slot[curState]);
      NodeAt(q);
      Distinct(t);
      var leaf := curState.parentBranch;
      var i := if leaf.childStates[0] == curState then 0 else 1;
      SamePlace(t.at, t.slot, q, t.links[q], curState, i == 1);
      WiredRemoved(t, curState, q, i == 1);
      PlacedRemoved(t.at.Keys, t.slot, curState);
      Detach(leaf, i, curState, q);
    }

    method Detach(leaf: BranchNode, i: nat, curState: ExecutionState, ghost q: Path)
      requires Mirrored() && (forall r :: r in t.at ==> t.at[r].path == r)
      requires q in t.at && t.at[q] == leaf && |leaf.childStates| == 2 && i < 2
      modifies this`t, leaf`childStates, curState`parentBranch
      ensures Mirrored() && curState.parentBranch == null
      ensures t == old(Removed(t, curState, q, i == 1))
    {
      leaf.childStates := leaf.childStates[i := null];
      curState.parentBranch := null;
      t := Removed(t, curState, q, i == 1);
    }

    method FindChildStates(n: BranchNode) returns (found: set<ExecutionState>)
      requires Valid() && n.path in t.at && t.at[n.path] == n
      ensures found == Beneath(t.slot, n.path)
      decreases Subtree(t.at.Keys, n.path)
    {
      hide Linked, Placed, Wired;
      BeneathNode(t.at.Keys, t.slot, n.path);
      var left := FindBelow(n, false);
      var right := FindBelow(n, true);
      found := left + right;
    }

    /** The states on one side of a node. */
    method FindBelow(n: BranchNode, b: bool) returns (found: set<ExecutionState>)
      requires Valid() && n.path in t.at && t.at[n.path] == n
      ensures found == Beneath(t.slot, n.path + [b])
      decreases Subtree(t.at.Keys, n.path), 0
    {
      hide Valid, Beneath, Subtree;
      SideOf(n, b);
      found := {};
      var state, branch := n.childStates[Child(b)], n.childBranches[Child(b)];
      if state != null {
        found := found + {state};
      }
      if branch != null {
        Shrinks(t.at.Keys, n.path, b);
        var below := FindChildStates(branch);
        found := found + below;
      }
    }

    /** The place from which the walk up from a state reached node `k` of its path:
        the state itself, or the node before. */
    ghost predicate CameFrom(curState: ExecutionState, prev: BranchNode?, k: nat)
      requires curState in t.slot && k < |t.slot[curState]|
      reads this
    {
      if prev == null then k + 1 == |t.slot[curState]|
      else k + 1 < |t.slot[curState]| && t.slot[curState][..k + 1] in t.at && prev == t.at[t.slot[curState][..k + 1]]
    }

    lemma NodeAt(q: Path)
      requires Valid() && q in t.at
      ensures NodeOk(q)
    {
      hide Linked, Placed;
      assert q in t.links && Linked(t.at, t.slot, q, t.links[q]);
    }

    lemma NothingAttached()
      requires Valid() && root == null
      ensures t.slot == map[]
    {
    }

    lemma WellPlaced()
      requires Valid()
      ensures Placed(t.at.Keys, t.slot)
    {
    }

    lemma StateAt(s: ExecutionState)
      requires Valid() && s in t.slot
      ensures t.slot[s] != [] && Up(t.slot[s]) in t.at && t.slot[s] !in t.at && StateOk(s)
    {
      hide Linked, Placed;
      PlaceOf(t.at.Keys, t.slot, s);
      assert Hangs(t, s);
    }

    /** Comparing with the state tells the side at the walk's first node ... */
    lemma FromState(n: BranchNode, prev: BranchNode?, curState: ExecutionState, k: nat, b: bool)
      requires Valid() && curState in t.slot && k < |t.slot[curState]|
      requires t.slot[curState][..k] in t.at && n == t.at[t.slot[curState][..k]] && CameFrom(curState, prev, k)
      ensures |n.childStates| == 2 && n.path == t.slot[curState][..k]
      ensures n.childStates[Child(b)] == curState <==> prev == null && t.slot[curState][k] == b
    {
      hide Valid, Placed;
      var q := t.slot[curState];
      NodeAt(q[..k]);
      StateAt(curState);
      if k + 1 == |q| {
        assert Up(q) == q[..k];
      }
      assert (q[..k] + [b])[k] == b && |q[..k] + [b]| == k + 1;
    }

    /** ... and comparing with the node before tells it at every other. */
    lemma FromBranch(n: BranchNode, prev: BranchNode, curState: ExecutionState, k: nat, b: bool)
      requires Valid() && curState in t.slot && k < |t.slot[curState]|
      requires t.slot[curState][..k] in t.at && n == t.at[t.slot[curState][..k]] && CameFrom(curState, prev, k)
      ensures |n.childBranches| == 2 && (n.childBranches[Child(b)] == prev <==> t.slot[curState][k] == b)
    {
      hide Valid, Placed;
      var q := t.slot[curState];
      NodeAt(q[..k]);
      NodeAt(q[..k + 1]);
      assert q[..k + 1] == q[..k] + [q[k]];
      assert (q[..k] + [b])[k] == b;
      if q[..k] + [b] in t.at {
        NodeAt(q[..k] + [b]);
      }
    }

    /** The states on the side of node `n` that the walk did not come from. */
    method OtherSide(n: BranchNode, prev: BranchNode?, curState: ExecutionState, ghost k: nat)
      returns (found: set<ExecutionState>)
      requires Valid() && curState in t.slot && k < |t.slot[curState]|
      requires t.slot[curState][..k] in t.at && n == t.at[t.slot[curState][..k]] && CameFrom(curState, prev, k)
      ensures found == Beneath(t.slot, t.slot[curState][..k] + [!t.slot[curState][k]])
    {
      hide Valid, Beneath, CameFrom;
      found := {};
      FromState(n, prev, curState, k, false);
      FromState(n, prev, curState, k, true);
      if n.childStates[0] == curState {
        var side := FindBelow(n, true);
        found := found + side;
      }
      if n.childStates[1] == curState {
        var side := FindBelow(n, false);
        found := found + side;
      }
      if prev != null {
        FromBranch(n, prev, curState, k, false);
        FromBranch(n, prev, curState, k, true);
        if n.childBranches[0] == prev {
          var side := FindBelow(n, true);
          found := found + side;
        }
        if n.childBranches[1] == prev {
          var side := FindBelow(n, false);
          found := found + side;
        }
      }
    }

    lemma WayDown(s: ExecutionState)
      requires Valid() && s in t.slot
      ensures Placed(t.at.Keys, t.slot)
      ensures forall d :: 0 <= d < |t.slot[s]| ==> t.slot[s][..d] in t.at
    {
      forall d | 0 <= d < |t.slot[s]| ensures t.slot[s][..d] in t.at {
        assert t.slot[s][..d] <= Up(t.slot[s]);
        PrefixPlaced(t.at.Keys, t.slot, t.slot[s][..d], Up(t.slot[s]));
      }
    }

    /** Adds the states to prune when `curState` need not take the other side of the
        branch `dynInstrIdx`. It never adds `curState` itself. */
    method FindPrunedStates(curState: ExecutionState, dynInstrIdx: nat, prunedStates: set<ExecutionState>)
      returns (all: set<ExecutionState>, pruned: bool)
      requires Valid() && (root != null ==> curState in t.slot)
      ensures Valid()
      ensures root == null ==> !pruned && all == prunedStates
      ensures root != null ==>
        (all == prunedStates + Pruned(t.slot, curState, Trail(t.at, t.slot[curState]), dynInstrIdx)
         && (pruned <==> Pruned(t.slot, curState, Trail(t.at, t.slot[curState]), dynInstrIdx) != {}))
      ensures curState in all ==> curState in prunedStates
    {
      hide Valid, Beneath, Nearest, Top, Placed, Walked, Matched, Pruned;
      if root == null {
        return prunedStates, false;
      }
      StateAt(curState);
      WayDown(curState);
      ghost var q, trail := t.slot[curState], Trail(t.at, t.slot[curState]);
      assert Up(q) == q[..|q| - 1];
      var others: set<ExecutionState> := {};
      WalkedNone(t.slot, q, trail, dynInstrIdx, others);
      var prev: BranchNode?, cur: BranchNode? := null, curState.parentBranch;
      ghost var k := |q| - 1;
      while cur != null
        invariant -1 <= k < |q| && (cur == null <==> k == -1)
        invariant cur != null ==> cur == t.at[q[..k]] && CameFrom(curState, prev, k)
        invariant Walked(t.slot, q, trail, dynInstrIdx, k + 1, others)
        decreases k
      {
        StepUp(curState, cur, k);
        if cur.dynInstrIdx == dynInstrIdx {
          var side := OtherSide(cur, prev, curState, k);
          WalkedMatch(t.at.Keys, t.slot, q, trail, dynInstrIdx, k, others, side);
          others := others + side;
          if cur.parentBranch == null || cur.dynInstrIdx != cur.parentBranch.dynInstrIdx {
            WalkedTop(t.slot, curState, trail, dynInstrIdx, k, others);
            assert curState !in others;
            return prunedStates + others, others != {};
          }
          WalkedUp(t.slot, q, trail, dynInstrIdx, k, others);
        } else {
          WalkedPast(t.slot, q, trail, dynInstrIdx, k, others);
        }
        prev, cur := cur, cur.parentBranch;
        k := k - 1;
      }
      WalkedOut(t.slot, curState, trail, dynInstrIdx, others);
      return prunedStates, false;
    }

    lemma StepUp(curState: ExecutionState, n: BranchNode, k: nat)
      requires Valid() && curState in t.slot && k < |t.slot[curState]|
      requires t.slot[curState][..k] in t.at && n == t.at[t.slot[curState][..k]]
      ensures k == 0 <==> n.parentBranch == null
      ensures k > 0 ==> (t.slot[curState][..k - 1] in t.at && n.parentBranch == t.at[t.slot[curState][..k - 1]]
                         && CameFrom(curState, n, k - 1))
    {
      hide Valid, Placed;
      var q := t.slot[curState];
      NodeAt(q[..k]);
      WayDown(curState);
      if k > 0 {
        assert Up(q[..k]) == q[..k - 1];
      }
    }

    /** A side of a node has a subtree, or at most one state. */
    lemma SideOf(n: BranchNode, b: bool)
      requires Valid() && n.path in t.at && t.at[n.path] == n
      ensures |n.childStates| == 2 && |n.childBranches| == 2
      ensures n.childBranches[Child(b)] != null ==>
        (n.path + [b] in t.at && t.at[n.path + [b]] == n.childBranches[Child(b)]
         && t.at[n.path + [b]].path == n.path + [b] && n.childStates[Child(b)] == null)
      ensures n.childBranches[Child(b)] == null ==>
        Beneath(t.slot, n.path + [b])
        == if n.childStates[Child(b)] == null then {} else {n.childStates[Child(b)]}
    {
      hide Valid, Placed, Wired;
      var q := n.path;
      NodeAt(q);
      WellPlaced();
      if n.childBranches[Child(b)] != null {
        NodeAt(q + [b]);
      } else {
        forall s | s in t.slot && q + [b] <= t.slot[s] ensures s == n.childStates[Child(b)] {
          BeneathSlot(t.at.Keys, t.slot, q + [b], s);
          assert Up(q + [b]) == q;
          StateAt(s);
        }
      }
    }
  }

  /** The indices of the branches on the way down a path. */
  ghost function Trail(at: map<Path, BranchNode>, q: Path): (trail: seq<nat>)
    ensures |trail| == |q|
    ensures forall d :: 0 <= d < |q| && q[..d] in at ==> trail[d] == at[q[..d]].dynInstrIdx
  {
    seq(|q|, d requires 0 <= d < |q| => if q[..d] in at then at[q[..d]].dynInstrIdx else 0)
  }

  /** The last branch of a trail with the given index, or -1. */
  ghost function Nearest(trail: seq<nat>, idx: nat): (d: int)
    ensures -1 <= d < |trail|
    ensures d >= 0 ==> trail[d] == idx
    ensures forall i :: d < i < |trail| ==> trail[i] != idx
  {
    if trail == [] then -1
    else if trail[|trail| - 1] == idx then |trail| - 1
    else Nearest(trail[..|trail| - 1], idx)
  }

  /** The top of the run of equal indices that ends at `d`. */
  ghost function Top(trail: seq<nat>, d: nat): (t: nat)
    requires d < |trail|
    ensures t <= d && forall i :: t <= i <= d ==> trail[i] == trail[d]
    ensures t > 0 ==> trail[t - 1] != trail[d]
  {
    if d > 0 && trail[d - 1] == trail[d] then Top(trail, d - 1) else d
  }

  /** Everything beneath the top of the nearest run, except what is beneath its lowest
      branch on the side of the state itself. */
  ghost function Pruned<S>(slot: map<S, Path>, s: S, trail: seq<nat>, idx: nat): (pruned: set<S>)
    requires s in slot && |trail| == |slot[s]|
    ensures s !in pruned && pruned <= slot.Keys
  {
    var low := Nearest(trail, idx);
    if low < 0 then {}
    else Beneath(slot, slot[s][..Top(trail, low)]) - Beneath(slot, slot[s][..low + 1])
  }

  /** What the walk has collected once it is past the node at depth `k`: nothing until
      the nearest run is reached, then all of that run so far. */
  ghost predicate Walked<S>(slot: map<S, Path>, q: Path, trail: seq<nat>, idx: nat, k: nat, others: set<S>)
    requires |trail| == |q| && k <= |q|
  {
    var low := Nearest(trail, idx);
    if low < k then others == {}
    else Top(trail, low) < k && others == Beneath(slot, q[..k]) - Beneath(slot, q[..low + 1])
  }

  /** The same once the node at depth `k` is known to be in the run. */
  ghost predicate Matched<S>(slot: map<S, Path>, q: Path, trail: seq<nat>, idx: nat, k: nat, others: set<S>)
    requires |trail| == |q| && k < |q|
  {
    var low := Nearest(trail, idx);
    k <= low && Top(trail, low) <= k && others == Beneath(slot, q[..k]) - Beneath(slot, q[..low + 1])
  }

  lemma WalkedNone<S>(slot: map<S, Path>, q: Path, trail: seq<nat>, idx: nat, others: set<S>)
    requires |trail| == |q| && others == {}
    ensures Walked(slot, q, trail, idx, |q|, others)
  {
  }

  lemma WalkedMatch<S>(nodes: set<Path>, slot: map<S, Path>, q: Path, trail: seq<nat>, idx: nat, k: nat,
                       others: set<S>, side: set<S>)
    requires Placed(nodes, slot) && |trail| == |q| && k < |q| && q[..k] in nodes && trail[k] == idx
    requires Walked(slot, q, trail, idx, k + 1, others) && side == Beneath(slot, q[..k] + [!q[k]])
    ensures Matched(slot, q, trail, idx, k, others + side)
  {
    hide Placed, Nearest, Top;
    var low := Nearest(trail, idx);
    BeneathNode(nodes, slot, q[..k]);
    assert q[..k + 1] == q[..k] + [q[k]];
    if low > k {
      BeneathLower(slot, q, k + 1, low + 1);
    }
  }

  lemma BeneathLower<S>(slot: map<S, Path>, q: Path, k: nat, l: nat)
    requires k <= l <= |q|
    ensures Beneath(slot, q[..l]) <= Beneath(slot, q[..k])
  {
    assert q[..k] == q[..l][..k];
  }

  lemma WalkedTop<S>(slot: map<S, Path>, s: S, trail: seq<nat>, idx: nat, k: nat, others: set<S>)
    requires s in slot && |trail| == |slot[s]| && k < |trail| && Matched(slot, slot[s], trail, idx, k, others)
    requires k > 0 ==> trail[k - 1] != idx
    ensures others == Pruned(slot, s, trail, idx)
  {
    hide Beneath, Nearest, Top;
  }

  lemma WalkedUp<S>(slot: map<S, Path>, q: Path, trail: seq<nat>, idx: nat, k: nat, others: set<S>)
    requires |trail| == |q| && 0 < k < |q| && trail[k - 1] == idx && Matched(slot, q, trail, idx, k, others)
    ensures Walked(slot, q, trail, idx, k, others)
  {
    hide Beneath, Nearest, Top;
  }

  lemma WalkedPast<S>(slot: map<S, Path>, q: Path, trail: seq<nat>, idx: nat, k: nat, others: set<S>)
    requires |trail| == |q| && k < |q| && trail[k] != idx && Walked(slot, q, trail, idx, k + 1, others)
    ensures Walked(slot, q, trail, idx, k, others)
  {
    hide Beneath, Nearest, Top;
  }

  lemma WalkedOut<S>(slot: map<S, Path>, s: S, trail: seq<nat>, idx: nat, others: set<S>)
    requires s in slot && |trail| == |slot[s]| && Walked(slot, slot[s], trail, idx, 0, others)
    ensures Pruned(slot, s, trail, idx) == {}
  {
    hide Beneath, Nearest, Top;
  }

  /** The nodes at and below a path. */
  ghost function Subtree(nodes: set<Path>, q: Path): set<Path> {
    set r | r in nodes && q <= r
  }

  lemma Shrinks(nodes: set<Path>, q: Path, b: bool)
    requires q in nodes
    ensures Subtree(nodes, q + [b]) < Subtree(nodes, q)
  {
    forall r | r in nodes && q + [b] <= r ensures q <= r {
      assert (q + [b])[..|q|] == q;
    }
    assert q in Subtree(nodes, q) && q !in Subtree(nodes, q + [b]);
  }
}
