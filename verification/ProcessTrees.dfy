/**
 The process tree: its leaves are the live states. Removing a leaf removes all
 ancestors that are left without children.
 */
module ProcessTrees {
  import opened Bits
  import opened States

  /** Gives a node two children that take over its state and another one; the left
      child is for the false state. */
  method SplitNode(n: PTreeNode, current: ExecutionState, other: ExecutionState, swapped: bool)
    requires n.left == null && n.right == null && current != other
    modifies n, current`ptreeNode, other`ptreeNode
    ensures n.data == null && IsLeaf(n, current) && IsLeaf(n, other)
    ensures fresh(current.ptreeNode) && fresh(other.ptreeNode) && current.ptreeNode != other.ptreeNode
    ensures n.left == (if swapped then current.ptreeNode else other.ptreeNode)
    ensures n.right == (if swapped then other.ptreeNode else current.ptreeNode)
  {
    var falseState, trueState := if swapped then current else other, if swapped then other else current;
    n.data := null;
    n.left := new PTreeNode(n, falseState);
    n.right := new PTreeNode(n, trueState);
    falseState.ptreeNode := n.left;
    trueState.ptreeNode := n.right;
  }

  /** The child to go to; `left` matters at a proper fork only. */
  ghost function Next(n: PTreeNode, left: bool): PTreeNode?
    reads n
  {
    if n.left == null || (n.right != null && !left) then n.right else n.left
  }

  /** Coin number `k`: the bits of each word from the highest down. */
  function Toss(words: nat -> nat, k: nat): bool {
    ShiftRight(words(k / 32), 31 - k % 32) % 2 == 1
  }

  /** The number of proper forks. */
  ghost function Forks(way: seq<PTreeNode>): nat
    reads way
  {
    if way == [] then 0
    else
      var n := way[|way| - 1];
      Forks(way[..|way| - 1]) + if n.left != null && n.right != null then 1 else 0
  }

  /** `k` coins have been tossed, and `bits` are left in the last word drawn. */
  predicate Drawn(words: nat -> nat, k: nat, flips: nat, bits: nat, draws: nat) {
    bits < 32 && k + bits == 32 * draws && (bits > 0 ==> flips == words(draws - 1))
  }

  method NextBit(words: nat -> nat, ghost k: nat, flips: nat, bits: nat, draws: nat)
    returns (toss: bool, flips': nat, bits': nat, draws': nat)
    requires Drawn(words, k, flips, bits, draws)
    ensures toss == Toss(words, k) && Drawn(words, k + 1, flips', bits', draws')
  {
    flips', bits', draws' := flips, bits, draws;
    if bits == 0 {
      flips', bits', draws' := words(draws), 32, draws + 1;
    }
    bits' := bits' - 1;
    toss := ShiftRight(flips', bits') % 2 == 1;
  }

  ghost predicate IsLeaf(parent: PTreeNode, s: ExecutionState)
    reads s`ptreeNode, s.ptreeNode
  {
    s.ptreeNode != null && s.ptreeNode.parent == parent && s.ptreeNode.depth == parent.depth + 1
    && s.ptreeNode.left == null && s.ptreeNode.right == null && s.ptreeNode.data == s
  }

  class PTree {
    /** Dangles once the whole tree is gone. */
    var root: PTreeNode

    ghost var nodes: set<PTreeNode>
    ghost var leaves: set<ExecutionState>
    ghost var height: nat

    ghost predicate ChildOk(n: PTreeNode, c: PTreeNode?)
      reads this`nodes
    {
      c != null ==> c in nodes && c.parent == n
    }

    ghost predicate LinkOk(n: PTreeNode)
      reads this`root, this`nodes, this`height, nodes`left, nodes`right
    {
      n in nodes && n.depth <= height
      && (n == root <==> n.parent == null)
      && (n.parent != null ==>
            (n.parent in nodes && n.depth == n.parent.depth + 1 && (n.parent.left == n || n.parent.right == n)))
      && ChildOk(n, n.left) && ChildOk(n, n.right) && (n.left != null ==> n.left != n.right)
    }

    /** The nodes with data are the childless ones. */
    ghost predicate DataOk(n: PTreeNode)
      reads this`leaves, n, leaves`ptreeNode
    {
      (n.data != null <==> n.left == null && n.right == null)
      && (n.data != null ==> n.data in leaves && n.data.ptreeNode == n)
    }

    ghost predicate LeafOk(s: ExecutionState)
      reads this`nodes, nodes`data, s`ptreeNode
    {
      s.ptreeNode != null && s.ptreeNode in nodes && s.ptreeNode.data == s
    }

    /** All is well but that the childless node `x` has lost its data. */
    ghost predicate ValidBut(x: PTreeNode?)
      reads this, nodes, leaves`ptreeNode
    {
      (nodes != {} ==> root in nodes)
      && (forall n {:trigger LinkOk(n)} :: n in nodes ==> LinkOk(n))
      && (forall n {:trigger DataOk(n)} :: n in nodes && n != x ==> DataOk(n))
      && (forall s {:trigger LeafOk(s)} :: s in leaves ==> LeafOk(s) && s.ptreeNode != x)
      && (x != null ==> x in nodes && x.left == null && x.right == null)
    }

    ghost predicate Valid()
      reads this, nodes, leaves`ptreeNode
    {
      ValidBut(null)
    }

    constructor (initial: ExecutionState)
      modifies initial`ptreeNode
      ensures Valid() && leaves == {initial} && fresh(nodes)
    {
      root := new PTreeNode(null, initial);
      new;
      initial.ptreeNode := root;
      nodes, leaves, height := {root}, {initial}, 0;
    }

    /** A way down from the root that goes left at its proper forks where the coin says so. */
    ghost predicate Follows(way: seq<PTreeNode>, words: nat -> nat)
      reads this`root, way
    {
      |way| > 0 && way[0] == root
      && forall i :: 0 <= i < |way| - 1 ==> way[i + 1] == Next(way[i], Toss(words, Forks(way[..i])))
    }

    /** Walks down from the root, tossing a coin at every proper fork; `words` are the
        random numbers drawn, of which every bit is used once. */
    method SelectState(words: nat -> nat) returns (s: ExecutionState, ghost way: seq<PTreeNode>)
      requires Valid() && leaves != {}
      ensures s in leaves && Follows(way, words) && way[|way| - 1] == s.ptreeNode
    {
      var n := root;
      var flips, bits, draws := 0, 0, 0;
      way := [n];
      assert exists s :: s in leaves && LeafOk(s);
      while n.data == null
        invariant n in nodes && Follows(way, words) && way[|way| - 1] == n
        invariant Drawn(words, Forks(way[..|way| - 1]), flips, bits, draws)
        decreases height - n.depth
      {
        hide Drawn, Toss;
        assert LinkOk(n) && DataOk(n);
        ghost var k := Forks(way[..|way| - 1]);
        assert (way + [n])[..|way|] == way && way == way[..|way| - 1] + [n];
        if n.left == null {
          n := n.right;
        } else if n.right == null {
          n := n.left;
        } else {
          var toss;
          toss, flips, bits, draws := NextBit(words, k, flips, bits, draws);
          n := if toss then n.left else n.right;
        }
        assert LinkOk(n);
        Extends(way, n, words);
        way := way + [n];
      }
      assert DataOk(n);
      s := n.data;
    }

    lemma Extends(way: seq<PTreeNode>, n: PTreeNode, words: nat -> nat)
      requires Follows(way, words) && n == Next(way[|way| - 1], Toss(words, Forks(way[..|way| - 1])))
      ensures Follows(way + [n], words)
    {
      hide Toss;
      forall i | 0 <= i < |way| ensures (way + [n])[i + 1] == Next((way + [n])[i], Toss(words, Forks((way + [n])[..i]))) {
        assert (way + [n])[..i] == way[..i];
      }
    }

    /** A state's leaf becomes an inner node with two leaves, for it and for another
        state; `swapped` says which of them is the false state. */
    method Split(current: ExecutionState, other: ExecutionState, swapped: bool)
      requires Valid() && current in leaves && other !in leaves
      modifies this, current.ptreeNode, current`ptreeNode, other`ptreeNode
      ensures Valid() && leaves == old(leaves) + {other} && fresh(nodes - old(nodes))
      ensures var n := old(current.ptreeNode);
              n != null && n.left == (if swapped then current.ptreeNode else other.ptreeNode)
              && n.right == (if swapped then other.ptreeNode else current.ptreeNode)
    {
      assert LeafOk(current) && LinkOk(current.ptreeNode) && DataOk(current.ptreeNode);
      var n := current.ptreeNode;
      SplitNode(n, current, other, swapped);
      leaves := leaves + {other};
      nodes := nodes + {current.ptreeNode, other.ptreeNode};
      height := height + 1;
      forall m | m in nodes ensures LinkOk(m) && DataOk(m) {
        assert m in old(nodes) ==> old(LinkOk(m)) && old(DataOk(m));
      }
      forall s | s in leaves ensures LeafOk(s) {
        assert s in old(leaves) ==> old(LeafOk(s));
      }
    }

    /** Removes a leaf and, going up, every node that is left without children. */
    method Remove(leaf: PTreeNode)
      requires Valid() && leaf in nodes && leaf.left == null && leaf.right == null
      modifies this`nodes, this`leaves, nodes
      ensures Valid() && nodes <= old(nodes) && leaves == old(leaves) - {old(leaf.data)}
    {
      var n: PTreeNode? := leaf;
      DropData(leaf);
      while n != null && n.left == null && n.right == null
        invariant nodes <= old(nodes) && leaves == old(leaves) - {old(leaf.data)}
        invariant if n != null && n.left == null && n.right == null then ValidBut(n) else Valid()
        decreases nodes
      {
        n := RemoveOne(n);
      }
    }

    /** The state of a leaf no longer counts. */
    ghost method DropData(leaf: PTreeNode)
      requires Valid() && leaf in nodes && leaf.left == null && leaf.right == null
      modifies this`leaves
      ensures ValidBut(leaf) && leaves == old(leaves) - {leaf.data}
    {
      assert LinkOk(leaf) && DataOk(leaf);
      leaves := leaves - {leaf.data};
      forall m | m in nodes ensures LinkOk(m) && (m != leaf ==> DataOk(m)) {
        assert old(LinkOk(m)) && old(DataOk(m));
      }
      forall s | s in leaves ensures LeafOk(s) && s.ptreeNode != leaf {
        assert old(LeafOk(s));
      }
    }

    /** Below a childless root there is nothing. */
    lemma NothingElse(m: PTreeNode)
      requires forall n :: n in nodes ==> LinkOk(n)
      requires m in nodes && root in nodes && root.left == null && root.right == null
      ensures m == root
      decreases m.depth
    {
      assert LinkOk(m);
      if m != root {
        NothingElse(m.parent);
      }
    }

    /** Unlinks one childless node from its parent. */
    method RemoveOne(n: PTreeNode) returns (p: PTreeNode?)
      requires ValidBut(n)
      modifies this`nodes, nodes
      ensures nodes == old(nodes) - {n} && p == n.parent
      ensures if p != null && p.left == null && p.right == null then ValidBut(p) else Valid()
    {
      assert LinkOk(n);
      p := n.parent;
      if p == null {
        forall m | m in nodes ensures m == n {
          assert forall k :: k in nodes ==> LinkOk(k);
          NothingElse(m);
        }
      } else {
        assert LinkOk(p) && DataOk(p);
      }
      nodes := nodes - {n};
      if p != null {
        if n == p.left {
          p.left := null;
        } else {
          assert n == p.right;
          p.right := null;
        }
      }
      forall m | m in nodes ensures LinkOk(m) {
        assert old(LinkOk(m));
      }
      forall m | m in nodes && m != p ensures DataOk(m) {
        assert old(DataOk(m));
      }
      forall s | s in leaves ensures LeafOk(s) && s.ptreeNode != p {
        assert old(LeafOk(s));
      }
    }

    lemma LeafAt(s: ExecutionState)
      requires Valid() && s in leaves
      ensures LeafOk(s)
    {
    }

    lemma NodeAt(n: PTreeNode)
      requires Valid() && n in nodes
      ensures LinkOk(n) && DataOk(n)
    {
    }
  }
}
