/**
 The tree of call paths, in which recursion is collapsed, and the summary of its
 statistics by call site and callee.
 */
module CallPaths {
  /** What was called from where; `fn` 0 is reserved for the root. */
  datatype Label = Label(callSite: nat, fn: nat)

  class CallPathNode {
    const parent: CallPathNode?
    const key: Label
    var children: map<Label, CallPathNode>
    var statistics: int
    var summaryStatistics: int
    var count: nat

    /** The nodes from the root down to this one. */
    ghost const chain: seq<CallPathNode>

    constructor (parent: CallPathNode?, key: Label)
      ensures this.parent == parent && this.key == key && children == map[] && statistics == 0 && count == 0
      ensures chain == (if parent == null then [] else parent.chain) + [this]
    {
      this.parent, this.key := parent, key;
      children, statistics, summaryStatistics, count := map[], 0, 0, 0;
      chain := (if parent == null then [] else parent.chain) + [this];
    }
  }

  /** The ghost chain follows the parent pointers. */
  ghost predicate NodeOk(n: CallPathNode) {
    n.chain == (if n.parent == null then [] else n.parent.chain) + [n]
  }

  ghost predicate LabelsDiffer(chain: seq<CallPathNode>) {
    forall a, b :: 0 <= a < b < |chain| ==> chain[a].key != chain[b].key
  }

  /** Node `i` of the list: its parent is before it, and no label repeats above it. */
  ghost predicate PathOk(root: CallPathNode, paths: seq<CallPathNode>, i: nat)
    requires i < |paths|
  {
    var n := paths[i];
    NodeOk(n) && n.parent != null && n !in paths[..i] && n != root
    && (n.parent == root || n.parent in paths[..i])
    && n.chain[0] == root && (forall a :: 1 <= a < |n.chain| ==> n.chain[a] in paths[..i + 1])
    && LabelsDiffer(n.chain)
  }

  ghost predicate TreeOk(root: CallPathNode, paths: seq<CallPathNode>) {
    NodeOk(root) && root.parent == null && root.key == Label(0, 0)
    && forall i :: 0 <= i < |paths| ==> PathOk(root, paths, i)
  }

  /** What a call of `key` from node `n` leads to: the caller with that label if there is
      one, else a child proper. */
  ghost predicate ChildOf(n: CallPathNode, key: Label, c: CallPathNode) {
    c.key == key && if exists a :: a in n.chain && a.key == key then c in n.chain else c.parent == n
  }

  class CallPathManager {
    const root: CallPathNode
    var paths: seq<CallPathNode>

    ghost predicate Known(n: CallPathNode)
      reads this
    {
      n == root || n in paths
    }

    /** A child is the ancestor with that label if there is one, else a child proper. */
    ghost predicate ChildrenOk(n: CallPathNode)
      reads this, n
    {
      forall key :: key in n.children ==> n.children[key] in paths && ChildOf(n, key, n.children[key])
    }

    ghost predicate Valid()
      reads this, root, paths
    {
      TreeOk(root, paths) && ChildrenOk(root) && (forall n :: n in paths ==> ChildrenOk(n))
      && forall n :: n in paths ==> Listed(n)
    }

    /** A node is found again under its label: no two children of a node share one. */
    ghost predicate Listed(n: CallPathNode)
      reads root, paths, this
    {
      n.parent != null && Known(n.parent) && n.key in n.parent.children && n.parent.children[n.key] == n
    }

    constructor ()
      ensures Valid() && paths == [] && fresh(root)
    {
      root := new CallPathNode(null, Label(0, 0));
      paths := [];
    }

    /** Looks for the label among the callers. */
    method FindCaller(parent: CallPathNode, key: Label) returns (p: CallPathNode?)
      requires TreeOk(root, paths) && Known(parent) && key.fn != 0
      ensures p != null ==> p in paths && p in parent.chain && p.key == key
      ensures p == null ==> forall a :: a in parent.chain ==> a.key != key
    {
      hide PathOk;
      p := parent;
      ghost var k := |parent.chain|;
      ChainOf(root, paths, parent);
      while p != null
        invariant 0 <= k <= |parent.chain| && (p == null <==> k == 0)
        invariant p != null ==> p == parent.chain[k - 1]
        invariant forall a :: k <= a < |parent.chain| ==> parent.chain[a].key != key
        decreases k
      {
        if p.key == key {
          return;
        }
        ParentInChain(root, paths, parent, k - 1);
        p := p.parent;
        k := k - 1;
      }
    }

    /** A new node only if the label is not among the callers. */
    method ComputeCallPath(parent: CallPathNode, key: Label) returns (cp: CallPathNode)
      requires TreeOk(root, paths) && Known(parent) && key.fn != 0
      modifies this`paths
      ensures TreeOk(root, paths) && cp in paths && cp.key == key
      ensures if exists a :: a in parent.chain && a.key == key
              then cp in parent.chain && paths == old(paths)
              else cp.parent == parent && fresh(cp) && paths == old(paths) + [cp] && cp.children == map[]
    {
      hide PathOk;
      var p := FindCaller(parent, key);
      if p != null {
        return p;
      }
      cp := new CallPathNode(parent, key);
      Extended(root, paths, cp);
      paths := paths + [cp];
    }

    /** The node for a call: the same label never occurs twice on a chain of callers. */
    method GetCallPath(caller: CallPathNode?, key: Label) returns (cp: CallPathNode)
      requires Valid() && (caller != null ==> Known(caller)) && key.fn != 0
      modifies this`paths, root`children, paths`children
      ensures Valid() && cp in paths && cp.key == key && old(paths) <= paths
      ensures var parent := if caller == null then root else caller;
              if exists a :: a in parent.chain && a.key == key then cp in parent.chain else cp.parent == parent
      ensures var parent := if caller == null then root else caller;
              parent.children == old(parent.children)[key := cp]
              && (key in old(parent.children) ==> cp == old(parent.children[key]) && paths == old(paths))
      ensures paths == old(paths) || (fresh(cp) && paths == old(paths) + [cp])
    {
      hide TreeOk;
      var parent := if caller == null then root else caller;
      if key in parent.children {
        cp := parent.children[key];
        assert parent.children[key := cp] == parent.children;
        return;
      }
      ghost var known := paths;
      cp := ComputeCallPath(parent, key);
      Enter(parent, key, cp, known);
    }

    /** The label is on the chain of callers and `cp` with it, or else `cp` is a new child. */
    ghost predicate Places(parent: CallPathNode, key: Label, cp: CallPathNode, known: seq<CallPathNode>)
      reads this`paths, cp
    {
      cp.key == key && cp in paths && ChildOf(parent, key, cp)
      && (paths == known || (paths == known + [cp] && cp.parent == parent && cp.children == map[] && cp != parent))
    }

    /** Enters a node in the table of its caller. */
    method Enter(parent: CallPathNode, key: Label, cp: CallPathNode, ghost known: seq<CallPathNode>)
      requires TreeOk(root, paths) && (parent == root || parent in known) && key !in parent.children
      requires Places(parent, key, cp, known)
      requires ChildrenOk(root) && forall n :: n in known ==> ChildrenOk(n) && Listed(n)
      modifies parent`children
      ensures Valid() && parent.children == old(parent.children)[key := cp]
    {
      hide TreeOk, ChildOf;
      parent.children := parent.children[key := cp];
      forall n | n in paths ensures ChildrenOk(n) {
        if n in known {
          assert old(ChildrenOk(n));
        }
      }
      assert ChildrenOk(root);
      forall n | n in paths ensures Listed(n) {
        if n in known {
          assert old(Listed(n));
        }
      }
    }

    /** Inclusive statistics: for each label, the sum over all nodes that are or are
        beneath a node with that label, each counted once under any recursion. */
    method GetSummaryStatistics() returns (results: map<Label, CallSiteInfo>)
      requires TreeOk(root, paths)
      modifies root`summaryStatistics, paths`summaryStatistics
      ensures forall key ::
        (key in results <==> exists n :: n in paths && n.key == key)
        && (key in results ==> Summed(paths, old(Statistics()), old(Counts()), key, results[key]))
    {
      hide TreeOk, SumOver, Gathered, Tabled, Beneath;
      ghost var stats, counts := Statistics(), Counts();
      InitSummaries();
      assert Statistics() == stats;
      results := map[];
      TableNone(paths, stats, counts);
      var k := |paths|;
      while k > 0
        invariant 0 <= k <= |paths|
        invariant forall j :: 0 <= j < |paths| ==>
          paths[j].summaryStatistics == SumOver(stats, Gathered(paths, paths[j], k), |paths|)
        invariant forall j :: 0 <= j < |paths| ==> paths[j].count == counts[j]
        invariant Tabled(paths, stats, counts, results, k)
      {
        k := k - 1;
        PassOn(k, stats);
        var cp := paths[k];
        var csi := InfoOf(results, cp.key);
        TableStep(root, paths, stats, counts, results, k);
        results := results[cp.key := CallSiteInfo(csi.count + cp.count, csi.statistics + cp.summaryStatistics)];
      }
      TableDone(paths, stats, counts, results);
    }

    method InitSummaries()
      requires TreeOk(root, paths)
      modifies paths`summaryStatistics
      ensures forall j :: 0 <= j < |paths| ==>
        paths[j].summaryStatistics == SumOver(Statistics(), Gathered(paths, paths[j], |paths|), |paths|)
    {
      hide PathOk, SumOver, Gathered;
      ghost var stats := Statistics();
      var i := 0;
      while i < |paths|
        invariant 0 <= i <= |paths|
        invariant forall j :: 0 <= j < i ==> paths[j].summaryStatistics == paths[j].statistics
      {
        paths[i].summaryStatistics := paths[i].statistics;
        i := i + 1;
      }
      assert Statistics() == stats;
      forall j | 0 <= j < |paths|
        ensures paths[j].summaryStatistics == SumOver(stats, Gathered(paths, paths[j], |paths|), |paths|)
      {
        GatheredFirst(root, paths, j);
        SumSingle(stats, j, |paths|);
      }
    }

    /** Node `k` passes on to its parent what it has gathered. */
    method PassOn(k: nat, ghost stats: seq<int>)
      requires TreeOk(root, paths) && k < |paths| && |stats| == |paths|
      requires forall j :: 0 <= j < |paths| ==>
        paths[j].summaryStatistics == SumOver(stats, Gathered(paths, paths[j], k + 1), |paths|)
      modifies root`summaryStatistics, paths`summaryStatistics
      ensures forall j :: 0 <= j < |paths| ==>
        paths[j].summaryStatistics == SumOver(stats, Gathered(paths, paths[j], k), |paths|)
      ensures paths[k].summaryStatistics == SumOver(stats, Beneath(paths, paths[k]), |paths|)
    {
      hide PathOk, SumOver, Gathered, Beneath;
      var cp := paths[k];
      ParentOf(root, paths, k);
      GatheredAll(root, paths, k + 1);
      ghost var parent := cp.parent;
      cp.parent.summaryStatistics := cp.parent.summaryStatistics + cp.summaryStatistics;
      forall j | 0 <= j < |paths|
        ensures paths[j].summaryStatistics == SumOver(stats, Gathered(paths, paths[j], k), |paths|)
      {
        if paths[j] == parent {
          GatheredParent(root, paths, k + 1, parent);
          SumJoin(stats, Gathered(paths, parent, k + 1), Beneath(paths, cp), |paths|);
        } else {
          GatheredOther(root, paths, k + 1, paths[j]);
        }
      }
    }

    ghost function Statistics(): (s: seq<int>)
      reads this`paths, paths
      ensures |s| == |paths| && forall i :: 0 <= i < |paths| ==> s[i] == paths[i].statistics
    {
      var nodes := paths;
      seq(|nodes|, i requires 0 <= i < |nodes| reads nodes => nodes[i].statistics)
    }

    ghost function Counts(): (s: seq<int>)
      reads this`paths, paths
      ensures |s| == |paths| && forall i :: 0 <= i < |paths| ==> s[i] == paths[i].count
    {
      var nodes := paths;
      seq(|nodes|, i requires 0 <= i < |nodes| reads nodes => nodes[i].count)
    }
  }

  /** A table entry holds the sums over the nodes at and beneath those with the label,
      and the counts of the latter. */
  ghost predicate Summed(paths: seq<CallPathNode>, stats: seq<int>, counts: seq<int>, key: Label, info: CallSiteInfo)
    requires |stats| == |paths| == |counts|
  {
    SummedFrom(paths, stats, counts, key, info, 0)
  }

  ghost predicate SummedFrom(paths: seq<CallPathNode>, stats: seq<int>, counts: seq<int>, key: Label,
                             info: CallSiteInfo, k: nat)
    requires |stats| == |paths| == |counts| && k <= |paths|
  {
    info.statistics == SumOver(stats, Labelled(paths, key, k), |paths|)
    && info.count == SumOver(counts, Places(paths, key, k), |paths|)
  }

  /** The entry for a label, all zero if there is none yet. */
  function InfoOf(results: map<Label, CallSiteInfo>, key: Label): CallSiteInfo {
    if key in results then results[key] else CallSiteInfo(0, 0)
  }

  ghost predicate Tabled(paths: seq<CallPathNode>, stats: seq<int>, counts: seq<int>,
                         results: map<Label, CallSiteInfo>, k: nat)
    requires |stats| == |paths| == |counts| && k <= |paths|
  {
    forall key :: (key in results <==> exists n :: n in paths[k..] && n.key == key)
      && SummedFrom(paths, stats, counts, key, InfoOf(results, key), k)
  }

  lemma TableNone(paths: seq<CallPathNode>, stats: seq<int>, counts: seq<int>)
    requires |stats| == |paths| == |counts|
    ensures Tabled(paths, stats, counts, map[], |paths|)
  {
    var results: map<Label, CallSiteInfo> := map[];
    forall key ensures SummedFrom(paths, stats, counts, key, InfoOf(results, key), |paths|) {
      assert Labelled(paths, key, |paths|) == {} && Places(paths, key, |paths|) == {};
      SumNone(stats, |paths|);
      SumNone(counts, |paths|);
    }
  }

  lemma TableStep(root: CallPathNode, paths: seq<CallPathNode>, stats: seq<int>, counts: seq<int>,
                  results: map<Label, CallSiteInfo>, k: nat)
    requires TreeOk(root, paths) && |stats| == |paths| == |counts| && k < |paths|
    requires Tabled(paths, stats, counts, results, k + 1)
    ensures var cp := paths[k];
            var csi := InfoOf(results, cp.key);
            var total := SumOver(stats, Beneath(paths, cp), |paths|);
            Tabled(paths, stats, counts,
                   results[cp.key := CallSiteInfo(csi.count + counts[k], csi.statistics + total)], k)
  {
    hide TreeOk, SumOver, Beneath, Labelled, Places;
    var cp := paths[k];
    var csi := InfoOf(results, cp.key);
    var total := SumOver(stats, Beneath(paths, cp), |paths|);
    var results' := results[cp.key := CallSiteInfo(csi.count + counts[k], csi.statistics + total)];
    assert paths[k..] == [cp] + paths[k + 1..];
    forall key ensures SummedFrom(paths, stats, counts, key, InfoOf(results', key), k) {
      assert SummedFrom(paths, stats, counts, key, InfoOf(results, key), k + 1);
      if key == cp.key {
        LabelledMore(root, paths, k + 1);
        SumJoin(stats, Labelled(paths, key, k + 1), Beneath(paths, cp), |paths|);
        PlacesMore(paths, k);
        SumJoin(counts, Places(paths, key, k + 1), {k}, |paths|);
        SumSingle(counts, k, |paths|);
      } else {
        LabelledSame(paths, k + 1, key);
        PlacesSame(paths, key, k);
      }
    }
    forall key ensures key in results' <==> exists n :: n in paths[k..] && n.key == key {
      assert cp in paths[k..];
      assert key in results <==> exists n :: n in paths[k + 1..] && n.key == key;
    }
  }

  lemma PlacesMore(paths: seq<CallPathNode>, k: nat)
    requires k < |paths|
    ensures Places(paths, paths[k].key, k) == Places(paths, paths[k].key, k + 1) + {k}
    ensures k !in Places(paths, paths[k].key, k + 1)
  {
  }

  lemma PlacesSame(paths: seq<CallPathNode>, key: Label, k: nat)
    requires k < |paths| && paths[k].key != key
    ensures Places(paths, key, k) == Places(paths, key, k + 1)
  {
  }

  lemma TableDone(paths: seq<CallPathNode>, stats: seq<int>, counts: seq<int>, results: map<Label, CallSiteInfo>)
    requires |stats| == |paths| == |counts| && Tabled(paths, stats, counts, results, 0)
    ensures forall key ::
      (key in results <==> exists n :: n in paths && n.key == key)
      && (key in results ==> Summed(paths, stats, counts, key, results[key]))
  {
    assert paths[0..] == paths;
  }

  lemma ParentOf(root: CallPathNode, paths: seq<CallPathNode>, k: nat)
    requires TreeOk(root, paths) && k < |paths|
    ensures paths[k].parent != null && paths[k].parent != paths[k]
    ensures paths[k].parent == root || paths[k].parent in paths
    ensures root !in paths
  {
    assert PathOk(root, paths, k);
    forall j | 0 <= j < |paths| ensures paths[j] != root {
      assert PathOk(root, paths, j);
    }
  }

  datatype CallSiteInfo = CallSiteInfo(count: int, statistics: int)

  lemma ChainOf(root: CallPathNode, paths: seq<CallPathNode>, n: CallPathNode)
    requires TreeOk(root, paths) && (n == root || n in paths)
    ensures |n.chain| > 0 && n.chain[|n.chain| - 1] == n && n.chain[0] == root && NodeOk(n)
    ensures LabelsDiffer(n.chain) && forall a :: 1 <= a < |n.chain| ==> n.chain[a] in paths
  {
    if n != root {
      var i :| 0 <= i < |paths| && paths[i] == n;
      assert PathOk(root, paths, i);
    }
  }

  /** Every chain is the chain of each of its nodes, continued. */
  lemma {:induction false} ParentInChain(root: CallPathNode, paths: seq<CallPathNode>, n: CallPathNode, k: nat)
    requires TreeOk(root, paths) && (n == root || n in paths) && k < |n.chain|
    ensures n.chain[..k + 1] == n.chain[k].chain
    ensures n.chain[k].parent == if k == 0 then null else n.chain[k - 1]
    decreases |n.chain|
  {
    ChainOf(root, paths, n);
    if k == |n.chain| - 1 {
      assert n.chain[..k + 1] == n.chain;
      if k > 0 {
        ParentKnown(root, paths, n);
        ChainOf(root, paths, n.parent);
      }
    } else {
      ParentKnown(root, paths, n);
      ParentInChain(root, paths, n.parent, k);
      assert n.chain[..k + 1] == n.parent.chain[..k + 1];
    }
  }

  lemma ParentKnown(root: CallPathNode, paths: seq<CallPathNode>, n: CallPathNode)
    requires TreeOk(root, paths) && (n == root || n in paths) && |n.chain| > 1
    ensures n.parent != null && (n.parent == root || n.parent in paths)
  {
    if n != root {
      var i :| 0 <= i < |paths| && paths[i] == n;
      assert PathOk(root, paths, i);
    }
  }

  lemma Extended(root: CallPathNode, paths: seq<CallPathNode>, cp: CallPathNode)
    requires TreeOk(root, paths) && cp.parent != null && (cp.parent == root || cp.parent in paths)
    requires NodeOk(cp) && cp !in paths && cp != root && cp.key.fn != 0
    requires forall a :: a in cp.parent.chain ==> a.key != cp.key
    ensures TreeOk(root, paths + [cp])
  {
    ChainOf(root, paths, cp.parent);
    var paths' := paths + [cp];
    forall i | 0 <= i < |paths'| ensures PathOk(root, paths', i) {
      if i < |paths| {
        assert PathOk(root, paths, i);
        assert paths'[..i] == paths[..i] && paths'[..i + 1] == paths[..i + 1];
      } else {
        assert paths'[..i] == paths && paths'[..i + 1] == paths';
      }
    }
  }

  // ------------------------------------------------------------------- summaries

  /** The sum of the entries of `s` before `m` whose places are in `c`. */
  ghost function SumOver(s: seq<int>, c: set<nat>, m: nat): int
    requires m <= |s|
  {
    if m == 0 then 0 else SumOver(s, c, m - 1) + if m - 1 in c then s[m - 1] else 0
  }

  lemma {:induction false} SumJoin(s: seq<int>, c: set<nat>, d: set<nat>, m: nat)
    requires m <= |s| && c !! d
    ensures SumOver(s, c + d, m) == SumOver(s, c, m) + SumOver(s, d, m)
  {
    if m > 0 {
      SumJoin(s, c, d, m - 1);
    }
  }

  lemma {:induction false} SumSingle(s: seq<int>, i: nat, m: nat)
    requires m <= |s| && i < |s|
    ensures SumOver(s, {i}, m) == if i < m then s[i] else 0
  {
    if m > 0 {
      SumSingle(s, i, m - 1);
    }
  }

  lemma {:induction false} SumNone(s: seq<int>, m: nat)
    requires m <= |s|
    ensures SumOver(s, {}, m) == 0
  {
    if m > 0 {
      SumNone(s, m - 1);
    }
  }

  /** The places of the nodes at and beneath a node. */
  ghost function Beneath(paths: seq<CallPathNode>, x: CallPathNode): set<nat> {
    set i | 0 <= i < |paths| && x in paths[i].chain
  }

  /** Those whose statistics have reached `x` once the nodes from place `k` on have
      passed theirs on to their parents. */
  ghost function Gathered(paths: seq<CallPathNode>, x: CallPathNode, k: nat): set<nat>
    requires k <= |paths|
  {
    set i | 0 <= i < |paths| && (paths[i] == x || Through(paths[k..], x, paths[i]))
  }

  ghost predicate Through(done: seq<CallPathNode>, x: CallPathNode, n: CallPathNode) {
    exists c :: c in done && c.parent == x && c in n.chain
  }

  /** The places of the nodes at and beneath a node with the given label, among the
      nodes from place `k` on. */
  ghost function Labelled(paths: seq<CallPathNode>, key: Label, k: nat): set<nat>
    requires k <= |paths|
  {
    set i | 0 <= i < |paths| && HasLabel(paths[k..], key, paths[i])
  }

  ghost predicate HasLabel(done: seq<CallPathNode>, key: Label, n: CallPathNode) {
    exists c :: c in done && c.key == key && c in n.chain
  }

  /** The places, from `k` on, of the nodes with the given label. */
  ghost function Places(paths: seq<CallPathNode>, key: Label, k: nat): set<nat> {
    set i | k <= i < |paths| && paths[i].key == key
  }

  /** A node stands in every chain at the place given by its own. */
  lemma PlaceInChain(root: CallPathNode, paths: seq<CallPathNode>, n: CallPathNode, c: CallPathNode)
    requires TreeOk(root, paths) && n in paths && c in n.chain
    ensures 0 < |c.chain| <= |n.chain| && n.chain[|c.chain| - 1] == c && n.chain[..|c.chain|] == c.chain
    ensures c == n <==> |c.chain| == |n.chain|
    ensures c == root || c in paths
    ensures c.parent != null ==> c.parent in n.chain && |c.parent.chain| == |c.chain| - 1
  {
    hide PathOk;
    var k :| 0 <= k < |n.chain| && n.chain[k] == c;
    ParentInChain(root, paths, n, k);
    ChainOf(root, paths, n);
    if k > 0 {
      ParentInChain(root, paths, n, k - 1);
    }
  }

  /** Before anything is passed on, a node has its own statistics only. */
  lemma GatheredFirst(root: CallPathNode, paths: seq<CallPathNode>, j: nat)
    requires TreeOk(root, paths) && j < |paths|
    ensures Gathered(paths, paths[j], |paths|) == {j}
  {
    forall i | 0 <= i < |paths| && i != j ensures paths[i] != paths[j] {
      NoRepeats(root, paths, i, j);
    }
  }

  lemma NoRepeats(root: CallPathNode, paths: seq<CallPathNode>, i: nat, j: nat)
    requires TreeOk(root, paths) && i < |paths| && j < |paths| && i != j
    ensures paths[i] != paths[j]
  {
    if i < j {
      assert PathOk(root, paths, j) && paths[i] in paths[..j];
    } else {
      assert PathOk(root, paths, i) && paths[j] in paths[..i];
    }
  }

  /** The children of a node come after it. */
  lemma ChildrenLater(root: CallPathNode, paths: seq<CallPathNode>, k: nat, c: CallPathNode)
    requires TreeOk(root, paths) && 0 < k <= |paths| && c in paths && c.parent == paths[k - 1]
    ensures c in paths[k..]
  {
    var i :| 0 <= i < |paths| && paths[i] == c;
    assert PathOk(root, paths, i) && PathOk(root, paths, k - 1);
    var j :| 0 <= j < i && paths[j] == paths[k - 1];
    if j != k - 1 {
      NoRepeats(root, paths, j, k - 1);
    }
    assert paths[k..][i - k] == c;
  }

  /** When it is a node's turn, it has gathered all that is beneath it. */
  lemma GatheredAll(root: CallPathNode, paths: seq<CallPathNode>, k: nat)
    requires TreeOk(root, paths) && 0 < k <= |paths|
    ensures Gathered(paths, paths[k - 1], k) == Beneath(paths, paths[k - 1])
  {
    hide PathOk;
    var n := paths[k - 1];
    forall i | 0 <= i < |paths|
      ensures i in Gathered(paths, n, k) <==> i in Beneath(paths, n)
    {
      ChainOf(root, paths, paths[i]);
      if n in paths[i].chain && paths[i] != n {
        PlaceInChain(root, paths, paths[i], n);
        var c := paths[i].chain[|n.chain|];
        ParentInChain(root, paths, paths[i], |n.chain|);
        ChildrenLater(root, paths, k, c);
        assert Through(paths[k..], n, paths[i]);
      } else if Through(paths[k..], n, paths[i]) {
        var c :| c in paths[k..] && c.parent == n && c in paths[i].chain;
        PlaceInChain(root, paths, paths[i], c);
      }
    }
  }

  /** A node's parent gains exactly what is beneath the node, none of it twice ... */
  lemma GatheredParent(root: CallPathNode, paths: seq<CallPathNode>, k: nat, x: CallPathNode)
    requires TreeOk(root, paths) && 0 < k <= |paths| && x in paths && x == paths[k - 1].parent
    ensures Gathered(paths, x, k - 1) == Gathered(paths, x, k) + Beneath(paths, paths[k - 1])
    ensures Gathered(paths, x, k) !! Beneath(paths, paths[k - 1])
  {
    hide PathOk;
    var n := paths[k - 1];
    assert paths[k - 1..] == [n] + paths[k..];
    NotLater(root, paths, k);
    forall i | 0 <= i < |paths|
      ensures i in Gathered(paths, x, k - 1) <==> i in Gathered(paths, x, k) || i in Beneath(paths, n)
      ensures !(i in Gathered(paths, x, k) && i in Beneath(paths, n))
    {
      ChainOf(root, paths, paths[i]);
      if n in paths[i].chain {
        PlaceInChain(root, paths, paths[i], n);
        assert Through(paths[k - 1..], x, paths[i]);
        forall c | c in paths[i].chain && c.parent == x ensures c == n {
          PlaceInChain(root, paths, paths[i], c);
        }
      } else if Through(paths[k - 1..], x, paths[i]) {
        var c :| c in paths[k - 1..] && c.parent == x && c in paths[i].chain;
        assert c in paths[k..];
      }
    }
  }

  lemma NotLater(root: CallPathNode, paths: seq<CallPathNode>, k: nat)
    requires TreeOk(root, paths) && 0 < k <= |paths|
    ensures paths[k - 1] !in paths[k..]
  {
    hide PathOk;
    forall j | 0 <= j < |paths[k..]| ensures paths[k..][j] != paths[k - 1] {
      NoRepeats(root, paths, k + j, k - 1);
    }
  }

  /** ... and no other node gains anything. */
  lemma GatheredOther(root: CallPathNode, paths: seq<CallPathNode>, k: nat, x: CallPathNode)
    requires 0 < k <= |paths| && x != paths[k - 1].parent
    ensures Gathered(paths, x, k - 1) == Gathered(paths, x, k)
  {
    var n := paths[k - 1];
    assert paths[k - 1..] == [n] + paths[k..];
    forall i | 0 <= i < |paths| ensures Through(paths[k - 1..], x, paths[i]) <==> Through(paths[k..], x, paths[i]) {
    }
  }

  /** No label repeats on a chain, so nothing counts twice for the same label. */
  lemma LabelledMore(root: CallPathNode, paths: seq<CallPathNode>, k: nat)
    requires TreeOk(root, paths) && 0 < k <= |paths|
    ensures var n := paths[k - 1];
            Labelled(paths, n.key, k - 1) == Labelled(paths, n.key, k) + Beneath(paths, n)
            && Labelled(paths, n.key, k) !! Beneath(paths, n)
  {
    hide PathOk;
    var n := paths[k - 1];
    assert paths[k - 1..] == [n] + paths[k..];
    NotLater(root, paths, k);
    forall i | 0 <= i < |paths|
      ensures i in Labelled(paths, n.key, k - 1) <==> i in Labelled(paths, n.key, k) || i in Beneath(paths, n)
      ensures !(i in Labelled(paths, n.key, k) && i in Beneath(paths, n))
    {
      ChainOf(root, paths, paths[i]);
      if n in paths[i].chain {
        assert HasLabel(paths[k - 1..], n.key, paths[i]);
      }
    }
  }

  lemma LabelledSame(paths: seq<CallPathNode>, k: nat, key: Label)
    requires 0 < k <= |paths| && paths[k - 1].key != key
    ensures Labelled(paths, key, k - 1) == Labelled(paths, key, k)
  {
    assert paths[k - 1..] == [paths[k - 1]] + paths[k..];
    forall i | 0 <= i < |paths| ensures HasLabel(paths[k - 1..], key, paths[i]) <==> HasLabel(paths[k..], key, paths[i]) {
    }
  }
}
