/**
 The three layers of a symbolic memory object, as a value: concrete bytes, bytes
 known to be some expression, and bytes flushed to an update list. Each step the
 object takes is shown to keep the documented cache invariants and to change the
 bytes it stands for in exactly the intended way.
 */
module ByteCache {
  import opened Bits
  import opened Exprs
  import opened Constructors
  import opened ByteArrays

  /** One byte: `known` is its cached expression, `flushed` says that the update
      list holds its value. */
  datatype Slot = Slot(store: nat, concrete: bool, flushed: bool, known: Option<Expr>)

  /** `root` is missing until the backing constant array is created. */
  datatype Cache = Cache(slots: seq<Slot>, root: Option<Array>, nodes: seq<UpdateNode>)

  function ZeroArray(size: nat): Array {
    Array("", seq(size, i => 0))
  }

  /** The array under the updates: all zero as long as it has not been created. */
  function Root(c: Cache): Array {
    match c.root
    case Some(r) => r
    case None => ZeroArray(|c.slots|)
  }

  /** What the update list says about byte `k`. */
  function Listed(c: Cache, k: nat, a: Assignment): nat {
    EvalNodes(Root(c), c.nodes, k, a)
  }

  function ByteAt(c: Cache, k: nat, a: Assignment): nat
    requires k < |c.slots|
  {
    var s := c.slots[k];
    if s.concrete then s.store
    else if s.known.Some? then Eval(s.known.value, a)
    else Listed(c, k, a)
  }

  /** The byte array this object stands for under an assignment. */
  function Contents(c: Cache, a: Assignment): (b: Bytes)
    ensures |b| == |c.slots|
    ensures forall k :: 0 <= k < |c.slots| ==> b[k] == ByteAt(c, k, a)
  {
    seq(|c.slots|, k requires 0 <= k < |c.slots| => ByteAt(c, k, a))
  }

  predicate Cached(s: Slot) {
    s.concrete || s.known.Some?
  }

  /** The three documented cache invariants, for one byte. */
  predicate SlotOk(s: Slot) {
    s.store < 256
    && (s.known.Some? ==> !s.concrete && Width(s.known.value) == INT8)
    && (!s.flushed ==> Cached(s))
  }

  predicate NodeInRange(n: UpdateNode, size: nat) {
    n.index.Constant? ==> n.index.value < size
  }

  /** A cached byte that is also flushed agrees with the update list. */
  ghost predicate Agrees(c: Cache, k: nat)
    requires k < |c.slots|
  {
    c.slots[k].flushed && Cached(c.slots[k]) ==>
      forall a: Assignment :: Listed(c, k, a) == ByteAt(c, k, a)
  }

  ghost predicate Ok(c: Cache) {
    |c.slots| <= Pow2(INT32)
    && (forall k :: 0 <= k < |c.slots| ==> SlotOk(c.slots[k]))
    && (forall k :: 0 <= k < |c.slots| ==> Agrees(c, k))
    && (c.root.Some? ==> ValidArray(c.root.value))
    && ValidNodes(c.nodes)
    && (forall i :: 0 <= i < |c.nodes| ==> NodeInRange(c.nodes[i], |c.slots|))
  }

  /** No byte is cached: all are in the update list only. */
  predicate Drained(c: Cache) {
    forall k :: 0 <= k < |c.slots| ==> c.slots[k].flushed && !Cached(c.slots[k])
  }

  /** The meaning is the same under every assignment. */
  ghost predicate SameContents(c: Cache, d: Cache) {
    forall a: Assignment :: Contents(c, a) == Contents(d, a)
  }

  // ------------------------------------------------------------- cached writes

  function SetSlot(c: Cache, k: nat, s: Slot): (c': Cache)
    requires k < |c.slots|
    ensures |c'.slots| == |c.slots| && c'.slots[k] == s
  {
    c.(slots := c.slots[k := s])
  }

  function AllFlushed(c: Cache): Cache {
    c.(slots := seq(|c.slots|, i requires 0 <= i < |c.slots| => c.slots[i].(flushed := true)))
  }

  /** Only the last of several changes to a slot counts. */
  lemma SetSlotAgain(c: Cache, k: nat, s: Slot, t: Slot)
    requires k < |c.slots|
    ensures SetSlot(SetSlot(c, k, s), k, t) == SetSlot(c, k, t)
  {
  }

  function PutConcrete(c: Cache, k: nat, v: nat): Cache
    requires k < |c.slots|
  {
    SetSlot(c, k, Slot(v, true, false, None))
  }

  function PutSymbolic(c: Cache, k: nat, e: Expr): Cache
    requires k < |c.slots|
  {
    SetSlot(c, k, Slot(c.slots[k].store, false, false, Some(e)))
  }

  /** Replacing one slot leaves the list's and every other byte's meaning alone. */
  lemma OtherSlots(c: Cache, k: nat, s: Slot, j: nat, a: Assignment)
    requires k < |c.slots| && j < |c.slots|
    ensures Listed(c.(slots := c.slots[k := s]), j, a) == Listed(c, j, a)
    ensures j != k ==> ByteAt(c.(slots := c.slots[k := s]), j, a) == ByteAt(c, j, a)
  {
    hide Eval, EvalNodes;
    var d := c.(slots := c.slots[k := s]);
    assert Root(d) == Root(c);
  }

  lemma UnflushedSlotOk(c: Cache, k: nat, s: Slot)
    requires Ok(c) && k < |c.slots| && SlotOk(s) && !s.flushed
    ensures Ok(c.(slots := c.slots[k := s]))
  {
    hide Listed, ByteAt, Width, Pow2;
    var d := c.(slots := c.slots[k := s]);
    forall j | 0 <= j < |d.slots| ensures Agrees(d, j) {
      if j != k {
        assert Agrees(c, j);
        forall a: Assignment ensures Listed(d, j, a) == Listed(c, j, a) && ByteAt(d, j, a) == ByteAt(c, j, a) {
          OtherSlots(c, k, s, j, a);
        }
      }
    }
  }

  lemma SlotContents(c: Cache, k: nat, s: Slot, a: Assignment)
    requires k < |c.slots| && Cached(s)
    ensures Contents(c.(slots := c.slots[k := s]), a)
         == Contents(c, a)[k := if s.concrete then s.store else Eval(s.known.value, a)]
  {
    hide Listed, Eval;
    var d := c.(slots := c.slots[k := s]);
    forall j | 0 <= j < |d.slots| && j != k ensures ByteAt(d, j, a) == ByteAt(c, j, a) {
      OtherSlots(c, k, s, j, a);
    }
  }

  lemma PutConcreteOk(c: Cache, k: nat, v: nat)
    requires Ok(c) && k < |c.slots| && v < 256
    ensures Ok(PutConcrete(c, k, v))
    ensures forall a: Assignment :: Contents(PutConcrete(c, k, v), a) == Contents(c, a)[k := v]
  {
    hide Ok, Contents;
    UnflushedSlotOk(c, k, Slot(v, true, false, None));
    forall a: Assignment ensures Contents(PutConcrete(c, k, v), a) == Contents(c, a)[k := v] {
      SlotContents(c, k, Slot(v, true, false, None), a);
    }
  }

  lemma PutSymbolicOk(c: Cache, k: nat, e: Expr)
    requires Ok(c) && k < |c.slots| && Width(e) == INT8
    ensures Ok(PutSymbolic(c, k, e))
    ensures forall a: Assignment :: Contents(PutSymbolic(c, k, e), a) == Contents(c, a)[k := Eval(e, a)]
  {
    hide Contents, Width, Eval;
    assert SlotOk(c.slots[k]);
    var s := Slot(c.slots[k].store, false, false, Some(e));
    UnflushedSlotOk(c, k, s);
    forall a: Assignment ensures Contents(PutSymbolic(c, k, e), a) == Contents(c, a)[k := Eval(e, a)] {
      SlotContents(c, k, s, a);
    }
  }

  // ------------------------------------------------------------------- flushing

  /** The write that puts a cached byte on the update list. */
  function FlushNode(c: Cache, k: nat): UpdateNode
    requires k < |c.slots| && Cached(c.slots[k])
  {
    var s := c.slots[k];
    UpdateNode(Constant(k, INT32), if s.concrete then Constant(s.store, INT8) else s.known.value)
  }

  /** Puts byte `k` on the list unless it is there already, and either keeps its
      cached value or drops it. */
  function Flush(c: Cache, k: nat, keep: bool): Cache
    requires k < |c.slots| && SlotOk(c.slots[k])
  {
    var s := c.slots[k];
    var nodes := if s.flushed then c.nodes else [FlushNode(c, k)] + c.nodes;
    var s' := if keep then s.(flushed := true) else Slot(s.store, false, true, None);
    c.(slots := c.slots[k := s'], nodes := nodes)
  }

  lemma Extended(root: Array, n: UpdateNode, nodes: seq<UpdateNode>, k: nat, a: Assignment)
    ensures EvalNodes(root, [n] + nodes, k, a)
         == if Eval(n.index, a) == k then Eval(n.value, a) else EvalNodes(root, nodes, k, a)
  {
    hide Eval;
    assert ([n] + nodes)[1..] == nodes;
    assert ([n] + nodes)[0] == n;
  }

  lemma FlushNodeOk(c: Cache, k: nat)
    requires Ok(c) && k < |c.slots| && !c.slots[k].flushed
    ensures Cached(c.slots[k])
    ensures ValidNode(FlushNode(c, k)) && NodeInRange(FlushNode(c, k), |c.slots|)
    ensures forall a: Assignment ::
      Eval(FlushNode(c, k).index, a) == k && Eval(FlushNode(c, k).value, a) == ByteAt(c, k, a)
  {
    hide Pow2;
    assert SlotOk(c.slots[k]);
    ByteConstant(c.slots[k].store);
  }

  lemma ByteConstant(v: nat)
    requires v < 256
    ensures Width(Constant(v, INT8)) == INT8
  {
    assert Pow2(8) == 256;
  }

  /** Before flushing, the list may not know byte `k`; afterwards it does, and it
      says the same as before about all others. */
  lemma FlushListed(c: Cache, k: nat, keep: bool, j: nat, a: Assignment)
    requires Ok(c) && k < |c.slots| && SlotOk(c.slots[k]) && j < |c.slots|
    ensures Listed(Flush(c, k, keep), j, a) == if j == k then ByteAt(c, k, a) else Listed(c, j, a)
  {
    hide Eval, EvalNodes, Width, Pow2;
    var d := Flush(c, k, keep);
    assert Root(d) == Root(c);
    if c.slots[k].flushed {
      assert Agrees(c, k);
    } else {
      FlushNodeOk(c, k);
      Extended(Root(c), FlushNode(c, k), c.nodes, j, a);
    }
  }

  lemma FlushByte(c: Cache, k: nat, keep: bool, j: nat, a: Assignment)
    requires Ok(c) && k < |c.slots| && SlotOk(c.slots[k]) && j < |c.slots|
    ensures ByteAt(Flush(c, k, keep), j, a) == ByteAt(c, j, a)
  {
    hide Eval, Listed, Width, Pow2;
    FlushListed(c, k, keep, j, a);
  }

  lemma FlushAgrees(c: Cache, k: nat, keep: bool, j: nat)
    requires Ok(c) && k < |c.slots| && SlotOk(c.slots[k]) && j < |c.slots|
    ensures Agrees(Flush(c, k, keep), j)
  {
    hide Eval, Listed, ByteAt, Width, Pow2;
    assert Agrees(c, j);
    forall a: Assignment
      ensures ByteAt(Flush(c, k, keep), j, a) == ByteAt(c, j, a)
      ensures Listed(Flush(c, k, keep), j, a) == if j == k then ByteAt(c, k, a) else Listed(c, j, a)
    {
      FlushByte(c, k, keep, j, a);
      FlushListed(c, k, keep, j, a);
    }
  }

  lemma FlushNodesOk(c: Cache, k: nat, keep: bool)
    requires Ok(c) && k < |c.slots| && SlotOk(c.slots[k])
    ensures ValidNodes(Flush(c, k, keep).nodes)
    ensures forall i :: 0 <= i < |Flush(c, k, keep).nodes| ==>
      NodeInRange(Flush(c, k, keep).nodes[i], |c.slots|)
  {
    hide Width, Pow2, FlushNode, ValidNode, NodeInRange;
    if !c.slots[k].flushed {
      FlushNodeOk(c, k);
    }
  }

  /** Flushing changes no byte. */
  lemma FlushOk(c: Cache, k: nat, keep: bool)
    requires Ok(c) && k < |c.slots| && SlotOk(c.slots[k])
    ensures Ok(Flush(c, k, keep)) && SameContents(Flush(c, k, keep), c)
  {
    hide Width, Pow2, Agrees, ValidNodes, ByteAt, FlushNode, NodeInRange;
    var d := Flush(c, k, keep);
    forall j | 0 <= j < |d.slots| ensures Agrees(d, j) {
      FlushAgrees(c, k, keep, j);
    }
    FlushNodesOk(c, k, keep);
    forall a: Assignment ensures Contents(d, a) == Contents(c, a) {
      forall j | 0 <= j < |d.slots| ensures ByteAt(d, j, a) == ByteAt(c, j, a) {
        FlushByte(c, k, keep, j, a);
      }
    }
  }

  // ------------------------------------------------- writes at unknown positions

  function Extend(c: Cache, n: UpdateNode): Cache {
    c.(nodes := [n] + c.nodes)
  }

  /** With nothing cached, a write to the list writes wherever its index points. */
  lemma ExtendOk(c: Cache, n: UpdateNode)
    requires Ok(c) && Drained(c) && ValidNode(n) && NodeInRange(n, |c.slots|)
    ensures Ok(Extend(c, n)) && Drained(Extend(c, n))
    ensures forall a: Assignment ::
      Contents(Extend(c, n), a) == SetByte(Contents(c, a), Eval(n.index, a), Eval(n.value, a))
  {
    hide Width, Pow2, Eval, EvalNodes;
    var d := Extend(c, n);
    assert Root(d) == Root(c);
    forall a: Assignment ensures Contents(d, a) == SetByte(Contents(c, a), Eval(n.index, a), Eval(n.value, a)) {
      forall j | 0 <= j < |d.slots|
        ensures ByteAt(d, j, a) == if Eval(n.index, a) == j then Eval(n.value, a) else ByteAt(c, j, a)
      {
        Extended(Root(c), n, c.nodes, j, a);
      }
    }
  }

  // ------------------------------------------------- the lazily created constant array

  /** `nodes` is `recent` over `oldest`, and the writes of `oldest` turn an all-zero
      array into `contents`. */
  ghost predicate Absorbed(size: nat, oldest: seq<UpdateNode>, contents: seq<nat>) {
    |contents| == size && (forall i :: 0 <= i < size ==> contents[i] < 256)
    && forall k, a: Assignment :: 0 <= k < size ==>
         EvalNodes(ZeroArray(size), oldest, k, a) == contents[k]
  }

  lemma NothingAbsorbed(size: nat, contents: seq<nat>)
    requires contents == seq(size, i => 0)
    ensures Absorbed(size, [], contents)
  {
  }

  lemma AbsorbOne(size: nat, n: UpdateNode, oldest: seq<UpdateNode>, contents: seq<nat>)
    requires Absorbed(size, oldest, contents) && ValidNode(n)
    requires n.index.Constant? && n.value.Constant? && n.index.value < size
    ensures n.value.value < 256
    ensures Absorbed(size, [n] + oldest, contents[n.index.value := n.value.value])
  {
    hide EvalNodes;
    assert Pow2(8) == 256;
    forall k, a: Assignment | 0 <= k < size
      ensures EvalNodes(ZeroArray(size), [n] + oldest, k, a)
           == contents[n.index.value := n.value.value][k]
    {
      Extended(ZeroArray(size), n, oldest, k, a);
    }
  }

  /** Writes see the base only through the byte they leave alone. */
  lemma {:induction false} Rebased(r: Array, oldest: seq<UpdateNode>, r': Array, recent: seq<UpdateNode>, k: nat, a: Assignment)
    requires EvalNodes(r, oldest, k, a) == InitialByte(r', k, a)
    ensures EvalNodes(r, recent + oldest, k, a) == EvalNodes(r', recent, k, a)
  {
    hide Eval, InitialByte;
    if recent == [] {
      assert recent + oldest == oldest;
    } else {
      assert recent + oldest == [recent[0]] + (recent[1..] + oldest);
      Extended(r, recent[0], recent[1..] + oldest, k, a);
      Rebased(r, oldest, r', recent[1..], k, a);
    }
  }

  function Rooted(c: Cache, contents: seq<nat>, recent: seq<UpdateNode>): Cache {
    Cache(c.slots, Some(Array("const_arr", contents)), recent)
  }

  lemma RootedListed(c: Cache, oldest: seq<UpdateNode>, contents: seq<nat>, recent: seq<UpdateNode>, k: nat, a: Assignment)
    requires c.root.None? && c.nodes == recent + oldest && Absorbed(|c.slots|, oldest, contents)
    requires k < |c.slots|
    ensures Listed(Rooted(c, contents, recent), k, a) == Listed(c, k, a)
  {
    hide EvalNodes;
    Rebased(Root(c), oldest, Array("const_arr", contents), recent, k, a);
  }

  /** Creating the constant array changes no readable byte. */
  lemma RootedOk(c: Cache, oldest: seq<UpdateNode>, contents: seq<nat>, recent: seq<UpdateNode>)
    requires Ok(c) && c.root.None? && c.nodes == recent + oldest && Absorbed(|c.slots|, oldest, contents)
    ensures Ok(Rooted(c, contents, recent)) && SameContents(Rooted(c, contents, recent), c)
  {
    hide Width, Pow2, Listed, Eval, ValidNode, NodeInRange, SlotOk;
    var d := Rooted(c, contents, recent);
    forall k, a: Assignment | 0 <= k < |c.slots|
      ensures Listed(d, k, a) == Listed(c, k, a) && ByteAt(d, k, a) == ByteAt(c, k, a)
    {
      RootedListed(c, oldest, contents, recent, k, a);
    }
    forall k | 0 <= k < |d.slots| ensures Agrees(d, k) {
      assert Agrees(c, k);
    }
    forall i | 0 <= i < |recent| ensures ValidNode(recent[i]) && NodeInRange(recent[i], |c.slots|) {
      assert c.nodes[i] == recent[i];
    }
  }
}
