/**
 `ObjectState`: one memory object of the symbolic machine. Its buffers and masks
 are allocated on demand; `cache` is the value they encode, and every method says
 what happens to the byte array that value stands for under each assignment.
 */
module Memory {
  import opened Bits
  import opened Exprs
  import opened LogicConstructors
  import opened SliceConstructors
  import opened LinearConstructors
  import opened Constructors
  import opened ByteArrays
  import opened ByteCache

  class ObjectState {
    const size: nat
    const concreteStore: array<nat>

    /** Absent means that every byte is concrete. */
    var concreteMask: array?<bool>

    /** False marks a flushed byte; absent means that no byte is flushed. */
    var flushMask: array?<bool>

    var knownSymbolics: array?<Option<Expr>>

    /** The update list; its root is absent until first needed. */
    var root: Option<Array>
    var nodes: seq<UpdateNode>

    /** The epoch of the address space that may write to this object in place. */
    var copyOnWriteOwner: nat

    var readOnly: bool

    /** What the buffers and masks encode. */
    ghost var cache: Cache

    /** The arrays the object owns. */
    ghost function Buffers(): set<object>
      reads this`concreteMask, this`flushMask, this`knownSymbolics
    {
      var store: set<object> := {concreteStore};
      var mask: set<object> := if concreteMask != null then {concreteMask} else {};
      var flushed: set<object> := if flushMask != null then {flushMask} else {};
      var known: set<object> := if knownSymbolics != null then {knownSymbolics} else {};
      store + mask + flushed + known
    }

    predicate IsByteConcrete(k: nat)
      requires k < size && (concreteMask != null ==> concreteMask.Length == size)
      reads this`concreteMask, concreteMask
    {
      concreteMask == null || concreteMask[k]
    }

    predicate IsByteFlushed(k: nat)
      requires k < size && (flushMask != null ==> flushMask.Length == size)
      reads this`flushMask, flushMask
    {
      flushMask != null && !flushMask[k]
    }

    function KnownSymbolic(k: nat): Option<Expr>
      requires k < size && (knownSymbolics != null ==> knownSymbolics.Length == size)
      reads this`knownSymbolics, knownSymbolics
    {
      if knownSymbolics == null then None else knownSymbolics[k]
    }

    /** The buffers and masks encode `cache`. */
    ghost predicate Rep()
      reads this`concreteMask, this`flushMask, this`knownSymbolics, this`root, this`nodes, this`cache,
            concreteStore, concreteMask, flushMask, knownSymbolics
    {
      concreteStore.Length == size && |cache.slots| == size
      && (concreteMask != null ==> concreteMask.Length == size)
      && (flushMask != null ==> flushMask.Length == size)
      && (knownSymbolics != null ==> knownSymbolics.Length == size)
      && (concreteMask != null ==> concreteMask != flushMask)
      && cache.root == root && cache.nodes == nodes
      && forall k :: 0 <= k < size ==>
           cache.slots[k] == Slot(concreteStore[k], IsByteConcrete(k), IsByteFlushed(k), KnownSymbolic(k))
    }

    ghost predicate Valid()
      reads this`concreteMask, this`flushMask, this`knownSymbolics, this`root, this`nodes, this`cache,
            concreteStore, concreteMask, flushMask, knownSymbolics
    {
      Rep() && Ok(cache)
    }

    // --------------------------------------------------------------- construction

    /** A concrete object; `bytes` is what its fresh buffer happens to hold. */
    constructor (bytes: seq<nat>)
      requires |bytes| <= Pow2(INT32) && forall i :: 0 <= i < |bytes| ==> bytes[i] < 256
      ensures Valid() && fresh(Buffers()) && size == |bytes|
      ensures copyOnWriteOwner == 0 && !readOnly
      ensures forall a: Assignment :: Contents(cache, a) == bytes
      ensures AllConcrete(cache, 0, size)
    {
      hide Pow2, Width;
      size := |bytes|;
      concreteStore := new nat[|bytes|](i requires 0 <= i < |bytes| => bytes[i]);
      concreteMask, flushMask, knownSymbolics := null, null, null;
      root, nodes := None, [];
      copyOnWriteOwner, readOnly := 0, false;
      cache := Cache(seq(|bytes|, i requires 0 <= i < |bytes| => Slot(bytes[i], true, false, None)), None, []);
    }

    /** An object whose bytes are those of an array, whatever its buffer holds. */
    constructor Symbolic(bytes: Array, size: nat)
      requires size <= Pow2(INT32) && ValidArray(bytes)
      ensures Valid() && fresh(Buffers()) && this.size == size
      ensures copyOnWriteOwner == 0 && !readOnly
      ensures forall a: Assignment, k :: 0 <= k < size ==> Contents(cache, a)[k] == InitialByte(bytes, k, a)
    {
      hide Pow2, Width;
      this.size := size;
      concreteStore := new nat[size](i => 0);
      concreteMask, flushMask, knownSymbolics := null, null, null;
      root, nodes := Some(bytes), [];
      copyOnWriteOwner, readOnly := 0, false;
      cache := Cache(seq(size, i => Slot(0, true, false, None)), Some(bytes), []);
      new;
      MakeSymbolic();
    }

    /** A copy shares no buffer with the original. */
    constructor Copy(os: ObjectState)
      requires os.Valid() && !os.readOnly
      ensures Valid() && fresh(Buffers()) && size == os.size && cache == os.cache
      ensures copyOnWriteOwner == 0 && !readOnly
    {
      hide Ok;
      var store, mask, flushed, known := os.CopyBuffers();
      size, concreteStore := os.size, store;
      concreteMask, flushMask, knownSymbolics := mask, flushed, known;
      root, nodes := os.root, os.nodes;
      copyOnWriteOwner, readOnly := 0, false;
      cache := os.cache;
    }

    method CopyBuffers()
      returns (store: array<nat>, mask: array?<bool>, flushed: array?<bool>, known: array?<Option<Expr>>)
      requires Rep()
      ensures fresh(store) && store.Length == size
      ensures mask != null ==> fresh(mask) && mask.Length == size && mask != flushed
      ensures flushed != null ==> fresh(flushed) && flushed.Length == size
      ensures known != null ==> fresh(known) && known.Length == size
      ensures forall k :: 0 <= k < size ==>
        cache.slots[k] == Slot(store[k], mask == null || mask[k], flushed != null && !flushed[k],
                               if known == null then None else known[k])
    {
      store := CopyBuffer(concreteStore);
      mask := CopyBuffer(concreteMask);
      flushed := CopyBuffer(flushMask);
      known := CopyBuffer(knownSymbolics);
    }

    /** Marking a first byte as flushed marks them all: the fresh mask is all clear. */
    method MarkByteFlushed(k: nat)
      requires Rep() && k < size
      modifies this`concreteMask, this`flushMask, this`knownSymbolics, this`root, this`nodes, this`cache, Buffers()
      ensures Rep() && fresh(Buffers() - old(Buffers()))
      ensures cache == if old(flushMask) == null then AllFlushed(old(cache))
                       else old(SetSlot(cache, k, cache.slots[k].(flushed := true)))
    {
      if flushMask == null {
        flushMask := new bool[size](i => false);
        cache := AllFlushed(cache);
      } else {
        flushMask[k] := false;
        cache := SetSlot(cache, k, cache.slots[k].(flushed := true));
      }
    }

    method MakeSymbolic()
      requires Rep() && nodes == []
      modifies this`concreteMask, this`flushMask, this`knownSymbolics, this`root, this`nodes, this`cache, Buffers()
      ensures Rep() && fresh(Buffers() - old(Buffers()))
      ensures cache.root == old(cache.root) && cache.nodes == []
      ensures forall k :: 0 <= k < size ==> cache.slots[k] == old(Slot(cache.slots[k].store, false, true, None))
    {
      var i := 0;
      while i < size
        invariant 0 <= i <= size && Rep() && fresh(Buffers() - old(Buffers()))
        invariant cache.root == old(cache.root) && cache.nodes == []
        invariant forall k :: 0 <= k < size ==> cache.slots[k].store == old(cache.slots[k].store)
        invariant forall k :: 0 <= k < i ==> cache.slots[k] == old(Slot(cache.slots[k].store, false, true, None))
      {
        MakeByteSymbolic(i);
        i := i + 1;
      }
    }

    method MakeByteSymbolic(k: nat)
      requires Rep() && k < size
      modifies this`concreteMask, this`flushMask, this`knownSymbolics, this`root, this`nodes, this`cache, Buffers()
      ensures Rep() && fresh(Buffers() - old(Buffers())) && cache.root == old(cache.root) && cache.nodes == old(cache.nodes)
      ensures cache.slots[k] == old(Slot(cache.slots[k].store, false, true, None))
      ensures forall j :: 0 <= j < size && j != k ==>
        (cache.slots[j] == old(cache.slots[j]) || cache.slots[j] == old(cache.slots[j]).(flushed := true))
    {
      MarkByteSymbolic(k);
      SetKnownSymbolic(k, None);
      MarkByteFlushed(k);
    }

    // ------------------------------------------------------------------ the masks

    method MarkByteConcrete(k: nat)
      requires Rep() && k < size
      modifies this`concreteMask, this`flushMask, this`knownSymbolics, this`root, this`nodes, this`cache, Buffers()
      ensures Rep() && Buffers() == old(Buffers())
      ensures cache == old(SetSlot(cache, k, cache.slots[k].(concrete := true)))
    {
      if concreteMask != null {
        concreteMask[k] := true;
      }
      cache := SetSlot(cache, k, cache.slots[k].(concrete := true));
    }

    method MarkByteSymbolic(k: nat)
      requires Rep() && k < size
      modifies this`concreteMask, this`flushMask, this`knownSymbolics, this`root, this`nodes, this`cache, Buffers()
      ensures Rep() && fresh(Buffers() - old(Buffers())) && flushMask == old(flushMask)
      ensures cache == old(SetSlot(cache, k, cache.slots[k].(concrete := false)))
    {
      if concreteMask == null {
        concreteMask := new bool[size](i => true);
      }
      concreteMask[k] := false;
      cache := SetSlot(cache, k, cache.slots[k].(concrete := false));
    }

    method MarkByteUnflushed(k: nat)
      requires Rep() && k < size
      modifies this`concreteMask, this`flushMask, this`knownSymbolics, this`root, this`nodes, this`cache, Buffers()
      ensures Rep() && Buffers() == old(Buffers())
      ensures cache == old(SetSlot(cache, k, cache.slots[k].(flushed := false)))
    {
      if flushMask != null {
        flushMask[k] := true;
      }
      cache := SetSlot(cache, k, cache.slots[k].(flushed := false));
    }

    method SetConcreteStore(k: nat, value: nat)
      requires Rep() && k < size
      modifies concreteStore, this`cache
      ensures Rep() && Buffers() == old(Buffers())
      ensures cache == old(SetSlot(cache, k, cache.slots[k].(store := value)))
    {
      concreteStore[k] := value;
      cache := SetSlot(cache, k, cache.slots[k].(store := value));
    }

    method SetKnownSymbolic(k: nat, value: Option<Expr>)
      requires Rep() && k < size
      modifies this`concreteMask, this`flushMask, this`knownSymbolics, this`root, this`nodes, this`cache, Buffers()
      ensures Rep() && fresh(Buffers() - old(Buffers())) && flushMask == old(flushMask)
      ensures cache == old(SetSlot(cache, k, cache.slots[k].(known := value)))
    {
      if knownSymbolics != null {
        knownSymbolics[k] := value;
      } else if value.Some? {
        knownSymbolics := new Option<Expr>[size](i => None);
        knownSymbolics[k] := value;
      }
      cache := SetSlot(cache, k, cache.slots[k].(known := value));
    }

    // ------------------------------------------------------------------- flushing

    method ExtendUpdates(index: Expr, value: Expr)
      requires Rep()
      modifies this`nodes, this`cache
      ensures Rep() && Buffers() == old(Buffers())
      ensures cache == old(Extend(cache, UpdateNode(index, value)))
    {
      nodes := [UpdateNode(index, value)] + nodes;
      cache := cache.(nodes := nodes);
    }

    /** Before the first flush nothing is flushed. */
    method EnsureFlushMask()
      requires Rep()
      modifies this`flushMask
      ensures Rep() && flushMask != null && cache == old(cache)
      ensures fresh(Buffers() - old(Buffers()))
    {
      if flushMask == null {
        flushMask := new bool[size](i => true);
      }
    }

    method UnsetFlushMask(k: nat)
      requires Rep() && k < size && flushMask != null
      modifies this`concreteMask, this`flushMask, this`knownSymbolics, this`root, this`nodes, this`cache, Buffers()
      ensures Rep() && Buffers() == old(Buffers()) && flushMask != null
      ensures cache == old(SetSlot(cache, k, cache.slots[k].(flushed := true)))
    {
      flushMask[k] := false;
      cache := SetSlot(cache, k, cache.slots[k].(flushed := true));
    }

    /** Flushes one byte and keeps its cached value. */
    method FlushByteForRead(k: nat)
      requires Valid() && k < size && flushMask != null
      modifies this`concreteMask, this`flushMask, this`knownSymbolics, this`root, this`nodes, this`cache, Buffers()
      ensures Rep() && fresh(Buffers() - old(Buffers())) && flushMask != null
      ensures SlotOk(old(cache).slots[k]) && cache == Flush(old(cache), k, true)
    {
      hide Ok, Width, Pow2;
      SlotIsOk(cache, k);
      if !IsByteFlushed(k) {
        if IsByteConcrete(k) {
          ExtendUpdates(Constant(k, INT32), Constant(concreteStore[k], INT8));
        } else {
          ExtendUpdates(Constant(k, INT32), KnownSymbolic(k).value);
        }
        UnsetFlushMask(k);
      }
    }

    /** Flushes one byte and forgets its cached value. */
    method FlushByteForWrite(k: nat)
      requires Valid() && k < size && flushMask != null
      modifies this`concreteMask, this`flushMask, this`knownSymbolics, this`root, this`nodes, this`cache, Buffers()
      ensures Rep() && fresh(Buffers() - old(Buffers())) && flushMask != null
      ensures SlotOk(old(cache).slots[k]) && cache == Flush(old(cache), k, false)
    {
      hide Ok, Width, Pow2;
      SlotIsOk(cache, k);
      if !IsByteFlushed(k) {
        if IsByteConcrete(k) {
          ExtendUpdates(Constant(k, INT32), Constant(concreteStore[k], INT8));
          MarkByteSymbolic(k);
        } else {
          ExtendUpdates(Constant(k, INT32), KnownSymbolic(k).value);
          SetKnownSymbolic(k, None);
        }
        UnsetFlushMask(k);
      } else if IsByteConcrete(k) {
        MarkByteSymbolic(k);
      } else if KnownSymbolic(k).Some? {
        SetKnownSymbolic(k, None);
      }
    }

    /** Puts every byte on the update list; the meaning does not change. */
    method FlushForRead()
      requires Valid()
      modifies this`concreteMask, this`flushMask, this`knownSymbolics, this`root, this`nodes, this`cache, Buffers()
      ensures Valid() && fresh(Buffers() - old(Buffers()))
      ensures SameContents(cache, old(cache)) && FlushedBelow(old(cache), cache, size)
    {
      hide Ok, SameContents, Flush, SlotOk, Rep, FlushedBelow;
      SlotCount();
      EnsureFlushMask();
      SlotCount();
      SameContentsRefl(cache);
      NoneFlushed(cache);
      var k := 0;
      while k < size
        invariant 0 <= k <= size && flushMask != null
        invariant Valid() && fresh(Buffers() - old(Buffers()))
        invariant SameContents(cache, old(cache)) && FlushedBelow(old(cache), cache, k)
      {
        ghost var c := cache;
        SlotCount();
        SlotIsOk(c, k);
        FlushByteForRead(k);
        FlushOk(c, k, true);
        FlushedNext(old(cache), c, k);
        SameContentsTrans(cache, c, old(cache));
        k := k + 1;
      }
    }

    method FlushForWrite()
      requires Valid()
      modifies this`concreteMask, this`flushMask, this`knownSymbolics, this`root, this`nodes, this`cache, Buffers()
      ensures Valid() && fresh(Buffers() - old(Buffers()))
      ensures SameContents(cache, old(cache)) && Drained(cache)
    {
      hide Ok, SameContents, Flush, SlotOk;
      EnsureFlushMask();
      SameContentsRefl(cache);
      var k := 0;
      while k < size
        invariant 0 <= k <= size && flushMask != null
        invariant Valid() && fresh(Buffers() - old(Buffers()))
        invariant SameContents(cache, old(cache))
        invariant forall j :: 0 <= j < k ==> cache.slots[j].flushed && !Cached(cache.slots[j])
      {
        ghost var c := cache;
        FlushByteForWrite(k);
        FlushOk(c, k, false);
        FlushSlots(c, k, false);
        SameContentsTrans(cache, c, old(cache));
        k := k + 1;
      }
    }

    // ------------------------------------------------- the lazily created array

    /** Creates the backing constant array if there is none: as many of the oldest
        writes as are constant go into it, the others stay on the list. */
    method GetUpdates() returns (ul: UpdateList)
      requires Valid()
      modifies this`root, this`nodes, this`cache
      ensures Valid() && Buffers() == old(Buffers()) && cache.slots == old(cache.slots)
      ensures SameContents(cache, old(cache))
      ensures root == Some(ul.root) && nodes == ul.nodes
    {
      hide Ok, Width, Pow2, SameContents, Absorbed, ValidNode, NodeInRange;
      SameContentsRefl(cache);
      if root.None? {
        ghost var c := cache;
        NodesAreOk(c);
        var writes, n := nodes, |nodes|;
        var contents, begin := AbsorbConstants(writes, size);
        var recent := Replay(writes, begin);
        root, nodes := Some(Array("const_arr", contents)), recent;
        cache := Rooted(c, contents, recent);
        assert writes == recent + writes[n - begin..];
        RootedOk(c, writes[n - begin..], contents, recent);
      }
      ul := UpdateList(root.value, nodes);
    }

    // ----------------------------------------------------------- single bytes

    /** Reads the byte at a constant offset. */
    method Read8(k: nat) returns (e: Expr)
      requires Valid() && k < size
      modifies this`root, this`nodes, this`cache
      ensures Valid() && Buffers() == old(Buffers()) && SameContents(cache, old(cache))
      ensures Width(e) == INT8
      ensures forall a: Assignment :: Eval(e, a) == Contents(cache, a)[k]
      ensures cache.slots == old(cache.slots)
      ensures cache.slots[k].concrete ==> e == Constant(cache.slots[k].store, INT8)
      ensures !cache.slots[k].concrete && cache.slots[k].known.Some? ==> e == cache.slots[k].known.value
    {
      hide Ok, SameContents, Width, Eval, Pow2, Listed;
      SlotIsOk(cache, k);
      SameContentsRefl(cache);
      if IsByteConcrete(k) {
        e := Constant(concreteStore[k], INT8);
        ConcreteByteRead(concreteStore[k]);
      } else if KnownSymbolic(k).Some? {
        e := KnownSymbolic(k).value;
      } else {
        var ul := GetUpdates();
        e := ReadCreateLoop(ul, Constant(k, INT32));
        ConstantOffset(cache, k);
        ReadListed(cache, Constant(k, INT32));
      }
    }

    /** Reads the byte at an offset that is not a constant. Wherever the offset is in
        bounds, the result is the byte there. */
    method Read8At(offset: Expr) returns (e: Expr)
      requires Valid() && !offset.Constant? && Width(offset) == INT32
      modifies this`concreteMask, this`flushMask, this`knownSymbolics, this`root, this`nodes, this`cache, Buffers()
      ensures Valid() && fresh(Buffers() - old(Buffers())) && SameContents(cache, old(cache))
      ensures Width(e) == INT8
      ensures ReadsByte(cache, offset, e)
      ensures FlushedBelow(old(cache), cache, size)
    {
      hide Ok, SameContents, Width, Eval, Pow2, Listed, ExtendCreate;
      FlushForRead();
      ghost var c := cache;
      var ul := GetUpdates();
      SameContentsTrans(cache, c, old(cache));
      var index := ExtendCreate(ZExt(INT32), offset);
      OffsetSame(offset);
      e := ReadCreateLoop(ul, index);
      ReadListed(cache, index);
      forall a: Assignment | Eval(offset, a) < size
        ensures Eval(e, a) == Contents(cache, a)[Eval(offset, a)]
      {
        FlushedByte(cache, Eval(offset, a), a);
      }
    }

    method Write8(k: nat, value: nat)
      requires Valid() && k < size && value < 256
      modifies this`concreteMask, this`flushMask, this`knownSymbolics, this`root, this`nodes, this`cache, Buffers()
      ensures Valid() && fresh(Buffers() - old(Buffers()))
      ensures forall a: Assignment :: Contents(cache, a) == Contents(old(cache), a)[k := value]
      ensures cache == PutConcrete(old(cache), k, value)
    {
      hide Ok, Contents, SetSlot;
      ghost var c := cache;
      SetConcreteStore(k, value);
      ghost var s := cache.slots[k];
      SetKnownSymbolic(k, None);
      MarkByteConcrete(k);
      MarkByteUnflushed(k);
      SetSlotAgain(c, k, s, s.(known := None));
      SetSlotAgain(c, k, s.(known := None), Slot(value, true, s.flushed, None));
      SetSlotAgain(c, k, Slot(value, true, s.flushed, None), Slot(value, true, false, None));
      PutConcreteOk(c, k, value);
    }

    method Write8Value(k: nat, value: Expr)
      requires Valid() && k < size && Width(value) == INT8
      modifies this`concreteMask, this`flushMask, this`knownSymbolics, this`root, this`nodes, this`cache, Buffers()
      ensures Valid() && fresh(Buffers() - old(Buffers()))
      ensures forall a: Assignment :: Contents(cache, a) == Contents(old(cache), a)[k := Eval(value, a)]
      ensures cache == if value.Constant? then PutConcrete(old(cache), k, value.value) else PutSymbolic(old(cache), k, value)
    {
      hide Ok, Contents, Width, Pow2, SetSlot;
      ghost var c := cache;
      if value.Constant? {
        ByteConstantRange(value);
        Write8(k, value.value);
      } else {
        SetKnownSymbolic(k, Some(value));
        ghost var s := cache.slots[k];
        MarkByteSymbolic(k);
        MarkByteUnflushed(k);
        SetSlotAgain(c, k, s, s.(concrete := false));
        SetSlotAgain(c, k, s.(concrete := false), s.(concrete := false, flushed := false));
        PutSymbolicOk(c, k, value);
      }
    }

    /** Writes a byte at an offset that is not a constant. */
    method Write8At(offset: Expr, value: Expr)
      requires Valid() && !offset.Constant? && Width(offset) == INT32 && Width(value) == INT8
      modifies this`concreteMask, this`flushMask, this`knownSymbolics, this`root, this`nodes, this`cache, Buffers()
      ensures Valid() && fresh(Buffers() - old(Buffers()))
      ensures forall a: Assignment ::
        Contents(cache, a) == SetByte(Contents(old(cache), a), Eval(offset, a), Eval(value, a))
    {
      hide Ok, Contents, Width, Eval, Pow2, ExtendCreate, Drained;
      FlushForWrite();
      ghost var c := cache;
      var index := ExtendCreate(ZExt(INT32), offset);
      OffsetSame(offset);
      ExtendUpdates(index, value);
      ExtendOk(c, UpdateNode(index, value));
    }

    // --------------------------------------------------------- multi-byte accesses

    /** Reads `width` bits at a constant offset. */
    method ReadAt(k: nat, width: nat, littleEndian: bool) returns (e: Expr)
      requires Valid() && AccessFits(k, width, size)
      modifies this`root, this`nodes, this`cache
      ensures Valid() && Buffers() == old(Buffers()) && SameContents(cache, old(cache))
      ensures Width(e) == width
      ensures forall a: Assignment :: Eval(e, a) == Loaded(Contents(cache, a), k, width, littleEndian)
      ensures AllConcrete(cache, k, Touched(width)) ==> e.Constant?
    {
      hide Ok, SameContents, Width, Eval, Pow2, ExtractCreate, Contents, ReadSome;
      if width == BOOL {
        var byte := Read8(k);
        e := ExtractCreate(byte, 0, BOOL);
        LowBit(byte);
        if byte.Constant? {
          ExtractOfConstant(byte, 0, BOOL);
        }
      } else {
        e := ReadBytes(k, width / 8, littleEndian);
      }
    }

    method ReadBytes(k: nat, n: nat, littleEndian: bool) returns (e: Expr)
      requires Valid() && 0 < n && k + n <= size
      modifies this`root, this`nodes, this`cache
      ensures Valid() && Buffers() == old(Buffers()) && SameContents(cache, old(cache))
      ensures Width(e) == 8 * n
      ensures forall a: Assignment :: Eval(e, a) == ReadValue(Contents(cache, a), k, n, littleEndian)
      ensures AllConcrete(cache, k, n) ==> e.Constant?
    {
      hide Ok, Width, Eval, Pow2, ConcatCreate, Contents, ReadSome, Rep;
      SlotCount();
      e := Read8(k + Position(littleEndian, n, 0));
      SlotCount();
      ghost var c := cache;
      FirstByte(c, e, k, n, littleEndian);
      var i := 1;
      while i < n
        invariant 1 <= i <= n
        invariant Valid() && Buffers() == old(Buffers())
        invariant SameContents(cache, c) && SameContents(cache, old(cache)) && cache.slots == c.slots
        invariant Width(e) == 8 * i && (AllConcrete(cache, k, n) ==> e.Constant?)
        invariant forall a: Assignment :: Eval(e, a) == ReadSome(Contents(c, a), k, n, littleEndian, i)
      {
        ghost var d := cache;
        SlotCount();
        var byte := Read8(k + Position(littleEndian, n, i));
        SlotCount();
        NextByte(c, byte, e, k, n, littleEndian, i);
        if byte.Constant? && e.Constant? {
          ConcatOfConstants(byte, e);
        }
        e := ConcatCreate(byte, e);
        i := i + 1;
      }
    }

    /** Reads `width` bits at any offset, which is first cut to 32 bits. Wherever the
        access is in bounds, the result is what a plain byte array would give. */
    method Load(offset: Expr, width: nat, littleEndian: bool) returns (e: Expr)
      requires Valid() && Width(offset) > 0 && Accessible(width) && Touched(width) <= size
      requires LinearForm(Offset32(offset))
      requires Offset32(offset).Constant? ==> AccessFits(Offset32(offset).value, width, size)
      modifies this`concreteMask, this`flushMask, this`knownSymbolics, this`root, this`nodes, this`cache, Buffers()
      ensures Valid() && fresh(Buffers() - old(Buffers())) && SameContents(cache, old(cache))
      ensures Width(e) == width
      ensures Loads(cache, e, offset, width, littleEndian)
    {
      hide Ok, SameContents, Width, Eval, Pow2, ExtractCreate, Contents, ReadSome, LinearForm, Offset32, Loads,
           Loaded;
      var offset32 := Offset32(offset);
      Offset32Ok(offset);
      if offset32.Constant? {
        e := ReadAt(offset32.value, width, littleEndian);
        LoadsAt(cache, e, offset, width, littleEndian);
      } else if width == BOOL {
        var byte := Read8At(offset32);
        e := ExtractCreate(byte, 0, BOOL);
        LoadsBool(cache, byte, offset, littleEndian);
      } else {
        e := LoadBytes(offset32, width / 8, littleEndian);
        LoadsBytes(cache, e, offset, width, littleEndian);
      }
    }

    lemma SlotCount()
      requires Valid()
      ensures |cache.slots| == size && Ok(cache)
    {
    }

    method LoadBytes(offset: Expr, n: nat, littleEndian: bool) returns (e: Expr)
      requires Valid() && 0 < n <= size && !offset.Constant? && Width(offset) == INT32 && LinearForm(offset)
      modifies this`concreteMask, this`flushMask, this`knownSymbolics, this`root, this`nodes, this`cache, Buffers()
      ensures Valid() && fresh(Buffers() - old(Buffers())) && SameContents(cache, old(cache))
      ensures Width(e) == 8 * n
      ensures LoadsSome(cache, e, offset, n, littleEndian, n)
    {
      hide Ok, Width, Eval, Pow2, ConcatCreate, LoadsSome, ReadsByte, LinearForm, AddCreate, SameContents, Contents,
           Indexes, Rep;
      SlotCount();
      IndexOk(cache, offset, n, littleEndian, 0);
      var index := AddCreate(offset, Constant(Position(littleEndian, n, 0), INT32));
      e := Read8At(index);
      SlotCount();
      ghost var c := cache;
      LoadsFirst(c, offset, index, e, n, littleEndian);
      SameContentsRefl(c);
      var i := 1;
      while i < n
        invariant 1 <= i <= n
        invariant Valid() && fresh(Buffers() - old(Buffers()))
        invariant SameContents(cache, c) && SameContents(cache, old(cache))
        invariant Width(e) == 8 * i && LoadsSome(c, e, offset, n, littleEndian, i)
      {
        ghost var d := cache;
        SlotCount();
        IndexOk(cache, offset, n, littleEndian, i);
        index := AddCreate(offset, Constant(Position(littleEndian, n, i), INT32));
        var byte := Read8At(index);
        SlotCount();
        SameContentsTrans(cache, d, c);
        SameContentsTrans(cache, d, old(cache));
        ReadsSame(cache, c, index, byte);
        LoadsNext(c, offset, index, byte, e, n, littleEndian, i);
        e := ConcatCreate(byte, e);
        i := i + 1;
      }
      SlotCount();
      LoadsSame(c, cache, e, offset, n, littleEndian, n);
    }

    /** Writes at a constant offset. Constants of up to 64 bits have a path of their
        own, which knows only the usual widths. */
    method WriteAt(k: nat, value: Expr, littleEndian: bool)
      requires Valid() && Width(value) > 0 && AccessFits(k, Width(value), size)
      requires value.Constant? && value.width <= 64 ==> value.width in {1, 8, 16, 32, 64}
      modifies this`concreteMask, this`flushMask, this`knownSymbolics, this`root, this`nodes, this`cache, Buffers()
      ensures Valid() && fresh(Buffers() - old(Buffers()))
      ensures forall a: Assignment ::
        Contents(cache, a) == Stored(Contents(old(cache), a), k, Width(value), Eval(value, a), littleEndian)
      ensures value.Constant? ==> AllConcrete(cache, k, Touched(Width(value)))
    {
      hide Ok, Width, Eval, Pow2, Contents, WriteSome, ExtendCreate;
      if value.Constant? {
        ConstantValue(value);
      }
      if value.Constant? && value.width <= 64 {
        match value.width
        case 1 => Write8(k, value.value);
        case 8 => WriteConstant(k, value.value, 1, littleEndian);
        case 16 => WriteConstant(k, value.value, 2, littleEndian);
        case 32 => WriteConstant(k, value.value, 4, littleEndian);
        case 64 => WriteConstant(k, value.value, 8, littleEndian);
      } else if Width(value) == BOOL {
        BoolByte(value);
        Write8Value(k, ExtendCreate(ZExt(INT8), value));
      } else {
        WriteBytes(k, value, Width(value) / 8, littleEndian);
      }
    }

    /** The `write16`, `write32` and `write64` loops. */
    method WriteConstant(k: nat, v: nat, n: nat, littleEndian: bool)
      requires Valid() && k + n <= size
      modifies this`concreteMask, this`flushMask, this`knownSymbolics, this`root, this`nodes, this`cache, Buffers()
      ensures Valid() && fresh(Buffers() - old(Buffers()))
      ensures forall a: Assignment :: Contents(cache, a) == WriteValue(Contents(old(cache), a), k, n, v, littleEndian)
      ensures AllConcrete(cache, k, n)
    {
      hide Ok, Pow2, Contents, WroteAt, ByteOf, Rep;
      SlotCount();
      ghost var c := cache;
      WroteNoneAt(c, k, n, v, littleEndian);
      var i := 0;
      while i < n
        invariant 0 <= i <= n && Valid() && fresh(Buffers() - old(Buffers()))
        invariant WroteAt(c, cache, k, n, v, littleEndian, i)
        invariant SomeConcrete(cache, k, n, littleEndian, i)
      {
        ghost var d := cache;
        SlotCount();
        ByteOfRange(v, i);
        Write8(k + Position(littleEndian, n, i), ByteOf(v, i));
        SlotCount();
        WroteNextAt(c, d, cache, k, n, v, littleEndian, i);
        i := i + 1;
      }
      WroteAllAt(c, cache, k, n, v, littleEndian);
      AllAreConcrete(cache, k, n, littleEndian);
    }

    method WriteBytes(k: nat, value: Expr, n: nat, littleEndian: bool)
      requires Valid() && 0 < n && k + n <= size && Width(value) == 8 * n
      modifies this`concreteMask, this`flushMask, this`knownSymbolics, this`root, this`nodes, this`cache, Buffers()
      ensures Valid() && fresh(Buffers() - old(Buffers()))
      ensures forall a: Assignment ::
        Contents(cache, a) == WriteValue(Contents(old(cache), a), k, n, Eval(value, a), littleEndian)
      ensures value.Constant? ==> AllConcrete(cache, k, n)
    {
      hide Ok, Pow2, Contents, Width, Eval, WroteTo, ExtractCreate, Rep;
      SlotCount();
      ghost var c := cache;
      ghost var offset := Constant(k, INT32);
      WroteNone(c, offset, n, value, littleEndian);
      var i := 0;
      while i < n
        invariant 0 <= i <= n && Valid() && fresh(Buffers() - old(Buffers()))
        invariant WroteTo(c, cache, offset, n, value, littleEndian, i)
        invariant value.Constant? ==> SomeConcrete(cache, k, n, littleEndian, i)
      {
        ghost var d := cache;
        SlotCount();
        if value.Constant? {
          ExtractOfConstant(value, 8 * i, INT8);
        }
        Write8Value(k + Position(littleEndian, n, i), ExtractCreate(value, 8 * i, INT8));
        SlotCount();
        WroteNextConst(c, d, cache, k, n, value, littleEndian, i);
        i := i + 1;
      }
      WroteAllConst(c, cache, k, n, value, littleEndian);
      if value.Constant? {
        AllAreConcrete(cache, k, n, littleEndian);
      }
    }

    /** Writes at any offset, which is first cut to 32 bits. Under every assignment
        the bytes become those of a plain byte array after the same write. */
    method Store(offset: Expr, value: Expr, littleEndian: bool)
      requires Valid() && Width(offset) > 0 && Width(value) > 0
      requires Accessible(Width(value)) && Touched(Width(value)) <= size
      requires LinearForm(Offset32(offset))
      requires Offset32(offset).Constant? ==>
        (AccessFits(Offset32(offset).value, Width(value), size)
         && (value.Constant? && value.width <= 64 ==> value.width in {1, 8, 16, 32, 64}))
      modifies this`concreteMask, this`flushMask, this`knownSymbolics, this`root, this`nodes, this`cache, Buffers()
      ensures Valid() && fresh(Buffers() - old(Buffers()))
      ensures Stores(old(cache), cache, offset, value, littleEndian)
    {
      hide Ok, Width, Eval, Pow2, Contents, WriteSome, ExtendCreate, Offset32, LinearForm, Stores, Stored;
      ghost var c := cache;
      var offset32 := Offset32(offset);
      Offset32Ok(offset);
      if offset32.Constant? {
        WriteAt(offset32.value, value, littleEndian);
        StoresAt(c, cache, offset, value, littleEndian);
      } else if Width(value) == BOOL {
        BoolByte(value);
        Write8At(offset32, ExtendCreate(ZExt(INT8), value));
        StoresBool(c, cache, offset, value, littleEndian);
      } else {
        StoreBytes(offset32, value, Width(value) / 8, littleEndian);
        StoresBytes(c, cache, offset, value, littleEndian);
      }
    }

    method StoreBytes(offset: Expr, value: Expr, n: nat, littleEndian: bool)
      requires Valid() && 0 < n <= size && !offset.Constant? && Width(offset) == INT32 && LinearForm(offset)
      requires Width(value) == 8 * n
      modifies this`concreteMask, this`flushMask, this`knownSymbolics, this`root, this`nodes, this`cache, Buffers()
      ensures Valid() && fresh(Buffers() - old(Buffers()))
      ensures WroteTo(old(cache), cache, offset, n, value, littleEndian, n)
    {
      hide Ok, Pow2, Contents, Width, Eval, WroteTo, ExtractCreate, LinearForm, AddCreate, Indexes, Rep;
      SlotCount();
      ghost var c := cache;
      WroteNone(c, offset, n, value, littleEndian);
      var i := 0;
      while i < n
        invariant 0 <= i <= n && Valid() && fresh(Buffers() - old(Buffers()))
        invariant WroteTo(c, cache, offset, n, value, littleEndian, i)
      {
        ghost var d := cache;
        SlotCount();
        IndexOk(cache, offset, n, littleEndian, i);
        var index := AddCreate(offset, Constant(Position(littleEndian, n, i), INT32));
        Write8At(index, ExtractCreate(value, 8 * i, INT8));
        SlotCount();
        WroteNext(c, d, cache, index, offset, n, value, littleEndian, i);
        i := i + 1;
      }
    }
  }

  method CopyBuffer<T>(buffer: array?<T>) returns (copy: array?<T>)
    ensures buffer == null ==> copy == null
    ensures buffer != null ==> copy != null && fresh(copy) && copy.Length == buffer.Length
    ensures buffer != null ==> forall i :: 0 <= i < buffer.Length ==> copy[i] == buffer[i]
  {
    if buffer == null {
      return null;
    }
    var contents := buffer[..];
    copy := new T[|contents|](i requires 0 <= i < |contents| => contents[i]);
  }

  /** Runs the oldest writes of a list into an all-zero array for as long as they
      are constant; `begin` counts them. */
  method AbsorbConstants(writes: seq<UpdateNode>, size: nat) returns (contents: seq<nat>, begin: nat)
    requires forall i :: 0 <= i < |writes| ==> ValidNode(writes[i]) && NodeInRange(writes[i], size)
    ensures begin <= |writes|
    ensures Absorbed(size, writes[|writes| - begin..], contents)
    ensures begin < |writes| ==>
      !(writes[|writes| - 1 - begin].index.Constant? && writes[|writes| - 1 - begin].value.Constant?)
  {
    hide Width, Pow2, Absorbed, ValidNode;
    contents := seq(size, i => 0);
    begin := 0;
    var n := |writes|;
    NothingAbsorbed(size, contents);
    assert writes[n..] == [];
    while begin < n && writes[n - 1 - begin].index.Constant? && writes[n - 1 - begin].value.Constant?
      invariant begin <= n && |contents| == size
      invariant Absorbed(size, writes[n - begin..], contents)
    {
      var write := writes[n - 1 - begin];
      assert writes[n - 1 - begin..] == [write] + writes[n - begin..];
      AbsorbOne(size, write, writes[n - begin..], contents);
      contents := contents[write.index.value := write.value.value];
      begin := begin + 1;
    }
  }

  /** Applies all but the `begin` oldest writes again, oldest first. */
  method Replay(writes: seq<UpdateNode>, begin: nat) returns (recent: seq<UpdateNode>)
    requires begin <= |writes|
    ensures recent == writes[..|writes| - begin]
  {
    recent := [];
    var n, k := |writes|, begin;
    while k < n
      invariant begin <= k <= n
      invariant recent == writes[n - k..n - begin]
    {
      recent := [writes[n - 1 - k]] + recent;
      k := k + 1;
    }
  }

  lemma SlotIsOk(c: Cache, k: nat)
    requires Ok(c) && k < |c.slots|
    ensures SlotOk(c.slots[k])
  {
  }

  lemma NodesAreOk(c: Cache)
    requires Ok(c)
    ensures forall i :: 0 <= i < |c.nodes| ==> ValidNode(c.nodes[i]) && NodeInRange(c.nodes[i], |c.slots|)
  {
  }

  lemma FlushSlots(c: Cache, k: nat, keep: bool)
    requires k < |c.slots| && SlotOk(c.slots[k])
    ensures |Flush(c, k, keep).slots| == |c.slots|
    ensures forall j :: 0 <= j < |c.slots| && j != k ==> Flush(c, k, keep).slots[j] == c.slots[j]
    ensures Flush(c, k, keep).slots[k].flushed
    ensures keep ==> Flush(c, k, keep).slots[k] == c.slots[k].(flushed := true)
    ensures !keep ==> !Cached(Flush(c, k, keep).slots[k])
  {
  }

  /** The first `k` bytes have been flushed and are still cached; the others are as they
      were. */
  ghost predicate FlushedBelow(c: Cache, d: Cache, k: nat) {
    |d.slots| == |c.slots|
    && forall j :: 0 <= j < |c.slots| ==> d.slots[j] == if j < k then c.slots[j].(flushed := true) else c.slots[j]
  }

  lemma NoneFlushed(c: Cache)
    ensures FlushedBelow(c, c, 0)
  {
  }

  lemma FlushedNext(c: Cache, d: Cache, k: nat)
    requires FlushedBelow(c, d, k) && k < |d.slots| && SlotOk(d.slots[k])
    ensures FlushedBelow(c, Flush(d, k, true), k + 1)
  {
    FlushSlots(d, k, true);
  }

  lemma SameContentsRefl(c: Cache)
    ensures SameContents(c, c)
  {
  }

  lemma SameContentsTrans(c: Cache, d: Cache, e: Cache)
    requires SameContents(c, d) && SameContents(d, e)
    ensures SameContents(c, e)
  {
    hide Contents;
  }

  lemma ConcreteByteRead(v: nat)
    requires v < 256
    ensures Width(Constant(v, INT8)) == INT8
    ensures forall a: Assignment :: Eval(Constant(v, INT8), a) == v
  {
    ByteConstant(v);
  }

  lemma ByteConstantRange(e: Expr)
    requires e.Constant? && Width(e) == INT8
    ensures e.value < 256
  {
    assert Pow2(8) == 256;
  }

  lemma ConstantOffset(c: Cache, k: nat)
    requires Ok(c) && k < |c.slots|
    ensures Width(Constant(k, INT32)) == INT32
    ensures forall a: Assignment :: Eval(Constant(k, INT32), a) == k
  {
    hide Pow2;
  }

  /** An offset of 32 bits is not cut. */
  lemma OffsetSame(offset: Expr)
    requires Width(offset) == INT32
    ensures ExtendCreate(ZExt(INT32), offset) == offset
  {
  }

  lemma ReadListed(c: Cache, index: Expr)
    requires Ok(c) && c.root.Some? && Width(index) == INT32
    ensures Width(ReadCreate(UpdateList(c.root.value, c.nodes), index)) == INT8
    ensures forall a: Assignment ::
      Eval(ReadCreate(UpdateList(c.root.value, c.nodes), index), a) == Listed(c, Eval(index, a), a)
  {
    hide ReadCreate, Pow2, EvalNodes;
    var ul := UpdateList(c.root.value, c.nodes);
    assert Width(Read(ul, index)) == INT8;
    ReadCreateTyped(ul, index);
    forall a: Assignment ensures Eval(ReadCreate(ul, index), a) == Listed(c, Eval(index, a), a) {
      ReadCreateSound(ul, index, a);
    }
  }

  lemma FlushedByte(c: Cache, k: nat, a: Assignment)
    requires Ok(c) && k < |c.slots| && c.slots[k].flushed
    ensures Listed(c, k, a) == Contents(c, a)[k]
  {
    hide Listed, Eval, Width, Pow2;
    assert Agrees(c, k);
  }

  /** Accesses are one bit or a whole number of bytes wide. */
  predicate Accessible(width: nat) {
    width == BOOL || (0 < width && width % 8 == 0)
  }

  /** How many bytes an access touches. */
  function Touched(width: nat): nat {
    if width == BOOL then 1 else width / 8
  }

  predicate AccessFits(k: nat, width: nat, size: nat) {
    Accessible(width) && k + Touched(width) <= size
  }

  /** These bytes are kept as numbers. */
  ghost predicate AllConcrete(c: Cache, k: nat, n: nat) {
    k + n <= |c.slots| && forall j :: k <= j < k + n ==> c.slots[j].concrete
  }

  /** Those of significance below `m` are, of an access of `n` bytes. */
  ghost predicate SomeConcrete(c: Cache, k: nat, n: nat, littleEndian: bool, m: nat)
    requires m <= n
  {
    k + n <= |c.slots| && forall i :: 0 <= i < m ==> c.slots[k + Position(littleEndian, n, i)].concrete
  }

  lemma AllAreConcrete(c: Cache, k: nat, n: nat, littleEndian: bool)
    requires SomeConcrete(c, k, n, littleEndian, n)
    ensures AllConcrete(c, k, n)
  {
    forall j | k <= j < k + n ensures c.slots[j].concrete {
      var i := Position(littleEndian, n, j - k);
      assert c.slots[k + Position(littleEndian, n, i)].concrete;
    }
  }

  lemma ExtractOfConstant(x: Expr, off: nat, w: nat)
    requires w > 0 && off + w <= Width(x) && x.Constant?
    ensures ExtractCreate(x, off, w).Constant?
  {
  }

  lemma ConcatOfConstants(l: Expr, r: Expr)
    requires Width(l) > 0 && Width(r) > 0 && l.Constant? && r.Constant?
    ensures ConcatCreate(l, r).Constant?
  {
  }

  /** What a load of `width` bits finds in a byte array. */
  function Loaded(c: Bytes, k: nat, width: nat, littleEndian: bool): nat
    requires AccessFits(k, width, |c|)
  {
    if width == BOOL then c[k] % 2 else ReadValue(c, k, width / 8, littleEndian)
  }

  /** What a store of `width` bits leaves in a byte array. */
  function Stored(c: Bytes, k: nat, width: nat, v: nat, littleEndian: bool): (c': Bytes)
    ensures |c'| == |c|
  {
    if width == BOOL then SetByte(c, k, v) else WriteValue(c, k, width / 8, v, littleEndian)
  }

  lemma LowBit(byte: Expr)
    requires Width(byte) == INT8
    ensures Width(ExtractCreate(byte, 0, BOOL)) == BOOL
    ensures forall a: Assignment :: Eval(ExtractCreate(byte, 0, BOOL), a) == Eval(byte, a) % 2
  {
    hide Width, Eval, ExtractCreate;
    forall a: Assignment ensures Eval(ExtractCreate(byte, 0, BOOL), a) == Eval(byte, a) % 2 {
      ExtractCreateSound(byte, 0, BOOL, a);
      LowBits(BOOL, Eval(byte, a));
    }
  }

  /** Reading the least significant byte. */
  lemma FirstByte(c: Cache, e: Expr, k: nat, n: nat, littleEndian: bool)
    requires 0 < n && k + n <= |c.slots|
    requires forall a: Assignment :: Eval(e, a) == Contents(c, a)[k + Position(littleEndian, n, 0)]
    ensures forall a: Assignment :: Eval(e, a) == ReadSome(Contents(c, a), k, n, littleEndian, 1)
  {
    hide Contents, Eval;
  }

  lemma NextByte(c: Cache, byte: Expr, e: Expr, k: nat, n: nat, littleEndian: bool, i: nat)
    requires 0 < i < n && k + n <= |c.slots| && Width(byte) == INT8 && Width(e) == 8 * i
    requires forall a: Assignment :: Eval(byte, a) == Contents(c, a)[k + Position(littleEndian, n, i)]
    requires forall a: Assignment :: Eval(e, a) == ReadSome(Contents(c, a), k, n, littleEndian, i)
    ensures Width(ConcatCreate(byte, e)) == 8 * (i + 1)
    ensures forall a: Assignment ::
      Eval(ConcatCreate(byte, e), a) == ReadSome(Contents(c, a), k, n, littleEndian, i + 1)
  {
    hide Contents, Eval, Width, ConcatCreate, ConcatBits;
    forall a: Assignment
      ensures Eval(ConcatCreate(byte, e), a) == ReadSome(Contents(c, a), k, n, littleEndian, i + 1)
    {
      ConcatCreateSound(byte, e, a);
    }
  }

  function Offset32(offset: Expr): Expr
    requires Width(offset) > 0
  {
    ExtendCreate(ZExt(INT32), offset)
  }

  lemma Offset32Ok(offset: Expr)
    requires Width(offset) > 0
    ensures Width(Offset32(offset)) == INT32
    ensures forall a: Assignment :: Eval(Offset32(offset), a) == Wrap(INT32, Eval(offset, a))
  {
    hide Width, Eval, Pow2, ExtendCreate, Wrap;
    ExtendCreateTyped(ZExt(INT32), offset);
    forall a: Assignment ensures Eval(Offset32(offset), a) == Wrap(INT32, Eval(offset, a)) {
      ExtendCreateSound(ZExt(INT32), offset, a);
      EvalRange(offset, a);
      if Width(offset) < INT32 {
        Pow2Monotone(Width(offset), INT32);
        WrapId(INT32, Eval(offset, a));
      }
    }
  }

  /** `byte` is the byte at `offset`, wherever that is in bounds. */
  ghost predicate ReadsByte(c: Cache, offset: Expr, byte: Expr) {
    forall a: Assignment :: Eval(offset, a) < |c.slots| ==>
      Eval(byte, a) == Contents(c, a)[Eval(offset, a)]
  }

  /** `e` is the `i` least significant of `n` bytes at `offset`, wherever these are in
      bounds. */
  ghost predicate LoadsSome(c: Cache, e: Expr, offset: Expr, n: nat, littleEndian: bool, i: nat)
    requires i <= n
  {
    forall a: Assignment :: Eval(offset, a) + n <= |c.slots| ==>
      Eval(e, a) == ReadSome(Contents(c, a), Eval(offset, a), n, littleEndian, i)
  }

  /** `e` is what a load gives, wherever the access is in bounds. */
  ghost predicate Loads(c: Cache, e: Expr, offset: Expr, width: nat, littleEndian: bool) {
    forall a: Assignment :: AccessFits(Wrap(INT32, Eval(offset, a)), width, |c.slots|) ==>
      Eval(e, a) == Loaded(Contents(c, a), Wrap(INT32, Eval(offset, a)), width, littleEndian)
  }

  lemma LoadsAt(c: Cache, e: Expr, offset: Expr, width: nat, littleEndian: bool)
    requires Width(offset) > 0 && Offset32(offset).Constant?
    requires AccessFits(Offset32(offset).value, width, |c.slots|)
    requires forall a: Assignment ::
      Eval(e, a) == Loaded(Contents(c, a), Offset32(offset).value, width, littleEndian)
    ensures Loads(c, e, offset, width, littleEndian)
  {
    hide Width, Offset32, Wrap, Contents, Loaded;
    Offset32Ok(offset);
    var offset32 := Offset32(offset);
    forall a: Assignment ensures Wrap(INT32, Eval(offset, a)) == offset32.value {
      assert Eval(offset32, a) == offset32.value;
    }
  }

  lemma LoadsBool(c: Cache, byte: Expr, offset: Expr, littleEndian: bool)
    requires Width(offset) > 0 && Width(byte) == INT8 && ReadsByte(c, Offset32(offset), byte)
    ensures Width(ExtractCreate(byte, 0, BOOL)) == BOOL
    ensures Loads(c, ExtractCreate(byte, 0, BOOL), offset, BOOL, littleEndian)
  {
    hide Width, Offset32, Wrap, Contents, ExtractCreate, Eval;
    Offset32Ok(offset);
    LowBit(byte);
  }

  lemma LoadsBytes(c: Cache, e: Expr, offset: Expr, width: nat, littleEndian: bool)
    requires Width(offset) > 0 && Accessible(width) && width != BOOL
    requires LoadsSome(c, e, Offset32(offset), width / 8, littleEndian, width / 8)
    ensures Loads(c, e, offset, width, littleEndian)
  {
    hide Width, Offset32, Wrap, Contents, Eval, ReadSome;
    Offset32Ok(offset);
  }

  /** Adding a constant to a canonical offset that is no constant gives no constant. */
  lemma SumNotConstant(x: Expr, c: Expr)
    requires Matching(x, c) && Width(x) != BOOL && LinearForm(x) && !x.Constant? && c.Constant?
    ensures !AddCreate(x, c).Constant?
  {
    hide Pow2, Wrap, ConstFree, XorPartialR, FoldLinear;
    assert AddCreate(x, c) == AddPartialR(c, x);
    if ConstFree(x) {
      PartialNotConstant(c, x);
    } else {
      var c' := FoldLinear(Add, c, x.left);
      PartialNotConstant(c', x.right);
      if IsSum(x) {
        assert AddCreate(c', x.right) == AddPartialR(c', x.right);
      } else {
        assert SubCreate(c', x.right) == SubPartialR(c', x.right);
      }
    }
  }

  lemma PartialNotConstant(c: Expr, x: Expr)
    requires Matching(c, x) && Width(x) != BOOL && c.Constant? && ConstFree(x)
    ensures !AddPartialR(c, x).Constant? && !SubPartialR(c, x).Constant? && !x.Constant?
  {
    hide Pow2, Wrap, ConstFree, XorPartialR, FoldLinear;
    NoConstantAtRoot(x);
  }

  lemma NoConstantAtRoot(e: Expr)
    requires ConstFree(e)
    ensures !e.Constant? && !IsSum(e) && !IsDiff(e)
  {
    if e.Binary? && (e.op == Add || e.op == Sub) {
      assert ConstFree(e.left);
    }
  }

  lemma IndexOk(c: Cache, offset: Expr, n: nat, littleEndian: bool, i: nat)
    requires Ok(c) && i < n <= |c.slots|
    requires !offset.Constant? && Width(offset) == INT32 && LinearForm(offset)
    ensures Matching(offset, Constant(Position(littleEndian, n, i), INT32))
    ensures Width(AddCreate(offset, Constant(Position(littleEndian, n, i), INT32))) == INT32
    ensures !AddCreate(offset, Constant(Position(littleEndian, n, i), INT32)).Constant?
    ensures Indexes(AddCreate(offset, Constant(Position(littleEndian, n, i), INT32)), offset, n, littleEndian, i)
  {
    hide Pow2, AddCreate, LinearForm, Wrap, Position;
    var p := Constant(Position(littleEndian, n, i), INT32);
    SumNotConstant(offset, p);
    forall a: Assignment ensures Eval(AddCreate(offset, p), a) == Wrap(INT32, Eval(offset, a) + p.value) {
      AddCreateSound(offset, p, a);
    }
  }

  /** `index` is the position of byte `i` of an access at `offset`. */
  ghost predicate Indexes(index: Expr, offset: Expr, n: nat, littleEndian: bool, i: nat)
    requires i < n
  {
    forall a: Assignment :: Eval(index, a) == Wrap(INT32, Eval(offset, a) + Position(littleEndian, n, i))
  }

  lemma ByteInRange(c: Cache, offset: Expr, index: Expr, byte: Expr, n: nat, littleEndian: bool, i: nat, a: Assignment)
    requires Ok(c) && i < n && Eval(offset, a) + n <= |c.slots|
    requires Indexes(index, offset, n, littleEndian, i) && ReadsByte(c, index, byte)
    ensures Eval(byte, a) == Contents(c, a)[Eval(offset, a) + Position(littleEndian, n, i)]
  {
    hide Pow2, Wrap, Contents, Eval, Position;
    PositionInRange(Contents(c, a), Eval(offset, a), n, littleEndian, i);
  }

  lemma LoadsFirst(c: Cache, offset: Expr, index: Expr, e: Expr, n: nat, littleEndian: bool)
    requires Ok(c) && 0 < n && Indexes(index, offset, n, littleEndian, 0) && ReadsByte(c, index, e)
    ensures LoadsSome(c, e, offset, n, littleEndian, 1)
  {
    hide Ok, Contents, Eval, Indexes, ReadsByte;
    forall a: Assignment | Eval(offset, a) + n <= |c.slots|
      ensures Eval(e, a) == ReadSome(Contents(c, a), Eval(offset, a), n, littleEndian, 1)
    {
      ByteInRange(c, offset, index, e, n, littleEndian, 0, a);
    }
  }

  lemma LoadsNext(c: Cache, offset: Expr, index: Expr, byte: Expr, e: Expr, n: nat, littleEndian: bool, i: nat)
    requires Ok(c) && 0 < i < n && Width(byte) == INT8 && Width(e) == 8 * i
    requires Indexes(index, offset, n, littleEndian, i) && ReadsByte(c, index, byte)
    requires LoadsSome(c, e, offset, n, littleEndian, i)
    ensures Width(ConcatCreate(byte, e)) == 8 * (i + 1)
    ensures LoadsSome(c, ConcatCreate(byte, e), offset, n, littleEndian, i + 1)
  {
    hide Ok, Contents, Eval, Indexes, ReadsByte, Width, ConcatCreate, ConcatBits;
    forall a: Assignment | Eval(offset, a) + n <= |c.slots|
      ensures Eval(ConcatCreate(byte, e), a) == ReadSome(Contents(c, a), Eval(offset, a), n, littleEndian, i + 1)
    {
      ByteInRange(c, offset, index, byte, n, littleEndian, i, a);
      ConcatCreateSound(byte, e, a);
    }
  }

  lemma ReadsSame(c: Cache, d: Cache, index: Expr, byte: Expr)
    requires SameContents(c, d) && ReadsByte(c, index, byte) && |c.slots| == |d.slots|
    ensures ReadsByte(d, index, byte)
  {
    hide Contents, Eval;
  }

  lemma LoadsSame(c: Cache, d: Cache, e: Expr, offset: Expr, n: nat, littleEndian: bool, i: nat)
    requires SameContents(d, c) && i <= n && LoadsSome(c, e, offset, n, littleEndian, i)
    requires |c.slots| == |d.slots|
    ensures LoadsSome(d, e, offset, n, littleEndian, i)
  {
    hide Contents, Eval, ReadSome;
  }

  lemma ConstantValue(e: Expr)
    requires e.Constant? && Width(e) > 0
    ensures Width(e) == e.width && e.value < Pow2(e.width) && Pow2(1) == 2
    ensures forall a: Assignment :: Eval(e, a) == e.value
  {
  }

  lemma ByteOfRange(v: nat, i: nat)
    ensures ByteOf(v, i) < 256
  {
    assert Pow2(8) == 256;
  }

  /** A Boolean is stored as a whole byte. */
  lemma BoolByte(value: Expr)
    requires Width(value) == BOOL
    ensures Width(ExtendCreate(ZExt(INT8), value)) == INT8
    ensures forall a: Assignment :: Eval(ExtendCreate(ZExt(INT8), value), a) == Eval(value, a)
  {
    hide Width, Eval, Pow2, ExtendCreate;
    ExtendCreateTyped(ZExt(INT8), value);
    forall a: Assignment ensures Eval(ExtendCreate(ZExt(INT8), value), a) == Eval(value, a) {
      ExtendCreateSound(ZExt(INT8), value, a);
    }
  }

  // ------------------------------------------------------- byte loops that write

  ghost predicate WroteAt(c: Cache, d: Cache, k: nat, n: nat, v: nat, littleEndian: bool, i: nat)
    requires i <= n
  {
    forall a: Assignment :: Contents(d, a) == WriteSome(Contents(c, a), k, n, v, littleEndian, i)
  }

  lemma WroteNoneAt(c: Cache, k: nat, n: nat, v: nat, littleEndian: bool)
    ensures WroteAt(c, c, k, n, v, littleEndian, 0)
  {
    hide Contents;
  }

  lemma WroteNextAt(c: Cache, d: Cache, d': Cache, k: nat, n: nat, v: nat, littleEndian: bool, i: nat)
    requires Ok(d) && i < n && k + n <= |d.slots| && WroteAt(c, d, k, n, v, littleEndian, i)
    requires forall a: Assignment ::
      Contents(d', a) == Contents(d, a)[k + Position(littleEndian, n, i) := ByteOf(v, i)]
    ensures WroteAt(c, d', k, n, v, littleEndian, i + 1)
  {
    hide Contents, Pow2, Wrap, ByteOf;
    forall a: Assignment ensures Contents(d', a) == WriteSome(Contents(c, a), k, n, v, littleEndian, i + 1) {
      PositionInRange(Contents(d, a), k, n, littleEndian, i);
    }
  }

  lemma WroteAllAt(c: Cache, d: Cache, k: nat, n: nat, v: nat, littleEndian: bool)
    requires WroteAt(c, d, k, n, v, littleEndian, n)
    ensures forall a: Assignment :: Contents(d, a) == WriteValue(Contents(c, a), k, n, v, littleEndian)
  {
    hide Contents, WriteSome;
  }

  /** The first `i` of the `n` bytes of `value` have been written at `offset`. */
  ghost predicate WroteTo(c: Cache, d: Cache, offset: Expr, n: nat, value: Expr, littleEndian: bool, i: nat)
    requires i <= n
  {
    forall a: Assignment ::
      Contents(d, a) == WriteSome(Contents(c, a), Eval(offset, a), n, Eval(value, a), littleEndian, i)
  }

  lemma WroteNone(c: Cache, offset: Expr, n: nat, value: Expr, littleEndian: bool)
    ensures WroteTo(c, c, offset, n, value, littleEndian, 0)
  {
    hide Contents, Eval;
  }

  lemma ExtractedByte(value: Expr, i: nat, a: Assignment)
    requires 8 * i + 8 <= Width(value)
    ensures Eval(ExtractCreate(value, 8 * i, INT8), a) == ByteOf(Eval(value, a), i)
  {
    hide Width, Eval, ExtractCreate;
    ExtractCreateSound(value, 8 * i, INT8, a);
  }

  lemma WroteNextConst(c: Cache, d: Cache, d': Cache, k: nat, n: nat, value: Expr, littleEndian: bool, i: nat)
    requires Ok(d) && i < n && k + n <= |d.slots| && Width(value) == 8 * n
    requires WroteTo(c, d, Constant(k, INT32), n, value, littleEndian, i)
    requires forall a: Assignment ::
      Contents(d', a)
      == Contents(d, a)[k + Position(littleEndian, n, i) := Eval(ExtractCreate(value, 8 * i, INT8), a)]
    ensures WroteTo(c, d', Constant(k, INT32), n, value, littleEndian, i + 1)
  {
    hide Contents, Pow2, Wrap, ByteOf, Width, ExtractCreate;
    forall a: Assignment
      ensures Contents(d', a) == WriteSome(Contents(c, a), k, n, Eval(value, a), littleEndian, i + 1)
    {
      assert Eval(Constant(k, INT32), a) == k;
      PositionInRange(Contents(d, a), k, n, littleEndian, i);
      ExtractedByte(value, i, a);
    }
  }

  lemma WroteAllConst(c: Cache, d: Cache, k: nat, n: nat, value: Expr, littleEndian: bool)
    requires WroteTo(c, d, Constant(k, INT32), n, value, littleEndian, n)
    ensures forall a: Assignment ::
      Contents(d, a) == WriteValue(Contents(c, a), k, n, Eval(value, a), littleEndian)
  {
    hide Contents, WriteSome;
  }

  lemma WroteNext(c: Cache, d: Cache, d': Cache, index: Expr, offset: Expr, n: nat, value: Expr, littleEndian: bool, i: nat)
    requires i < n && Width(value) == 8 * n && Indexes(index, offset, n, littleEndian, i)
    requires WroteTo(c, d, offset, n, value, littleEndian, i)
    requires forall a: Assignment ::
      Contents(d', a)
      == SetByte(Contents(d, a), Eval(index, a), Eval(ExtractCreate(value, 8 * i, INT8), a))
    ensures WroteTo(c, d', offset, n, value, littleEndian, i + 1)
  {
    hide Contents, Pow2, Wrap, ByteOf, Width, ExtractCreate, Eval, SetByte;
    forall a: Assignment
      ensures Contents(d', a)
           == WriteSome(Contents(c, a), Eval(offset, a), n, Eval(value, a), littleEndian, i + 1)
    {
      ExtractedByte(value, i, a);
    }
  }

  /** `d` is `c` after a store. */
  ghost predicate Stores(c: Cache, d: Cache, offset: Expr, value: Expr, littleEndian: bool) {
    forall a: Assignment ::
      Contents(d, a)
      == Stored(Contents(c, a), Wrap(INT32, Eval(offset, a)), Width(value), Eval(value, a), littleEndian)
  }

  lemma StoresAt(c: Cache, d: Cache, offset: Expr, value: Expr, littleEndian: bool)
    requires Width(offset) > 0 && Offset32(offset).Constant?
    requires forall a: Assignment ::
      Contents(d, a) == Stored(Contents(c, a), Offset32(offset).value, Width(value), Eval(value, a), littleEndian)
    ensures Stores(c, d, offset, value, littleEndian)
  {
    hide Width, Offset32, Wrap, Contents, Stored;
    Offset32Ok(offset);
    var offset32 := Offset32(offset);
    forall a: Assignment ensures Wrap(INT32, Eval(offset, a)) == offset32.value {
      assert Eval(offset32, a) == offset32.value;
    }
  }

  lemma StoresBool(c: Cache, d: Cache, offset: Expr, value: Expr, littleEndian: bool)
    requires Width(offset) > 0 && Width(value) == BOOL
    requires forall a: Assignment ::
      Contents(d, a)
      == SetByte(Contents(c, a), Eval(Offset32(offset), a), Eval(ExtendCreate(ZExt(INT8), value), a))
    ensures Stores(c, d, offset, value, littleEndian)
  {
    hide Width, Offset32, Wrap, Contents, Eval, ExtendCreate, SetByte;
    Offset32Ok(offset);
    BoolByte(value);
  }

  lemma StoresBytes(c: Cache, d: Cache, offset: Expr, value: Expr, littleEndian: bool)
    requires Width(offset) > 0 && Accessible(Width(value)) && Width(value) != BOOL
    requires WroteTo(c, d, Offset32(offset), Width(value) / 8, value, littleEndian, Width(value) / 8)
    ensures Stores(c, d, offset, value, littleEndian)
  {
    hide Width, Offset32, Wrap, Contents, Eval, WriteSome;
    Offset32Ok(offset);
  }

  // ------------------------------------------------------------------ byte order

  /** Little-endian: the least significant byte comes first in memory ... */
  lemma StoredLittleEndian(c: Bytes, k: nat, n: nat, v: nat, i: nat)
    requires i < n && k + n <= |c| <= Pow2(INT32)
    ensures Stored(c, k, 8 * n, v, true)[k + i] == (v / Pow2(8 * i)) % 256
  {
    hide Pow2, WriteSome, ByteOf;
    WrittenByte(c, k, n, v, true, n, i);
    ByteOfMeaning(v, i);
  }

  /** ... big-endian: it comes last. */
  lemma StoredBigEndian(c: Bytes, k: nat, n: nat, v: nat, i: nat)
    requires i < n && k + n <= |c| <= Pow2(INT32)
    ensures Stored(c, k, 8 * n, v, false)[k + n - 1 - i] == (v / Pow2(8 * i)) % 256
  {
    hide Pow2, WriteSome, ByteOf;
    WrittenByte(c, k, n, v, false, n, i);
    ByteOfMeaning(v, i);
  }

  lemma LoadedLittleEndian(c: Bytes, k: nat, n: nat, i: nat)
    requires i < n && k + n <= |c| && forall p :: 0 <= p < |c| ==> c[p] < 256
    ensures (Loaded(c, k, 8 * n, true) / Pow2(8 * i)) % 256 == c[k + i]
  {
    hide Pow2, ReadSome, ByteOf;
    ReadByte(c, k, n, true, n, i);
    ByteOfMeaning(Loaded(c, k, 8 * n, true), i);
  }

  lemma LoadedBigEndian(c: Bytes, k: nat, n: nat, i: nat)
    requires i < n && k + n <= |c| && forall p :: 0 <= p < |c| ==> c[p] < 256
    ensures (Loaded(c, k, 8 * n, false) / Pow2(8 * i)) % 256 == c[k + n - 1 - i]
  {
    hide Pow2, ReadSome, ByteOf;
    ReadByte(c, k, n, false, n, i);
    ByteOfMeaning(Loaded(c, k, 8 * n, false), i);
  }

  /** A Boolean has a byte to itself: 0 or 1 is stored, the lowest bit is loaded. */
  lemma BoolAccess(c: Bytes, k: nat, b: bool, littleEndian: bool)
    requires k < |c|
    ensures Stored(c, k, BOOL, FromBool(b), littleEndian) == c[..k] + [if b then 1 else 0] + c[k + 1..]
    ensures Loaded(c, k, BOOL, littleEndian) == 0 <==> c[k] / 2 * 2 == c[k]
    ensures Loaded(c, k, BOOL, littleEndian) < 2
  {
  }

  // ----------------------------------------------------------------- round trips

  lemma LoadedStored(c: Bytes, k: nat, width: nat, v: nat, littleEndian: bool)
    requires AccessFits(k, width, |c|) && |c| <= Pow2(INT32) && v < Pow2(width)
    ensures Loaded(Stored(c, k, width, v, littleEndian), k, width, littleEndian) == v
  {
    hide ReadSome, WriteSome;
    if width == BOOL {
      assert Pow2(1) == 2;
    } else {
      assert 8 * (width / 8) == width;
      ReadOverWrite(c, k, width / 8, v, littleEndian);
    }
  }

  lemma ByteBesideStored(c: Bytes, k: nat, width: nat, v: nat, littleEndian: bool, p: nat)
    requires AccessFits(k, width, |c|) && |c| <= Pow2(INT32) && p < |c|
    requires p < k || k + Touched(width) <= p
    ensures Stored(c, k, width, v, littleEndian)[p] == c[p]
  {
    hide Pow2;
    if width != BOOL {
      UnwrittenByte(c, k, width / 8, v, littleEndian, width / 8, p);
    }
  }

  lemma LoadedBesideStored(c: Bytes, k: nat, width: nat, v: nat, littleEndian: bool, k': nat, width': nat)
    requires AccessFits(k, width, |c|) && |c| <= Pow2(INT32) && AccessFits(k', width', |c|)
    requires k' + Touched(width') <= k || k + Touched(width) <= k'
    ensures Loaded(Stored(c, k, width, v, littleEndian), k', width', littleEndian)
         == Loaded(c, k', width', littleEndian)
  {
    hide Pow2, ReadSome, Stored;
    var c' := Stored(c, k, width, v, littleEndian);
    forall p | k' <= p < k' + Touched(width') ensures c'[p] == c[p] {
      ByteBesideStored(c, k, width, v, littleEndian, p);
    }
    if width' != BOOL {
      SameBytesRead(c, c', k', width' / 8, littleEndian, width' / 8);
    }
  }

  lemma {:induction false} SameBytesRead(c: Bytes, c': Bytes, off: nat, n: nat, littleEndian: bool, m: nat)
    requires m <= n && off + n <= |c| == |c'| && forall p :: off <= p < off + n ==> c'[p] == c[p]
    ensures ReadSome(c', off, n, littleEndian, m) == ReadSome(c, off, n, littleEndian, m)
  {
    hide ConcatBits;
    if m > 0 {
      SameBytesRead(c, c', off, n, littleEndian, m - 1);
    }
  }

  /** A load at the place and width of a store gives back the stored value, under
      every assignment that puts the access in bounds. */
  lemma LoadAfterStore(c: Cache, d: Cache, offset: Expr, value: Expr, e: Expr, littleEndian: bool, a: Assignment)
    requires Ok(c) && Width(value) > 0 && Stores(c, d, offset, value, littleEndian)
    requires Loads(d, e, offset, Width(value), littleEndian)
    requires AccessFits(Wrap(INT32, Eval(offset, a)), Width(value), |c.slots|)
    ensures Eval(e, a) == Eval(value, a)
  {
    hide Eval, Width, Loaded, Stored, Pow2, Wrap;
    EvalRange(value, a);
    assert |Contents(d, a)| == |Contents(c, a)|;
    LoadedStored(Contents(c, a), Wrap(INT32, Eval(offset, a)), Width(value), Eval(value, a), littleEndian);
  }

  /** A store changes no load of a disjoint range. */
  lemma LoadBesideStore(c: Cache, d: Cache, offset: Expr, value: Expr, offset': Expr, width': nat, e: Expr, e': Expr,
                        littleEndian: bool, a: Assignment)
    requires Ok(c) && Stores(c, d, offset, value, littleEndian)
    requires Loads(c, e, offset', width', littleEndian) && Loads(d, e', offset', width', littleEndian)
    requires AccessFits(Wrap(INT32, Eval(offset, a)), Width(value), |c.slots|)
    requires AccessFits(Wrap(INT32, Eval(offset', a)), width', |c.slots|)
    requires
      Wrap(INT32, Eval(offset', a)) + Touched(width') <= Wrap(INT32, Eval(offset, a))
      || Wrap(INT32, Eval(offset, a)) + Touched(Width(value)) <= Wrap(INT32, Eval(offset', a))
    ensures Eval(e', a) == Eval(e, a)
  {
    hide Eval, Width, Loaded, Stored, Pow2, Wrap;
    assert |Contents(d, a)| == |Contents(c, a)|;
    LoadedBesideStored(Contents(c, a), Wrap(INT32, Eval(offset, a)), Width(value), Eval(value, a), littleEndian,
                       Wrap(INT32, Eval(offset', a)), width');
  }
}
