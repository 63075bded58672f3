/**
 Merging whole states: control, registers, memory and path condition.
 */
module StateMerging {
  import opened Bits
  import opened Exprs
  import opened LogicConstructors
  import opened Constructors
  import opened Constraints
  import opened ByteArrays
  import opened ByteCache
  import opened Memory
  import opened Ownership
  import opened AddressSpaces
  import opened Merging

  // -------------------------------------------------------------------------- bytes

  /** The first `i` bytes are those of `x` or of `y`, depending on `first`; the others
      are those of `x`. */
  function Mixed(first: bool, x: Bytes, y: Bytes, i: nat): (m: Bytes)
    requires |x| == |y| && i <= |x|
    ensures |m| == |x|
  {
    if first then x else y[..i] + x[i..]
  }

  lemma MixedNext(first: bool, x: Bytes, y: Bytes, i: nat)
    requires |x| == |y| && i < |x|
    ensures Mixed(first, x, y, i)[i := if first then x[i] else y[i]] == Mixed(first, x, y, i + 1)
    ensures Mixed(first, x, y, i)[i] == x[i]
  {
  }

  ghost predicate MixedCache(inA: Expr, c: Cache, x: Cache, y: Cache, i: nat)
    requires |x.slots| == |y.slots| && i <= |x.slots|
  {
    forall a: Assignment :: Contents(c, a) == Mixed(Eval(inA, a) == 1, Contents(x, a), Contents(y, a), i)
  }

  /** The contents are those of `x` where `inA` holds, and those of `y` elsewhere. */
  ghost predicate MergedCache(inA: Expr, c: Cache, x: Cache, y: Cache) {
    forall a: Assignment :: Contents(c, a) == if Eval(inA, a) == 1 then Contents(x, a) else Contents(y, a)
  }

  lemma StoredByte(c: Bytes, k: nat, v: nat, littleEndian: bool)
    requires k < |c| <= Pow2(INT32) && v < 256
    ensures Stored(c, k, INT8, v, littleEndian) == c[k := v]
  {
    assert Pow2(8) == 256;
    PositionInRange(c, k, 1, littleEndian, 0);
    assert WriteSome(c, k, 1, v, littleEndian, 0) == c;
    LowBits(8, v);
    WrapId(8, v);
  }

  lemma MixStep(inA: Expr, c: Cache, c': Cache, x: Cache, y: Cache, y': Cache, i: nat, av: Expr, bv: Expr, littleEndian: bool)
    requires Ok(c) && |c.slots| == |x.slots| == |y.slots| && i < |x.slots| && MixedCache(inA, c, x, y, i)
    requires Width(inA) == BOOL && Width(av) == INT8 && Width(bv) == INT8 && SameContents(y', y)
    requires forall a: Assignment :: Eval(av, a) == Contents(c, a)[i]
    requires |y'.slots| == |y.slots| && forall a: Assignment :: Eval(bv, a) == Contents(y', a)[i]
    requires forall a: Assignment ::
      Contents(c', a) == Stored(Contents(c, a), i, INT8, Eval(SelectCreate(inA, av, bv), a), littleEndian)
    ensures MixedCache(inA, c', x, y, i + 1)
  {
    hide Contents, Eval, Width, SelectCreate, Stored, Mixed, Pow2;
    forall a: Assignment
      ensures Contents(c', a) == Mixed(Eval(inA, a) == 1, Contents(x, a), Contents(y, a), i + 1)
    {
      SelectCreateSound(inA, av, bv, a);
      MixedNext(Eval(inA, a) == 1, Contents(x, a), Contents(y, a), i);
      EvalRange(av, a);
      EvalRange(bv, a);
      ByteRange();
      StoredByte(Contents(c, a), i, Eval(SelectCreate(inA, av, bv), a), littleEndian);
    }
  }

  lemma ByteRange()
    ensures Pow2(INT8) == 256
  {
    assert Pow2(8) == 256;
  }

  lemma MixNone(inA: Expr, x: Cache, y: Cache)
    requires |x.slots| == |y.slots|
    ensures MixedCache(inA, x, x, y, 0)
  {
    hide Contents, Eval;
  }

  lemma MixAll(inA: Expr, c: Cache, x: Cache, y: Cache)
    requires |x.slots| == |y.slots| && MixedCache(inA, c, x, y, |x.slots|)
    ensures MergedCache(inA, c, x, y)
  {
    hide Contents, Eval;
  }

  /** Replaces every byte by a selection between the two objects' bytes. */
  method MergeBytes(os: ObjectState, other: ObjectState, inA: Expr, littleEndian: bool)
    requires os.Valid() && other.Valid() && os != other && os.Buffers() !! other.Buffers()
    requires os.size == other.size && Width(inA) == BOOL
    modifies os`concreteMask, os`flushMask, os`knownSymbolics, os`root, os`nodes, os`cache, os.Buffers()
    modifies other`root, other`nodes, other`cache
    ensures os.Valid() && other.Valid() && other.Buffers() == old(other.Buffers())
    ensures fresh(os.Buffers() - old(os.Buffers()))
    ensures MergedCache(inA, os.cache, old(os.cache), old(other.cache))
    ensures SameContents(other.cache, old(other.cache))
  {
    hide Ok, Width, Contents, SelectCreate, MixedCache, SameContents, MergedCache, ObjectState.Rep, ObjectState.Valid, Eval;
    ghost var x, y := os.cache, other.cache;
    CacheSizes(os);
    CacheSizes(other);
    MixNone(inA, x, y);
    SameContentsRefl(y);
    var i := 0;
    while i < os.size
      invariant 0 <= i <= os.size && os.Valid() && other.Valid() && |os.cache.slots| == |x.slots|
      invariant fresh(os.Buffers() - old(os.Buffers())) && other.Buffers() == old(other.Buffers())
      invariant MixedCache(inA, os.cache, x, y, i) && SameContents(other.cache, y)
    {
      MergeByte(os, other, inA, i, littleEndian, x, y);
      i := i + 1;
    }
    MixAll(inA, os.cache, x, y);
  }

  method MergeByte(os: ObjectState, other: ObjectState, inA: Expr, i: nat, littleEndian: bool, ghost x: Cache, ghost y: Cache)
    requires os.Valid() && other.Valid() && os != other && os.Buffers() !! other.Buffers()
    requires i < os.size == other.size && Width(inA) == BOOL
    requires |os.cache.slots| == |x.slots| == |y.slots| && MixedCache(inA, os.cache, x, y, i)
    requires SameContents(other.cache, y)
    modifies os`concreteMask, os`flushMask, os`knownSymbolics, os`root, os`nodes, os`cache, os.Buffers()
    modifies other`root, other`nodes, other`cache
    ensures os.Valid() && other.Valid() && other.Buffers() == old(other.Buffers())
    ensures fresh(os.Buffers() - old(os.Buffers())) && |os.cache.slots| == |x.slots|
    ensures MixedCache(inA, os.cache, x, y, i + 1) && SameContents(other.cache, y)
  {
    hide Ok, Width, Contents, SelectCreate, MixedCache, SameContents, Stored, ObjectState.Rep, ObjectState.Valid, Eval;
    ghost var c0, y0 := os.cache, other.cache;
    CacheSizes(os);
    var av, bv := ReadBoth(os, other, i);
    ghost var c, y' := os.cache, other.cache;
    MixSame(inA, c, c0, x, y, i);
    SameContentsTrans(y', y0, y);
    SelectByte(inA, av, bv);
    CacheSizes(os);
    CacheSizes(other);
    os.WriteAt(i, SelectCreate(inA, av, bv), littleEndian);
    CacheSizes(os);
    MixStep(inA, c, os.cache, x, y, y', i, av, bv, littleEndian);
  }

  method ReadBoth(os: ObjectState, other: ObjectState, i: nat) returns (av: Expr, bv: Expr)
    requires os.Valid() && other.Valid() && os != other && i < os.size == other.size
    modifies os`root, os`nodes, os`cache, other`root, other`nodes, other`cache
    ensures os.Valid() && other.Valid()
    ensures os.Buffers() == old(os.Buffers()) && other.Buffers() == old(other.Buffers())
    ensures SameContents(os.cache, old(os.cache)) && SameContents(other.cache, old(other.cache))
    ensures |os.cache.slots| == os.size && |other.cache.slots| == other.size
    ensures Width(av) == INT8 && forall a: Assignment :: Eval(av, a) == Contents(os.cache, a)[i]
    ensures Width(bv) == INT8 && forall a: Assignment :: Eval(bv, a) == Contents(other.cache, a)[i]
  {
    hide Ok, Width, Contents, SameContents, ObjectState.Rep, ObjectState.Valid, Eval;
    av := os.Read8(i);
    bv := other.Read8(i);
    CacheSizes(os);
    CacheSizes(other);
  }

  lemma MixSame(inA: Expr, c: Cache, c0: Cache, x: Cache, y: Cache, i: nat)
    requires |x.slots| == |y.slots| && i <= |x.slots| && MixedCache(inA, c0, x, y, i) && SameContents(c, c0)
    ensures MixedCache(inA, c, x, y, i)
  {
    hide Contents, Eval, Mixed;
  }

  lemma SelectByte(inA: Expr, av: Expr, bv: Expr)
    requires Width(inA) == BOOL && Width(av) == INT8 && Width(bv) == INT8
    ensures Width(SelectCreate(inA, av, bv)) == INT8
    ensures SelectCreate(inA, av, bv).Constant? ==> SelectCreate(inA, av, bv).width == 8
  {
    hide SelectCreate;
    SelectCreateTyped(inA, av, bv);
  }

  lemma CacheSizes(os: ObjectState)
    requires os.Valid()
    ensures |os.cache.slots| == os.size && Ok(os.cache)
  {
  }

  // ------------------------------------------------------------------------- memory

  method MergeApart(os: ObjectState, other: ObjectState, inA: Expr, littleEndian: bool,
                    ghost states: set<ObjectState>, ghost buffers: set<object>)
    requires os in states && other in states && os != other && Apart(states, buffers)
    requires os.size == other.size && Width(inA) == BOOL
    modifies os`concreteMask, os`flushMask, os`knownSymbolics, os`root, os`nodes, os`cache, os.Buffers()
    modifies other`root, other`nodes, other`cache
    ensures Apart(states, buffers + os.Buffers()) && fresh(os.Buffers() - old(os.Buffers()))
    ensures MergedCache(inA, os.cache, old(os.cache), old(other.cache))
    ensures SameContents(other.cache, old(other.cache))
  {
    hide Ok, MergedCache, SameContents, Width, ObjectState.Rep;
    MergeBytes(os, other, inA, littleEndian);
  }

  /** One object that differs in the two spaces: the first space's own copy gets the
      selections, and no other object changes but for its cache. */
  method MergeObject(space: AddressSpace, mo: MemoryObject, os: ObjectState, other: ObjectState, inA: Expr,
                     littleEndian: bool, ghost w: World) returns (ghost w': World)
    requires space in w.spaces && Isolated(w) && other in w.states
    requires mo in space.objects && space.objects[mo] == os && !os.readOnly && os != other && os.size == other.size
    requires Width(inA) == BOOL
    modifies space`objects, other`root, other`nodes, other`cache
    modifies os`concreteMask, os`flushMask, os`knownSymbolics, os`root, os`nodes, os`cache, os.Buffers()
    ensures Isolated(w') && w'.spaces == w.spaces && w.states <= w'.states
    ensures mo in space.objects && space.objects == old(space.objects)[mo := space.objects[mo]]
    ensures space.objects[mo] in w'.states && space.objects[mo].copyOnWriteOwner == space.cowKey
    ensures MergedCache(inA, space.objects[mo].cache, old(os.cache), old(other.cache))
    ensures forall o :: o in w.states && o != space.objects[mo] ==> SameContents(o.cache, old(o.cache))
  {
    hide Apart, Stamped, MergedCache, SameContents, Width, Isolated;
    var wos, v := WriteableIn(space, mo, w);
    w' := MergeIsolated(wos, other, inA, littleEndian, v);
    forall o | o in w.states && o != wos ensures SameContents(o.cache, old(o.cache)) {
      SameContentsRefl(o.cache);
    }
  }

  method WriteableIn(space: AddressSpace, mo: MemoryObject, ghost w: World) returns (os: ObjectState, ghost v: World)
    requires space in w.spaces && Isolated(w) && mo in space.objects && !space.objects[mo].readOnly
    modifies space`objects
    ensures Isolated(v) && v.spaces == w.spaces && w.states <= v.states && os in v.states
    ensures space.objects == old(space.objects)[mo := os] && os.copyOnWriteOwner == space.cowKey
    ensures os.size == old(space.objects[mo].size) && os.cache == old(space.objects[mo].cache)
    ensures os == old(space.objects[mo]) || (fresh(os) && fresh(os.Buffers()))
  {
    hide Isolated;
    os := space.GetWriteable(mo, w);
    v := World(w.spaces, w.states + {os}, w.buffers + os.Buffers());
  }

  lemma OwnBuffers(w: World, s: AddressSpace, mo: MemoryObject)
    requires Isolated(w) && s in w.spaces && mo in s.objects
    ensures s.objects[mo] in w.states && s.objects[mo].Buffers() <= w.buffers
  {
    hide Apart, Stamped;
    BoundStates(Tables(w.spaces), Owners(w.states), s, mo);
    BuffersOf(w.states, w.buffers, s.objects[mo]);
  }

  method MergeIsolated(os: ObjectState, other: ObjectState, inA: Expr, littleEndian: bool, ghost w: World)
    returns (ghost w': World)
    requires Isolated(w) && os in w.states && other in w.states && os != other && os.size == other.size
    requires Width(inA) == BOOL
    modifies other`root, other`nodes, other`cache
    modifies os`concreteMask, os`flushMask, os`knownSymbolics, os`root, os`nodes, os`cache, os.Buffers()
    ensures Isolated(w') && w'.spaces == w.spaces && w.states <= w'.states && os in w'.states
    ensures MergedCache(inA, os.cache, old(os.cache), old(other.cache))
    ensures SameContents(other.cache, old(other.cache))
  {
    hide Apart, Stamped, MergedCache, SameContents, Width;
    BuffersOf(w.states, w.buffers, os);
    MergeApart(os, other, inA, littleEndian, w.states, w.buffers);
    w' := World(w.spaces, w.states, w.buffers + os.Buffers());
    NotBuffers(w, os);
  }

  /** Object `mo` is merged, all others mean the same. */
  ghost predicate MergedView(inA: Expr, v: map<MemoryObject, Cache>, va: map<MemoryObject, Cache>,
                             vb: map<MemoryObject, Cache>, mo: MemoryObject) {
    v.Keys == va.Keys && mo in va && mo in vb && MergedCache(inA, v[mo], va[mo], vb[mo])
    && forall m :: m in va && m != mo ==> SameContents(v[m], va[m])
  }

  ghost predicate SameView(v: map<MemoryObject, Cache>, va: map<MemoryObject, Cache>) {
    v.Keys == va.Keys && forall m :: m in va ==> SameContents(v[m], va[m])
  }

  /** The same in terms of what the two spaces mean. */
  method MergeInViews(space: AddressSpace, b: AddressSpace, mo: MemoryObject, os: ObjectState, other: ObjectState,
                      inA: Expr, littleEndian: bool, ghost w: World) returns (ghost w': World)
    requires space in w.spaces && b in w.spaces && b != space && Isolated(w) && Width(inA) == BOOL
    requires mo in space.objects && mo in b.objects && space.objects[mo] == os && b.objects[mo] == other
    requires os != other && !os.readOnly && os.size == other.size
    modifies space`objects, other`root, other`nodes, other`cache
    modifies os`concreteMask, os`flushMask, os`knownSymbolics, os`root, os`nodes, os`cache, os.Buffers()
    ensures Isolated(w') && w'.spaces == w.spaces
    ensures mo in space.objects && space.objects == old(space.objects)[mo := space.objects[mo]]
    ensures MergedView(inA, View(space), old(View(space)), old(View(b)), mo)
    ensures SameView(View(b), old(View(b)))
  {
    hide Isolated, MergedCache, SameContents, Width;
    AllBound(w, space);
    AllBound(w, b);
    w' := MergeObject(space, mo, os, other, inA, littleEndian, w);
    AloneWith(w', space, mo);
  }

  lemma AllBound(w: World, s: AddressSpace)
    requires Isolated(w) && s in w.spaces
    ensures forall m :: m in s.objects ==> s.objects[m] in w.states
  {
    hide Isolated;
    forall m | m in s.objects ensures s.objects[m] in w.states {
      OwnBuffers(w, s, m);
    }
  }

  /** Of the objects that differ, those not pending are merged; the rest mean the same. */
  ghost predicate Partial(inA: Expr, v: map<MemoryObject, Cache>, vb: map<MemoryObject, Cache>,
                          va0: map<MemoryObject, Cache>, vb0: map<MemoryObject, Cache>, todo: set<MemoryObject>) {
    v.Keys == va0.Keys == vb0.Keys
    && (forall m :: m in va0 ==> if m in todo then SameContents(v[m], va0[m]) else MergedCache(inA, v[m], va0[m], vb0[m]))
    && SameView(vb, vb0)
  }

  lemma MergedSame(inA: Expr, c: Cache, x: Cache, y: Cache, x0: Cache, y0: Cache)
    requires MergedCache(inA, c, x, y) && SameContents(x, x0) && SameContents(y, y0)
    ensures MergedCache(inA, c, x0, y0)
  {
    hide Contents, Eval;
  }

  lemma SameMerged(inA: Expr, c: Cache, d: Cache, x: Cache, y: Cache)
    requires SameContents(c, d) && MergedCache(inA, d, x, y)
    ensures MergedCache(inA, c, x, y)
  {
    hide Contents, Eval;
  }

  lemma PartialStep(inA: Expr, v: map<MemoryObject, Cache>, vb: map<MemoryObject, Cache>, v': map<MemoryObject, Cache>,
                    vb': map<MemoryObject, Cache>, va0: map<MemoryObject, Cache>, vb0: map<MemoryObject, Cache>,
                    todo: set<MemoryObject>, mo: MemoryObject)
    requires Partial(inA, v, vb, va0, vb0, todo) && mo in todo
    requires MergedView(inA, v', v, vb, mo) && SameView(vb', vb)
    ensures Partial(inA, v', vb', va0, vb0, todo - {mo})
  {
    hide SameContents, MergedCache;
    forall m | m in va0
      ensures if m in todo - {mo} then SameContents(v'[m], va0[m]) else MergedCache(inA, v'[m], va0[m], vb0[m])
    {
      if m == mo {
        MergedSame(inA, v'[m], v[m], vb[m], va0[m], vb0[m]);
      } else if m in todo {
        SameContentsTrans(v'[m], v[m], va0[m]);
      } else {
        SameMerged(inA, v'[m], v[m], va0[m], vb0[m]);
      }
    }
    forall m | m in vb0 ensures SameContents(vb'[m], vb0[m]) {
      SameContentsTrans(vb'[m], vb[m], vb0[m]);
    }
  }

  /** At first, what is the same object in both spaces is merged already. */
  lemma PartialFirst(inA: Expr, va0: map<MemoryObject, Cache>, vb0: map<MemoryObject, Cache>, todo: set<MemoryObject>)
    requires va0.Keys == vb0.Keys && forall m :: m in va0 && m !in todo ==> va0[m] == vb0[m]
    ensures Partial(inA, va0, vb0, va0, vb0, todo)
  {
    hide Contents, Eval;
  }

  lemma Injective(w: World, s: AddressSpace)
    requires Isolated(w) && s in w.spaces
    ensures forall m, m' :: m in s.objects && m' in s.objects && s.objects[m] == s.objects[m'] ==> m == m'
  {
    hide Apart;
    forall m, m' | m in s.objects && m' in s.objects && s.objects[m] == s.objects[m'] ensures m == m' {
      assert Shared(s, s, Tables(w.spaces)[s], Tables(w.spaces)[s], m, m', Owners(w.states));
    }
  }

  /** What the merge asks of the objects that differ. */
  ghost predicate Writeable(objects: map<MemoryObject, ObjectState>, others: map<MemoryObject, ObjectState>)
    reads objects.Values
  {
    objects.Keys == others.Keys
    && forall m :: m in objects && objects[m] != others[m] ==> !objects[m].readOnly && objects[m].size == others[m].size
  }

  /** The objects still to be merged are those the space had at the start. */
  ghost predicate Pending(now: map<MemoryObject, ObjectState>, others: map<MemoryObject, ObjectState>,
                          objects: map<MemoryObject, ObjectState>, todo: set<MemoryObject>, w: World) {
    now.Keys == others.Keys == objects.Keys && todo <= objects.Keys
    && (forall m :: m in todo ==>
          (now[m] == objects[m] && objects[m] != others[m] && objects[m].size == others[m].size
           && objects[m] in w.states && others[m] in w.states))
    && (forall m, m' :: m in todo && m' in todo && objects[m] == objects[m'] ==> m == m')
  }

  method MergeNext(space: AddressSpace, b: AddressSpace, mo: MemoryObject, inA: Expr, littleEndian: bool,
                   ghost objects: map<MemoryObject, ObjectState>, ghost todo: set<MemoryObject>, ghost w: World, ghost w0: World)
    returns (ghost w': World)
    requires space in w.spaces && b in w.spaces && b != space && Isolated(w) && Width(inA) == BOOL
    requires Pending(space.objects, b.objects, objects, todo, w0) && mo in todo
    requires forall m :: m in todo && m in objects ==> !objects[m].readOnly && objects[m].Buffers() <= w0.buffers
    modifies space`objects, w0.buffers
    modifies w0.states`concreteMask, w0.states`flushMask, w0.states`knownSymbolics, w0.states`root, w0.states`nodes,
             w0.states`cache
    ensures Isolated(w') && w'.spaces == w.spaces
    ensures Pending(space.objects, b.objects, objects, todo - {mo}, w0)
    ensures forall m :: m in todo && m != mo && m in objects ==> !objects[m].readOnly && objects[m].Buffers() <= w0.buffers
    ensures MergedView(inA, View(space), old(View(space)), old(View(b)), mo) && SameView(View(b), old(View(b)))
  {
    hide Isolated, Width, MergedView, SameView, View, Pending, ObjectState.Valid;
    ghost var now, others := space.objects, b.objects;
    PendingAt(now, b.objects, objects, todo, w0, mo);
    var os, other := space.objects[mo], b.objects[mo];
    w' := MergeInViews(space, b, mo, os, other, inA, littleEndian, w);
    assert b.objects == others;
    PendingStep(now, space.objects, b.objects, objects, todo, w0, mo);
  }

  lemma PendingAt(now: map<MemoryObject, ObjectState>, others: map<MemoryObject, ObjectState>,
                  objects: map<MemoryObject, ObjectState>, todo: set<MemoryObject>, w: World, mo: MemoryObject)
    requires Pending(now, others, objects, todo, w) && mo in todo
    ensures mo in now && mo in others && mo in objects && now[mo] == objects[mo] && objects[mo] != others[mo]
    ensures objects[mo].size == others[mo].size && objects[mo] in w.states && others[mo] in w.states
    ensures todo <= objects.Keys
    ensures forall m :: m in todo && m != mo ==> objects[m] != objects[mo]
  {
  }

  lemma PendingStep(now: map<MemoryObject, ObjectState>, now': map<MemoryObject, ObjectState>,
                    others: map<MemoryObject, ObjectState>, objects: map<MemoryObject, ObjectState>,
                    todo: set<MemoryObject>, w: World, mo: MemoryObject)
    requires Pending(now, others, objects, todo, w) && mo in todo && mo in now' && now' == now[mo := now'[mo]]
    ensures Pending(now', others, objects, todo - {mo}, w)
  {
  }

  lemma Ready(w: World, space: AddressSpace, b: AddressSpace, todo: set<MemoryObject>)
    requires Isolated(w) && space in w.spaces && b in w.spaces && Writeable(space.objects, b.objects)
    requires todo == set m | m in space.objects && space.objects[m] != b.objects[m]
    ensures Pending(space.objects, b.objects, space.objects, todo, w)
    ensures forall m :: m in todo && m in space.objects ==>
      !space.objects[m].readOnly && space.objects[m].Buffers() <= w.buffers
  {
    hide Isolated;
    Injective(w, space);
    AllBound(w, b);
    forall m | m in space.objects
      ensures space.objects[m] in w.states && space.objects[m].Buffers() <= w.buffers
    {
      OwnBuffers(w, space, m);
    }
  }

  /** Merges all objects that differ, in any order. */
  method MergeMemory(space: AddressSpace, b: AddressSpace, inA: Expr, littleEndian: bool, ghost w: World)
    returns (ghost w': World)
    requires space in w.spaces && b in w.spaces && b != space && Isolated(w) && Width(inA) == BOOL
    requires Writeable(space.objects, b.objects)
    modifies space`objects, w.buffers
    modifies w.states`concreteMask, w.states`flushMask, w.states`knownSymbolics, w.states`root, w.states`nodes, w.states`cache
    ensures Isolated(w') && w'.spaces == w.spaces
    ensures Partial(inA, View(space), View(b), old(View(space)), old(View(b)), {})
  {
    hide Isolated, Width, Partial, MergedView, SameView, Pending;
    w' := w;
    var mutated := set m | m in space.objects && space.objects[m] != b.objects[m];
    ghost var objects, va0, vb0 := space.objects, View(space), View(b);
    PartialFirst(inA, va0, vb0, mutated);
    Ready(w, space, b, mutated);
    while mutated != {}
      invariant Isolated(w') && w'.spaces == w.spaces
      invariant Pending(space.objects, b.objects, objects, mutated, w)
      invariant forall m :: m in mutated && m in objects ==> !objects[m].readOnly && objects[m].Buffers() <= w.buffers
      invariant Partial(inA, View(space), View(b), va0, vb0, mutated)
      decreases mutated
    {
      var mo :| mo in mutated;
      ghost var v, vb := View(space), View(b);
      w' := MergeNext(space, b, mo, inA, littleEndian, objects, mutated, w', w);
      PartialStep(inA, v, vb, View(space), View(b), va0, vb0, mutated, mo);
      mutated := mutated - {mo};
    }
  }

  // ------------------------------------------------------------------- whole states

  /** `r` has the value of `x` under the inputs of `c`, and that of `y` under those
      of `d`. */
  ghost predicate AgreesWith(r: Expr, x: Expr, y: Expr, c: seq<Expr>, d: seq<Expr>) {
    forall a: Assignment ::
      (Sat(c, a) ==> Eval(r, a) == Eval(x, a)) && (Sat(d, a) ==> Eval(r, a) == Eval(y, a))
  }

  ghost predicate LocalsAgree(r: seq<Option<Expr>>, x: seq<Option<Expr>>, y: seq<Option<Expr>>, c: seq<Expr>, d: seq<Expr>) {
    |r| == |x| == |y|
    && forall i :: 0 <= i < |r| && x[i].Some? && y[i].Some? ==>
         r[i].Some? && AgreesWith(r[i].value, x[i].value, y[i].value, c, d)
  }

  /** Every register that is set in both states has each state's value under that
      state's inputs. */
  ghost predicate RegistersAgree(r: map<int, Thread>, x: map<int, Thread>, y: map<int, Thread>, c: seq<Expr>, d: seq<Expr>) {
    SameControl(r, x) && SameControl(r, y)
    && forall t, i :: t in r && 0 <= i < |r[t].stack| ==>
         LocalsAgree(r[t].stack[i].locals, x[t].stack[i].locals, y[t].stack[i].locals, c, d)
  }

  /** And so has every byte of every object. */
  ghost predicate MemoryAgrees(v: map<MemoryObject, Cache>, x: map<MemoryObject, Cache>, y: map<MemoryObject, Cache>,
                               c: seq<Expr>, d: seq<Expr>) {
    v.Keys == x.Keys == y.Keys
    && forall m, a: Assignment :: m in v ==>
         (Sat(c, a) ==> Contents(v[m], a) == Contents(x[m], a)) && (Sat(d, a) ==> Contents(v[m], a) == Contents(y[m], a))
  }

  lemma ChosenAgrees(inA: Expr, r: Expr, x: Expr, y: Expr, c: seq<Expr>, d: seq<Expr>)
    requires Chosen(inA, x, y, r) && Selects(inA, c, d) && Disjoint(c, d)
    ensures AgreesWith(r, x, y, c, d)
  {
    hide Eval, Sat, Width, Disjoint, Selects;
    forall a: Assignment
      ensures (Sat(c, a) ==> Eval(r, a) == Eval(x, a)) && (Sat(d, a) ==> Eval(r, a) == Eval(y, a))
    {
      SelectorSides(inA, c, d, a);
    }
  }

  lemma MergedLocalsAgree(inA: Expr, r: seq<Option<Expr>>, x: seq<Option<Expr>>, y: seq<Option<Expr>>, c: seq<Expr>, d: seq<Expr>)
    requires MergedLocals(inA, x, y, r) && Selects(inA, c, d) && Disjoint(c, d)
    ensures LocalsAgree(r, x, y, c, d)
  {
    hide Chosen, AgreesWith, Selects, Disjoint;
    forall i | 0 <= i < |r| && x[i].Some? && y[i].Some?
      ensures r[i].Some? && AgreesWith(r[i].value, x[i].value, y[i].value, c, d)
    {
      ChosenAgrees(inA, r[i].value, x[i].value, y[i].value, c, d);
    }
  }

  lemma MergedRegistersAgree(inA: Expr, r: map<int, Thread>, x: map<int, Thread>, y: map<int, Thread>, c: seq<Expr>, d: seq<Expr>)
    requires MergedThreads(inA, x, y, r) && SameControl(x, y) && Selects(inA, c, d) && Disjoint(c, d)
    ensures RegistersAgree(r, x, y, c, d)
  {
    hide MergedLocals, LocalsAgree, Selects, Disjoint;
    forall t, i | t in r && 0 <= i < |r[t].stack|
      ensures LocalsAgree(r[t].stack[i].locals, x[t].stack[i].locals, y[t].stack[i].locals, c, d)
    {
      assert MergedThread(inA, x[t], y[t], r[t]);
      MergedLocalsAgree(inA, r[t].stack[i].locals, x[t].stack[i].locals, y[t].stack[i].locals, c, d);
    }
    forall t | t in r ensures SameThread(r[t], x[t]) && SameThread(r[t], y[t]) {
      assert MergedThread(inA, x[t], y[t], r[t]) && SameThread(x[t], y[t]);
    }
  }

  lemma MergedMemoryAgrees(inA: Expr, v: map<MemoryObject, Cache>, vb: map<MemoryObject, Cache>, x: map<MemoryObject, Cache>,
                           y: map<MemoryObject, Cache>, c: seq<Expr>, d: seq<Expr>)
    requires Partial(inA, v, vb, x, y, {}) && Selects(inA, c, d) && Disjoint(c, d)
    ensures MemoryAgrees(v, x, y, c, d) && SameView(vb, y)
  {
    hide Contents, Eval, Sat, Selects, Disjoint, SameContents;
    forall m, a: Assignment | m in v
      ensures Sat(c, a) ==> Contents(v[m], a) == Contents(x[m], a)
      ensures Sat(d, a) ==> Contents(v[m], a) == Contents(y[m], a)
    {
      assert MergedCache(inA, v[m], x[m], y[m]);
      SelectorSides(inA, c, d, a);
    }
  }

  class ExecutionState {
    const addressSpace: AddressSpace
    var symbolics: seq<nat>
    var threads: map<int, Thread>
    var constraints: ConstraintManager

    constructor (addressSpace: AddressSpace, threads: map<int, Thread>)
      ensures this.addressSpace == addressSpace && this.threads == threads && symbolics == []
      ensures constraints.Valid() && constraints.constraints == []
    {
      this.addressSpace, this.threads, symbolics := addressSpace, threads, [];
      constraints := new ConstraintManager();
    }

    /** Merges `b` into this state if the two are at the same place. The new path
        condition holds exactly where one of the two did; registers and memory then
        have that state's values. */
    method Merge(b: ExecutionState, littleEndian: bool, ghost w: World) returns (ok: bool, ghost w': World)
      requires b != this && constraints.Valid() && b.constraints.Valid()
      requires this !in w.buffers && b !in w.buffers
      requires addressSpace in w.spaces && b.addressSpace in w.spaces && addressSpace != b.addressSpace && Isolated(w)
      requires Disjoint(constraints.constraints, b.constraints.constraints)
      requires exists a: Assignment :: Sat(constraints.constraints, a)
      requires SameControl(threads, b.threads) ==> forall t :: t in threads ==> StackTypes(threads[t].stack, b.threads[t].stack)
      requires addressSpace.objects.Keys == b.addressSpace.objects.Keys ==>
        Writeable(addressSpace.objects, b.addressSpace.objects)
      modifies this`threads, this`constraints, addressSpace`objects, w.buffers
      modifies w.states`concreteMask, w.states`flushMask, w.states`knownSymbolics, w.states`root, w.states`nodes, w.states`cache
      ensures ok <==> symbolics == b.symbolics && SameControl(old(threads), b.threads)
                      && old(addressSpace.objects.Keys == b.addressSpace.objects.Keys)
      ensures !ok ==> threads == old(threads) && constraints == old(constraints)
                      && addressSpace.objects == old(addressSpace.objects)
      ensures Isolated(w') && w'.spaces == w.spaces
      ensures ok ==> constraints.Valid() && fresh(constraints)
      ensures ok ==> forall a: Assignment ::
        Sat(constraints.constraints, a)
        <==> Sat(old(constraints.constraints), a) || Sat(old(b.constraints.constraints), a)
      ensures ok ==>
        RegistersAgree(threads, old(threads), b.threads, old(constraints.constraints), old(b.constraints.constraints))
      ensures ok ==>
        MemoryAgrees(View(addressSpace), old(View(addressSpace)), old(View(b.addressSpace)),
                     old(constraints.constraints), old(b.constraints.constraints))
      ensures ok ==> SameView(View(b.addressSpace), old(View(b.addressSpace)))
    {
      hide Isolated, Writeable, SameControl, StackTypes, Sat, Disjoint, Selects, RegistersAgree, MemoryAgrees, View,
           SameView, Partial, MergedThreads, Width, AllBool, Suffix;
      ok, w' := false, w;
      if symbolics != b.symbolics {
        return;
      }
      var same := CompareThreads(threads, b.threads);
      if !same || addressSpace.objects.Keys != b.addressSpace.objects.Keys {
        return;
      }
      ghost var va, vb := View(addressSpace), View(b.addressSpace);
      var c, d := constraints.constraints, b.constraints.constraints;
      var inA, inB := Selectors(c, d);
      MergeControl(b.threads, c, d, inA, inB);
      w' := MergeMemory(addressSpace, b.addressSpace, inA, littleEndian, w);
      MergedMemoryAgrees(inA, View(addressSpace), View(b.addressSpace), va, vb, c, d);
      ok := true;
    }

    /** Registers and path condition, which do not depend on the memory. */
    method MergeControl(others: map<int, Thread>, c: seq<Expr>, d: seq<Expr>, inA: Expr, inB: Expr)
      requires AllBool(c) && AllBool(d) && Disjoint(c, d) && (exists a: Assignment :: Sat(c, a))
      requires Selects(inA, c, d) && Selects(inB, d, c)
      requires SameControl(threads, others) && forall t :: t in threads ==> StackTypes(threads[t].stack, others[t].stack)
      modifies this`threads, this`constraints
      ensures constraints.Valid() && fresh(constraints)
      ensures forall a: Assignment :: Sat(constraints.constraints, a) <==> Sat(c, a) || Sat(d, a)
      ensures RegistersAgree(threads, old(threads), others, c, d)
    {
      hide StackTypes, Sat, Disjoint, RegistersAgree, MergedThreads, Width, AllBool, Suffix, AllHold;
      ghost var x := threads;
      threads := MergeThreads(inA, threads, others);
      MergedRegistersAgree(inA, threads, x, others, c, d);
      constraints := Rejoin(c, d, inA, inB);
    }
  }

  method Selectors(c: seq<Expr>, d: seq<Expr>) returns (inA: Expr, inB: Expr)
    requires AllBool(c) && AllBool(d)
    ensures Selects(inA, c, d) && Selects(inB, d, c) && Width(inA) == BOOL
  {
    hide Width, AllHold, Suffix;
    CommonBool(c, d);
    inA := Conjunction(Suffix(c, d));
    inB := Conjunction(Suffix(d, c));
  }
}
