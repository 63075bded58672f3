/**
 Address spaces that share memory objects copy-on-write. Ownership is by epoch: a
 space may write in place exactly to the objects stamped with its current key.
 */
module AddressSpaces {
  import opened Bits
  import opened Exprs
  import opened LinearConstructors
  import opened ByteCache
  import opened Memory
  import opened Ownership

  datatype MemoryObject = MemoryObject(id: nat, address: nat, size: nat)

  /** Everything there is: all live spaces, and all object states with the buffers
      they own. */
  datatype World = World(spaces: set<AddressSpace>, states: set<ObjectState>, buffers: set<object>)

  class AddressSpace {
    /** The current epoch. */
    var cowKey: nat
    var objects: map<MemoryObject, ObjectState>

    constructor (ghost w: World)
      requires Isolated(w)
      ensures objects == map[] && Isolated(w.(spaces := w.spaces + {this}))
    {
      hide Apart, Stamped;
      cowKey := 1;
      objects := map[];
      new;
      assert Tables(w.spaces + {this}) == Tables(w.spaces)[this := Table(1, map[])];
      StampedEmpty(Tables(w.spaces), Owners(w.states), this);
    }

    /** Copying shares every object and moves both spaces on to a new epoch. */
    constructor Copy(b: AddressSpace, ghost w: World)
      requires b in w.spaces && Isolated(w)
      modifies b`cowKey
      ensures objects == b.objects && Isolated(w.(spaces := w.spaces + {this}))
      ensures cowKey == b.cowKey == old(b.cowKey) + 1
    {
      hide Apart, Stamped;
      ghost var tables := Tables(w.spaces);
      cowKey := b.cowKey + 1;
      objects := b.objects;
      new;
      b.cowKey := b.cowKey + 1;
      ghost var table := Table(b.cowKey, b.objects);
      ghost var tables': map<AddressSpace, Table<MemoryObject, ObjectState>> := tables[b := table];
      assert Tables(w.spaces + {this}) == tables'[this := table];
      StampedCopy(tables, Owners(w.states), b, this);
    }

    /** A fresh object, which has no owner yet, becomes this space's own. */
    method BindObject(mo: MemoryObject, os: ObjectState, ghost w: World)
      requires this in w.spaces && Isolated(w)
      requires os.copyOnWriteOwner == 0 && Apart(w.states + {os}, w.buffers + os.Buffers())
      modifies this`objects, os`copyOnWriteOwner
      ensures Isolated(World(w.spaces, w.states + {os}, w.buffers + os.Buffers()))
      ensures objects == old(objects)[mo := os] && os.copyOnWriteOwner == cowKey
    {
      hide Apart, Stamped;
      ghost var tables, owners := Tables(w.spaces), Owners(w.states);
      BuffersOf(w.states + {os}, w.buffers + os.Buffers(), os);
      os.copyOnWriteOwner := cowKey;
      objects := objects[mo := os];
      assert Tables(w.spaces) == tables[this := Table(cowKey, objects)];
      assert Owners(w.states + {os}) == owners[os := cowKey];
      StampedBind(tables, owners, this, mo, os);
      NotBuffers(w, os);
    }

    method UnbindObject(mo: MemoryObject, ghost w: World)
      requires this in w.spaces && Isolated(w)
      modifies this`objects
      ensures Isolated(w) && objects == old(objects) - {mo}
    {
      hide Apart, Stamped;
      ghost var tables := Tables(w.spaces);
      objects := objects - {mo};
      assert Tables(w.spaces) == tables[this := Table(cowKey, objects)];
      StampedUnbind(tables, Owners(w.states), this, mo);
    }

    /** The object to write to: the bound one if this space owns it, else a copy. */
    method GetWriteable(mo: MemoryObject, ghost w: World) returns (os: ObjectState)
      requires this in w.spaces && Isolated(w)
      requires mo in objects && !objects[mo].readOnly
      modifies this`objects
      ensures Isolated(World(w.spaces, w.states + {os}, w.buffers + os.Buffers()))
      ensures objects == old(objects)[mo := os]
      ensures os.size == old(objects[mo].size) && os.cache == old(objects[mo].cache) && !os.readOnly
      ensures os.copyOnWriteOwner == cowKey
      ensures if old(objects[mo].copyOnWriteOwner) == cowKey then os == old(objects[mo])
              else fresh(os) && fresh(os.Buffers())
      ensures View(this) == old(View(this))
    {
      hide Apart, Stamped;
      ghost var tables, owners := Tables(w.spaces), Owners(w.states);
      BoundStates(tables, owners, this, mo);
      os := objects[mo];
      if os.copyOnWriteOwner != cowKey {
        var copy := CopyApart(os, w.states, w.buffers);
        os := copy;
        BindObject(mo, os, w);
      } else {
        BuffersOf(w.states, w.buffers, os);
        assert w.states + {os} == w.states && w.buffers + os.Buffers() == w.buffers;
        assert objects == objects[mo := os];
      }
    }

    /** A write made the way the executor makes it. No other space sees it, and in
        this space no other object does. */
    method Write(mo: MemoryObject, os: ObjectState, offset: Expr, value: Expr, littleEndian: bool, ghost w: World)
      returns (ghost w': World)
      requires this in w.spaces && Isolated(w)
      requires mo in objects && objects[mo] == os && !os.readOnly && CanStore(os.size, offset, value)
      modifies this`objects
      modifies os`concreteMask, os`flushMask, os`knownSymbolics, os`root, os`nodes, os`cache, os.Buffers()
      ensures mo in objects && Isolated(w') && w'.spaces == w.spaces
      ensures forall s :: s in w.spaces && s != this ==> View(s) == old(View(s))
      ensures View(this) == old(View(this))[mo := objects[mo].cache]
      ensures Stores(old(os.cache), objects[mo].cache, offset, value, littleEndian)
    {
      hide Apart, Stamped, Stores, CanStore, View, Isolated;
      var wos := GetWriteable(mo, w);
      w' := WriteOwned(mo, wos, offset, value, littleEndian, World(w.spaces, w.states + {wos}, w.buffers + wos.Buffers()));
    }

    /** Writing in place to an object of one's own. */
    method WriteOwned(mo: MemoryObject, os: ObjectState, offset: Expr, value: Expr, littleEndian: bool, ghost w: World)
      returns (ghost w': World)
      requires this in w.spaces && Isolated(w) && os in w.states
      requires mo in objects && objects[mo] == os && os.copyOnWriteOwner == cowKey && CanStore(os.size, offset, value)
      modifies os`concreteMask, os`flushMask, os`knownSymbolics, os`root, os`nodes, os`cache, os.Buffers()
      ensures Isolated(w') && w'.spaces == w.spaces
      ensures forall s :: s in w.spaces && s != this ==> View(s) == old(View(s))
      ensures View(this) == old(View(this))[mo := os.cache]
      ensures Stores(old(os.cache), os.cache, offset, value, littleEndian)
    {
      hide Apart, Stamped, Stores, CanStore;
      AloneWith(w, this, mo);
      BuffersOf(w.states, w.buffers, os);
      StoreApart(os, offset, value, littleEndian, w.states, w.buffers);
      w' := World(w.spaces, w.states, w.buffers + os.Buffers());
      NotBuffers(w, os);
    }

    method LoadIsolated(mo: MemoryObject, os: ObjectState, offset: Expr, width: nat, littleEndian: bool, ghost w: World)
      returns (e: Expr)
      requires this in w.spaces && Isolated(w)
      requires mo in objects && objects[mo] == os && CanLoad(os.size, offset, width)
      modifies os`concreteMask, os`flushMask, os`knownSymbolics, os`root, os`nodes, os`cache, os.Buffers()
      ensures Isolated(World(w.spaces, w.states, w.buffers + os.Buffers()))
      ensures SameContents(os.cache, old(os.cache))
      ensures Width(e) == width && Loads(os.cache, e, offset, width, littleEndian)
    {
      hide Apart, Stamped, Loads, SameContents, CanLoad, Width;
      BoundStates(Tables(w.spaces), Owners(w.states), this, mo);
      BuffersOf(w.states, w.buffers, os);
      e := LoadApart(os, offset, width, littleEndian, w.states, w.buffers);
      NotBuffers(w, os);
    }

    /** A read may fill caches of shared objects, which no space can tell. */
    method Read(mo: MemoryObject, os: ObjectState, offset: Expr, width: nat, littleEndian: bool, ghost w: World)
      returns (e: Expr)
      requires this in w.spaces && Isolated(w)
      requires mo in objects && objects[mo] == os && CanLoad(os.size, offset, width)
      modifies os`concreteMask, os`flushMask, os`knownSymbolics, os`root, os`nodes, os`cache, os.Buffers()
      ensures Isolated(World(w.spaces, w.states, w.buffers + os.Buffers()))
      ensures forall s, m :: s in w.spaces && m in s.objects ==>
        SameContents(s.objects[m].cache, old(s.objects[m].cache))
      ensures Width(e) == width && Loads(os.cache, e, offset, width, littleEndian)
    {
      hide Isolated, Loads, SameContents, CanLoad, Width;
      NotBuffers(w, os);
      e := LoadIsolated(mo, os, offset, width, littleEndian, w);
      forall s, m | s in w.spaces && m in s.objects
        ensures SameContents(s.objects[m].cache, old(s.objects[m].cache))
      {
        SameContentsRefl(s.objects[m].cache);
      }
    }
  }

  /** All well-formed, and no two share a buffer. */
  ghost predicate Apart(states: set<ObjectState>, buffers: set<object>)
    reads states`concreteMask, states`flushMask, states`knownSymbolics, states`root, states`nodes, states`cache,
          buffers
  {
    (forall o :: o in states ==> o !in buffers && o.Buffers() <= buffers && o.Valid())
    && (forall o, p :: o in states && p in states && o != p ==> o.Buffers() !! p.Buffers())
  }

  ghost function Tables(spaces: set<AddressSpace>): map<AddressSpace, Table<MemoryObject, ObjectState>>
    reads spaces
  {
    map s | s in spaces :: Table(s.cowKey, s.objects)
  }

  ghost function Owners(states: set<ObjectState>): map<ObjectState, nat>
    reads states`copyOnWriteOwner
  {
    map o | o in states :: o.copyOnWriteOwner
  }

  ghost predicate Isolated(w: World)
    reads w.spaces, w.states, w.buffers
  {
    Apart(w.states, w.buffers) && Stamped(Tables(w.spaces), Owners(w.states))
    && (forall s :: s in w.spaces ==> s !in w.buffers)
  }

  lemma NotBuffers(w: World, os: ObjectState)
    ensures forall s :: s in w.spaces ==> s !in os.Buffers()
  {
  }

  lemma BuffersOf(states: set<ObjectState>, buffers: set<object>, os: ObjectState)
    requires os in states && Apart(states, buffers)
    ensures os !in buffers && os.Buffers() <= buffers
  {
  }

  method CopyApart(os: ObjectState, ghost states: set<ObjectState>, ghost buffers: set<object>)
    returns (copy: ObjectState)
    requires os in states && Apart(states, buffers) && !os.readOnly
    ensures fresh(copy) && fresh(copy.Buffers()) && copy.copyOnWriteOwner == 0 && Apart(states + {copy}, buffers + copy.Buffers())
    ensures copy.size == os.size && copy.cache == os.cache && !copy.readOnly
  {
    hide Ok, ObjectState.Rep;
    copy := new ObjectState.Copy(os);
  }

  /** What the spaces mean. */
  ghost function View(s: AddressSpace): map<MemoryObject, Cache>
    reads s, s.objects.Values`cache
  {
    map mo | mo in s.objects :: s.objects[mo].cache
  }

  predicate CanStore(size: nat, offset: Expr, value: Expr) {
    Width(offset) > 0 && Width(value) > 0
    && Accessible(Width(value)) && Touched(Width(value)) <= size
    && LinearForm(Offset32(offset))
    && (Offset32(offset).Constant? ==>
          (AccessFits(Offset32(offset).value, Width(value), size)
           && (value.Constant? && value.width <= 64 ==> value.width in {1, 8, 16, 32, 64})))
  }

  predicate CanLoad(size: nat, offset: Expr, width: nat) {
    Width(offset) > 0 && Accessible(width) && Touched(width) <= size
    && LinearForm(Offset32(offset))
    && (Offset32(offset).Constant? ==> AccessFits(Offset32(offset).value, width, size))
  }

  lemma AloneWith(w: World, s: AddressSpace, mo: MemoryObject)
    requires Isolated(w) && s in w.spaces && mo in s.objects && s.objects[mo] in w.states
    requires s.objects[mo].copyOnWriteOwner == s.cowKey
    ensures forall t, m :: t in w.spaces && m in t.objects && (t != s || m != mo) ==> t.objects[m] != s.objects[mo]
  {
    hide Apart, Stamped;
    forall t, m | t in w.spaces && m in t.objects && (t != s || m != mo) ensures t.objects[m] != s.objects[mo] {
      Exclusive(Tables(w.spaces), Owners(w.states), s, mo, t, m);
    }
  }

  method StoreApart(os: ObjectState, offset: Expr, value: Expr, littleEndian: bool,
                    ghost states: set<ObjectState>, ghost buffers: set<object>)
    requires os in states && Apart(states, buffers) && CanStore(os.size, offset, value)
    modifies os`concreteMask, os`flushMask, os`knownSymbolics, os`root, os`nodes, os`cache, os.Buffers()
    ensures fresh(os.Buffers() - old(os.Buffers())) && Apart(states, buffers + os.Buffers())
    ensures Stores(old(os.cache), os.cache, offset, value, littleEndian)
  {
    hide Ok, Stores, Width, LinearForm, Offset32, ObjectState.Rep;
    os.Store(offset, value, littleEndian);
  }

  method LoadApart(os: ObjectState, offset: Expr, width: nat, littleEndian: bool,
                   ghost states: set<ObjectState>, ghost buffers: set<object>) returns (e: Expr)
    requires os in states && Apart(states, buffers) && CanLoad(os.size, offset, width)
    modifies os`concreteMask, os`flushMask, os`knownSymbolics, os`root, os`nodes, os`cache, os.Buffers()
    ensures fresh(os.Buffers() - old(os.Buffers())) && Apart(states, buffers + os.Buffers())
    ensures SameContents(os.cache, old(os.cache))
    ensures Width(e) == width && Loads(os.cache, e, offset, width, littleEndian)
  {
    hide Ok, SameContents, Loads, Width, LinearForm, Offset32, ObjectState.Rep;
    e := os.Load(offset, width, littleEndian);
  }
}
