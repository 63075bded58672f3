/**
 Which memory objects a pointer may point into. `objects` is the address-ordered
 map of an address space; the solver is an exact oracle.
 */
module Resolution {
  import opened Bits
  import opened Collections
  import opened Exprs
  import opened LogicConstructors
  import opened LinearConstructors
  import opened Constructors
  import opened Constraints
  import opened Forking
  import opened AddressSpaces

  /** Sorted by address, without overlap, and not past the end of the address range
      of pointers of `w` bits. */
  predicate LaidOut(objects: seq<MemoryObject>, w: nat) {
    (forall i :: 0 <= i < |objects| ==> InRange(objects[i], w))
    && (forall i, j :: 0 <= i < j < |objects| ==> Below(objects[i], objects[j]))
  }

  predicate InRange(mo: MemoryObject, w: nat) {
    mo.address + mo.size <= Pow2(w) && mo.address < Pow2(w) && mo.size < Pow2(w)
  }

  predicate Below(mo: MemoryObject, mo': MemoryObject) {
    mo.address < mo'.address && mo.address + mo.size <= mo'.address
  }

  /** An empty object is hit at its address only. */
  predicate InBounds(mo: MemoryObject, v: nat) {
    if mo.size == 0 then v == mo.address else mo.address <= v < mo.address + mo.size
  }

  // ------------------------------------------------------------ bounds as expressions

  function BaseExpr(mo: MemoryObject, w: nat): Expr {
    Constant(mo.address, w)
  }

  function OffsetExpr(mo: MemoryObject, p: Expr): Expr
    requires InRange(mo, Width(p)) && Width(p) > 0
  {
    SubCreate(p, BaseExpr(mo, Width(p)))
  }

  function BoundsCheckPointer(mo: MemoryObject, p: Expr): Expr
    requires InRange(mo, Width(p)) && Width(p) > 0
  {
    var offset := OffsetExpr(mo, p);
    if mo.size == 0 then EqCreate(offset, Constant(0, Width(p)))
    else CompareCreate(Ult, offset, Constant(mo.size, Width(p)))
  }

  /** Unsigned wrap-around makes one comparison check both ends. */
  lemma OffsetBounds(mo: MemoryObject, w: nat, v: nat)
    requires InRange(mo, w) && v < Pow2(w)
    ensures mo.size > 0 ==> (Wrap(w, v - mo.address) < mo.size <==> InBounds(mo, v))
    ensures mo.size == 0 ==> (Wrap(w, v - mo.address) == 0 <==> InBounds(mo, v))
  {
    hide Pow2;
    if v >= mo.address {
      WrapId(w, v - mo.address);
    } else {
      WrapShift(w, v - mo.address, 1);
      WrapId(w, v - mo.address + Pow2(w));
    }
  }

  lemma BoundsCheckTyped(mo: MemoryObject, p: Expr)
    requires InRange(mo, Width(p)) && Width(p) > 0
    ensures Width(BoundsCheckPointer(mo, p)) == BOOL
  {
    hide Pow2, SubCreate, EqCreate, CompareCreate;
    var offset := OffsetExpr(mo, p);
    if mo.size == 0 {
      EqCreateTyped(offset, Constant(0, Width(p)));
    } else {
      CompareCreateTyped(Ult, offset, Constant(mo.size, Width(p)));
    }
  }

  lemma BaseSound(mo: MemoryObject, w: nat, a: Assignment)
    requires InRange(mo, w)
    ensures Width(BaseExpr(mo, w)) == w && Eval(BaseExpr(mo, w), a) == mo.address
  {
  }

  lemma OffsetSound(mo: MemoryObject, p: Expr, a: Assignment)
    requires InRange(mo, Width(p)) && Width(p) > 0
    ensures Width(OffsetExpr(mo, p)) == Width(p)
    ensures Eval(OffsetExpr(mo, p), a) == Wrap(Width(p), Eval(p, a) - mo.address)
    ensures Eval(p, a) < Pow2(Width(p))
  {
    hide Pow2, SubCreate, Wrap, Width, Eval, BaseExpr;
    BaseSound(mo, Width(p), a);
    SubCreateSound(p, BaseExpr(mo, Width(p)), a);
    EvalRange(p, a);
  }

  lemma BoundsCheckSound(mo: MemoryObject, p: Expr, a: Assignment)
    requires InRange(mo, Width(p)) && Width(p) > 0
    ensures Eval(BoundsCheckPointer(mo, p), a) == FromBool(InBounds(mo, Eval(p, a)))
  {
    hide Pow2, OffsetExpr, EqCreate, CompareCreate, Wrap, InBounds;
    var offset := OffsetExpr(mo, p);
    OffsetSound(mo, p, a);
    OffsetBounds(mo, Width(p), Eval(p, a));
    if mo.size == 0 {
      EqCreateSound(offset, Constant(0, Width(p)), a);
    } else {
      CompareCreateSound(Ult, offset, Constant(mo.size, Width(p)), a);
    }
  }

  /** The check for a whole access: all of its bytes are inside. */
  function BoundsCheckAccess(mo: MemoryObject, p: Expr, bytes: nat): Expr
    requires InRange(mo, Width(p)) && Width(p) > 0
  {
    if bytes <= mo.size then CompareCreate(Ult, OffsetExpr(mo, p), Constant(mo.size - bytes + 1, Width(p)))
    else FALSE
  }

  lemma BoundsCheckAccessSound(mo: MemoryObject, p: Expr, bytes: nat, a: Assignment)
    requires InRange(mo, Width(p)) && Width(p) > 0 && bytes > 0
    ensures Eval(BoundsCheckAccess(mo, p, bytes), a)
         == FromBool(mo.address <= Eval(p, a) && Eval(p, a) + bytes <= mo.address + mo.size)
  {
    hide Pow2, OffsetExpr, CompareCreate, Wrap;
    OffsetSound(mo, p, a);
    if bytes <= mo.size {
      var room := mo.(size := mo.size - bytes + 1);
      OffsetBounds(room, Width(p), Eval(p, a));
      CompareCreateSound(Ult, OffsetExpr(mo, p), Constant(room.size, Width(p)), a);
    } else {
      BoolConstants();
    }
  }

  // --------------------------------------------------------------- solver queries

  type ValueSolver = (seq<Expr>, Expr) -> nat

  /** For a satisfiable path condition, a value the expression can take. */
  ghost predicate ExactValue(getValue: ValueSolver) {
    forall c, e :: AllBool(c) && Width(e) > 0 && Satisfiable(c) ==> Possible(c, e, getValue(c, e))
  }

  predicate MustBeTrue(solver: Solver, c: seq<Expr>, e: Expr) {
    solver(c, e) == Validity.True
  }

  predicate MayBeTrue(solver: Solver, c: seq<Expr>, e: Expr) {
    !MustBeTrue(solver, c, IsZero(e))
  }

  /** What the execution state of a query promises. */
  ghost predicate Context(solver: Solver, c: seq<Expr>, p: Expr) {
    Exact(solver) && AllBool(c) && Satisfiable(c) && Width(p) > 0
  }

  lemma MustBeTrueExact(solver: Solver, c: seq<Expr>, p: Expr, e: Expr)
    requires Context(solver, c, p) && Width(e) == BOOL
    ensures MustBeTrue(solver, c, e) <==> forall a: Assignment :: Sat(c, a) ==> Eval(e, a) == 1
  {
    hide Eval, Width, Sat;
    forall a: Assignment ensures Eval(e, a) == 0 || Eval(e, a) == 1 {
      BoolRange(e, a);
    }
    var a: Assignment :| Sat(c, a);
    if Eval(e, a) == 1 {
      assert Possible(c, e, 1);
    }
  }

  lemma MayBeTrueExact(solver: Solver, c: seq<Expr>, p: Expr, e: Expr)
    requires Context(solver, c, p) && Width(e) == BOOL
    ensures MayBeTrue(solver, c, e) <==> exists a: Assignment :: Sat(c, a) && Eval(e, a) == 1
  {
    hide Eval, Width, Sat, IsZero;
    IsZeroTyped(e);
    MustBeTrueExact(solver, c, p, IsZero(e));
    forall a: Assignment ensures Eval(IsZero(e), a) == 1 <==> Eval(e, a) != 1 {
      BoolRange(e, a);
      IsZeroSound(e, a);
    }
  }

  /** The pointer may be in bounds of the object. */
  ghost predicate Hits(c: seq<Expr>, p: Expr, mo: MemoryObject) {
    exists a: Assignment :: Sat(c, a) && InBounds(mo, Eval(p, a))
  }

  /** The pointer is in bounds of the object under every assignment. */
  ghost predicate Within(c: seq<Expr>, p: Expr, mo: MemoryObject) {
    forall a: Assignment :: Sat(c, a) ==> InBounds(mo, Eval(p, a))
  }

  ghost predicate From(c: seq<Expr>, p: Expr, mo: MemoryObject) {
    forall a: Assignment :: Sat(c, a) ==> mo.address <= Eval(p, a)
  }

  ghost predicate Before(c: seq<Expr>, p: Expr, mo: MemoryObject) {
    forall a: Assignment :: Sat(c, a) ==> Eval(p, a) < mo.address
  }

  lemma BoundsQueries(solver: Solver, c: seq<Expr>, p: Expr, mo: MemoryObject)
    requires Context(solver, c, p) && InRange(mo, Width(p))
    ensures MayBeTrue(solver, c, BoundsCheckPointer(mo, p)) <==> Hits(c, p, mo)
    ensures MustBeTrue(solver, c, BoundsCheckPointer(mo, p)) <==> Within(c, p, mo)
  {
    hide Eval, Sat, BoundsCheckPointer, MayBeTrue, MustBeTrue, Exact;
    var check := BoundsCheckPointer(mo, p);
    BoundsCheckTyped(mo, p);
    MayBeTrueExact(solver, c, p, check);
    MustBeTrueExact(solver, c, p, check);
    forall a: Assignment ensures Eval(check, a) == 1 <==> InBounds(mo, Eval(p, a)) {
      BoundsCheckSound(mo, p, a);
    }
  }

  lemma BaseQueries(solver: Solver, c: seq<Expr>, p: Expr, mo: MemoryObject)
    requires Context(solver, c, p) && InRange(mo, Width(p))
    ensures MustBeTrue(solver, c, CompareCreate(Uge, p, BaseExpr(mo, Width(p)))) <==> From(c, p, mo)
    ensures MustBeTrue(solver, c, CompareCreate(Ult, p, BaseExpr(mo, Width(p)))) <==> Before(c, p, mo)
  {
    hide Sat, CompareCreate, MustBeTrue, Exact, Pow2;
    var base := BaseExpr(mo, Width(p));
    CompareCreateTyped(Uge, p, base);
    CompareCreateTyped(Ult, p, base);
    MustBeTrueExact(solver, c, p, CompareCreate(Uge, p, base));
    MustBeTrueExact(solver, c, p, CompareCreate(Ult, p, base));
    forall a: Assignment
      ensures Eval(CompareCreate(Uge, p, base), a) == 1 <==> mo.address <= Eval(p, a)
      ensures Eval(CompareCreate(Ult, p, base), a) == 1 <==> Eval(p, a) < mo.address
    {
      CompareCreateSound(Uge, p, base, a);
      CompareCreateSound(Ult, p, base, a);
    }
  }

  // --------------------------------------------------------------- what is found

  /** The result list has, once each, the objects from `lo` to `hi` that are hit. */
  ghost predicate Found(c: seq<Expr>, p: Expr, objects: seq<MemoryObject>, lo: nat, hi: nat, rl: seq<MemoryObject>)
    requires lo <= hi <= |objects|
  {
    NoDuplicates(rl)
    && (forall mo :: mo in rl ==> Hits(c, p, mo) && exists i :: lo <= i < hi && objects[i] == mo)
    && (forall i :: lo <= i < hi && Hits(c, p, objects[i]) ==> objects[i] in rl)
  }

  function Added(rl: seq<MemoryObject>, hit: bool, mo: MemoryObject): seq<MemoryObject> {
    if hit then rl + [mo] else rl
  }

  lemma NothingFound(c: seq<Expr>, p: Expr, objects: seq<MemoryObject>, i: nat)
    requires i <= |objects|
    ensures Found(c, p, objects, i, i, [])
  {
  }

  lemma FoundBelow(c: seq<Expr>, p: Expr, objects: seq<MemoryObject>, lo: nat, hi: nat, rl: seq<MemoryObject>)
    requires LaidOut(objects, Width(p)) && 0 < lo <= hi <= |objects| && Found(c, p, objects, lo, hi, rl)
    ensures Found(c, p, objects, lo - 1, hi, Added(rl, Hits(c, p, objects[lo - 1]), objects[lo - 1]))
  {
    hide Hits, Width, InRange;
    assert forall i :: lo <= i < hi ==> Below(objects[lo - 1], objects[i]);
  }

  lemma FoundAbove(c: seq<Expr>, p: Expr, objects: seq<MemoryObject>, lo: nat, hi: nat, rl: seq<MemoryObject>)
    requires LaidOut(objects, Width(p)) && lo <= hi < |objects| && Found(c, p, objects, lo, hi, rl)
    ensures Found(c, p, objects, lo, hi + 1, Added(rl, Hits(c, p, objects[hi]), objects[hi]))
  {
    hide Hits, Width, InRange;
    assert forall i :: lo <= i < hi ==> Below(objects[i], objects[hi]);
  }

  /** Ranges in which nothing is hit may be left out. */
  lemma FoundAll(c: seq<Expr>, p: Expr, objects: seq<MemoryObject>, lo: nat, hi: nat, lo': nat, hi': nat, rl: seq<MemoryObject>)
    requires lo' <= lo <= hi <= hi' <= |objects| && Found(c, p, objects, lo, hi, rl)
    requires forall i :: lo' <= i < hi' && (i < lo || hi <= i) ==> !Hits(c, p, objects[i])
    ensures Found(c, p, objects, lo', hi', rl)
  {
    hide Hits;
  }

  /** A pointer that is always at or above an object's base is never below. */
  lemma NoneBelow(c: seq<Expr>, p: Expr, objects: seq<MemoryObject>, i: nat)
    requires LaidOut(objects, Width(p)) && i < |objects| && From(c, p, objects[i])
    ensures forall j :: 0 <= j < i ==> !Hits(c, p, objects[j])
  {
    hide Sat, Eval, Width, InRange;
    assert forall j :: 0 <= j < i ==> Below(objects[j], objects[i]);
  }

  lemma NoneAbove(c: seq<Expr>, p: Expr, objects: seq<MemoryObject>, i: nat)
    requires LaidOut(objects, Width(p)) && i < |objects| && Before(c, p, objects[i])
    ensures forall j :: i <= j < |objects| ==> !Hits(c, p, objects[j])
  {
    hide Sat, Eval, Width, InRange;
    assert forall j :: i < j < |objects| ==> Below(objects[i], objects[j]);
  }

  /** A pointer always within one object hits no other. */
  lemma NoneBeside(c: seq<Expr>, p: Expr, objects: seq<MemoryObject>, i: nat)
    requires LaidOut(objects, Width(p)) && i < |objects| && Within(c, p, objects[i])
    ensures forall j :: 0 <= j < |objects| && j != i ==> !Hits(c, p, objects[j])
  {
    hide Sat, Eval, Width, InRange;
    forall j | 0 <= j < |objects| && j != i ensures !Hits(c, p, objects[j]) {
      if j < i {
        assert Below(objects[j], objects[i]);
      } else {
        assert Below(objects[i], objects[j]);
      }
    }
  }

  // ------------------------------------------------------------------ resolution

  /** The first object whose address is above `v`. */
  function UpperBound(objects: seq<MemoryObject>, v: nat): (i: nat)
    ensures i <= |objects|
    ensures forall j :: 0 <= j < i ==> objects[j].address <= v
    ensures i < |objects| ==> v < objects[i].address
  {
    if objects == [] || v < objects[0].address then 0 else 1 + UpperBound(objects[1..], v)
  }

  datatype Search = More | Done | Capped

  /** The list is still below the cap, which counts from two on only. */
  predicate Uncapped(rl: seq<MemoryObject>, maxResolutions: nat) {
    maxResolutions > 1 ==> |rl| < maxResolutions
  }

  /** Looks at the objects before `start`, the nearest first. */
  method SearchBackwards(solver: Solver, c: seq<Expr>, p: Expr, objects: seq<MemoryObject>, start: nat, maxResolutions: nat)
    returns (rl: seq<MemoryObject>, search: Search)
    requires Context(solver, c, p) && LaidOut(objects, Width(p)) && start <= |objects|
    ensures search == More ==> Found(c, p, objects, 0, start, rl)
    ensures search == Done ==> Found(c, p, objects, 0, |objects|, rl)
    ensures search == Capped ==>
      |rl| == maxResolutions > 1 && exists lo | 0 <= lo <= start :: Found(c, p, objects, lo, start, rl)
    ensures search != Capped ==> Uncapped(rl, maxResolutions)
  {
    hide Exact, Width, Found, Hits, From, Within, MayBeTrue, MustBeTrue, CompareCreate, BoundsCheckPointer;
    rl := [];
    NothingFound(c, p, objects, start);
    var oi := start;
    while oi != 0
      invariant 0 <= oi <= start
      invariant Found(c, p, objects, oi, start, rl) && Uncapped(rl, maxResolutions)
    {
      var mo := objects[oi - 1];
      BoundsQueries(solver, c, p, mo);
      BaseQueries(solver, c, p, mo);
      FoundBelow(c, p, objects, oi, start, rl);
      oi := oi - 1;
      if MayBeTrue(solver, c, BoundsCheckPointer(mo, p)) {
        rl := rl + [mo];
        if |rl| == 1 {
          if MustBeTrue(solver, c, BoundsCheckPointer(mo, p)) {
            NoneBeside(c, p, objects, oi);
            FoundAll(c, p, objects, oi, start, 0, |objects|, rl);
            return rl, Done;
          }
        } else if |rl| == maxResolutions {
          return rl, Capped;
        }
      }
      if MustBeTrue(solver, c, CompareCreate(Uge, p, BaseExpr(mo, Width(p)))) {
        NoneBelow(c, p, objects, oi);
        FoundAll(c, p, objects, oi, start, 0, start, rl);
        return rl, More;
      }
    }
    search := More;
  }

  /** Looks at the objects from `start` on, with those before it found already. */
  method SearchForwards(solver: Solver, c: seq<Expr>, p: Expr, objects: seq<MemoryObject>, start: nat, maxResolutions: nat,
                        found: seq<MemoryObject>)
    returns (rl: seq<MemoryObject>, search: Search)
    requires Context(solver, c, p) && LaidOut(objects, Width(p)) && start <= |objects|
    requires Found(c, p, objects, 0, start, found) && Uncapped(found, maxResolutions)
    ensures search != Capped ==> Found(c, p, objects, 0, |objects|, rl) && Uncapped(rl, maxResolutions)
    ensures search == Capped ==>
      |rl| == maxResolutions > 1 && exists hi | start <= hi <= |objects| :: Found(c, p, objects, 0, hi, rl)
  {
    hide Exact, Width, Found, Hits, Before, Within, MayBeTrue, MustBeTrue, CompareCreate, BoundsCheckPointer;
    rl := found;
    var oi := start;
    while oi != |objects|
      invariant start <= oi <= |objects|
      invariant Found(c, p, objects, 0, oi, rl) && Uncapped(rl, maxResolutions)
    {
      var mo := objects[oi];
      BoundsQueries(solver, c, p, mo);
      BaseQueries(solver, c, p, mo);
      if MustBeTrue(solver, c, CompareCreate(Ult, p, BaseExpr(mo, Width(p)))) {
        NoneAbove(c, p, objects, oi);
        FoundAll(c, p, objects, 0, oi, 0, |objects|, rl);
        return rl, Done;
      }
      FoundAbove(c, p, objects, 0, oi, rl);
      oi := oi + 1;
      if MayBeTrue(solver, c, BoundsCheckPointer(mo, p)) {
        rl := rl + [mo];
        if |rl| == 1 {
          if MustBeTrue(solver, c, BoundsCheckPointer(mo, p)) {
            NoneBeside(c, p, objects, oi - 1);
            FoundAll(c, p, objects, 0, oi, 0, |objects|, rl);
            return rl, Done;
          }
        } else if |rl| == maxResolutions {
          return rl, Capped;
        }
      }
    }
    search := Done;
  }

  /** The object a concrete address is in: only the nearest one at or below it can be. */
  method ResolveAddress(objects: seq<MemoryObject>, v: nat, ghost w: nat) returns (result: Option<MemoryObject>)
    requires LaidOut(objects, w)
    ensures result.Some? ==> result.value in objects && InBounds(result.value, v)
    ensures forall mo :: mo in objects && InBounds(mo, v) ==> result == Some(mo)
  {
    hide InRange;
    var i := UpperBound(objects, v);
    forall j | 0 <= j < |objects| ensures InBounds(objects[j], v) ==> j == i - 1 {
      NearestOnly(objects, w, i, j, v);
    }
    if i > 0 {
      var mo := objects[i - 1];
      if (mo.size == 0 && v == mo.address) || v - mo.address < mo.size {
        return Some(mo);
      }
    }
    result := None;
  }

  lemma NearestOnly(objects: seq<MemoryObject>, w: nat, i: nat, j: nat, v: nat)
    requires LaidOut(objects, w) && i == UpperBound(objects, v) && j < |objects|
    ensures InBounds(objects[j], v) ==> j == i - 1
  {
    hide InRange;
    if j < i - 1 {
      assert Below(objects[j], objects[i - 1]);
    } else if i < j {
      assert Below(objects[i], objects[j]);
    }
  }

  /** All objects the pointer may be in bounds of, each once; a result that is not
      `complete` was cut short at the cap. A cap of one has no effect. */
  method Resolve(solver: Solver, getValue: ValueSolver, c: seq<Expr>, p: Expr, objects: seq<MemoryObject>, maxResolutions: nat)
    returns (rl: seq<MemoryObject>, complete: bool)
    requires Context(solver, c, p) && LaidOut(objects, Width(p))
    ensures NoDuplicates(rl) && forall mo :: mo in rl ==> mo in objects && Hits(c, p, mo)
    ensures complete ==> forall mo :: mo in objects && Hits(c, p, mo) ==> mo in rl
    ensures !complete <==> |rl| == maxResolutions > 1
    ensures maxResolutions > 1 ==> |rl| <= maxResolutions
  {
    hide Exact, Width, Hits, LaidOut;
    if p.Constant? {
      var result := ResolveAddress(objects, p.value, Width(p));
      ConstantHits(solver, c, p);
      return if result.Some? then [result.value] else [], true;
    }
    var start := UpperBound(objects, getValue(c, p));
    var search;
    rl, search := SearchBackwards(solver, c, p, objects, start, maxResolutions);
    if search == More {
      rl, search := SearchForwards(solver, c, p, objects, start, maxResolutions, rl);
    }
    complete := search != Capped;
  }

  lemma ConstantHits(solver: Solver, c: seq<Expr>, p: Expr)
    requires Context(solver, c, p) && p.Constant?
    ensures forall mo :: Hits(c, p, mo) <==> InBounds(mo, p.value)
  {
    hide Sat, InBounds, Exact;
    var a: Assignment :| Sat(c, a);
    assert Eval(p, a) == p.value;
  }

  /** Some object the pointer may be in bounds of, if there is any. */
  method ResolveOne(solver: Solver, getValue: ValueSolver, c: seq<Expr>, p: Expr, objects: seq<MemoryObject>)
    returns (result: Option<MemoryObject>)
    requires Context(solver, c, p) && LaidOut(objects, Width(p)) && ExactValue(getValue)
    ensures result.Some? ==> result.value in objects && Hits(c, p, result.value)
    ensures result.None? ==> forall mo :: mo in objects ==> !Hits(c, p, mo)
    ensures !p.Constant? ==>
      forall mo :: mo in objects && mo.size > 0 && InBounds(mo, getValue(c, p)) ==> result == Some(mo)
  {
    hide Exact, Width, Hits, LaidOut, ExactValue;
    if p.Constant? {
      result := ResolveAddress(objects, p.value, Width(p));
      ConstantHits(solver, c, p);
      return;
    }
    var example := getValue(c, p);
    var start := UpperBound(objects, example);
    forall j | 0 <= j < |objects| ensures InBounds(objects[j], example) ==> j + 1 == start {
      NearestOnly(objects, Width(p), start, j, example);
    }
    if start > 0 {
      var mo := objects[start - 1];
      if example - mo.address < mo.size {
        ExampleHits(getValue, c, p, mo);
        return Some(mo);
      }
    }
    result := OneBackwards(solver, c, p, objects, start);
    if result.None? {
      result := OneForwards(solver, c, p, objects, start);
    }
  }

  lemma ExampleHits(getValue: ValueSolver, c: seq<Expr>, p: Expr, mo: MemoryObject)
    requires ExactValue(getValue) && AllBool(c) && Satisfiable(c) && Width(p) > 0
    requires InBounds(mo, getValue(c, p))
    ensures Hits(c, p, mo)
  {
    hide Sat, Eval, Width, InBounds;
    assert Possible(c, p, getValue(c, p));
  }

  method OneBackwards(solver: Solver, c: seq<Expr>, p: Expr, objects: seq<MemoryObject>, start: nat)
    returns (result: Option<MemoryObject>)
    requires Context(solver, c, p) && LaidOut(objects, Width(p)) && start <= |objects|
    ensures result.Some? ==> result.value in objects && Hits(c, p, result.value)
    ensures result.None? ==> forall i :: 0 <= i < start ==> !Hits(c, p, objects[i])
  {
    hide Exact, Width, Hits, From, MayBeTrue, MustBeTrue, CompareCreate, BoundsCheckPointer;
    var oi := start;
    while oi != 0
      invariant 0 <= oi <= start
      invariant forall i :: oi <= i < start ==> !Hits(c, p, objects[i])
    {
      oi := oi - 1;
      var mo := objects[oi];
      BoundsQueries(solver, c, p, mo);
      BaseQueries(solver, c, p, mo);
      if MayBeTrue(solver, c, BoundsCheckPointer(mo, p)) {
        return Some(mo);
      } else if MustBeTrue(solver, c, CompareCreate(Uge, p, BaseExpr(mo, Width(p)))) {
        NoneBelow(c, p, objects, oi);
        return None;
      }
    }
    result := None;
  }

  method OneForwards(solver: Solver, c: seq<Expr>, p: Expr, objects: seq<MemoryObject>, start: nat)
    returns (result: Option<MemoryObject>)
    requires Context(solver, c, p) && LaidOut(objects, Width(p)) && start <= |objects|
    ensures result.Some? ==> result.value in objects && Hits(c, p, result.value)
    ensures result.None? ==> forall i :: start <= i < |objects| ==> !Hits(c, p, objects[i])
  {
    hide Exact, Width, Hits, Before, MayBeTrue, MustBeTrue, CompareCreate, BoundsCheckPointer;
    var oi := start;
    while oi != |objects|
      invariant start <= oi <= |objects|
      invariant forall i :: start <= i < oi ==> !Hits(c, p, objects[i])
    {
      var mo := objects[oi];
      BoundsQueries(solver, c, p, mo);
      BaseQueries(solver, c, p, mo);
      if MustBeTrue(solver, c, CompareCreate(Ult, p, BaseExpr(mo, Width(p)))) {
        NoneAbove(c, p, objects, oi);
        return None;
      } else if MayBeTrue(solver, c, BoundsCheckPointer(mo, p)) {
        return Some(mo);
      }
      oi := oi + 1;
    }
    result := None;
  }
}
