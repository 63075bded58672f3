/**
 Merging two states that stopped at the same place: the path conditions are joined by
 "or", and every differing value becomes a selection by the first state's condition.
 */
module Merging {
  import opened Bits
  import opened Collections
  import opened Exprs
  import opened LogicConstructors
  import opened Constructors
  import opened Constraints

  /** A register may be unset. */
  datatype Frame = Frame(caller: nat, kf: nat, locals: seq<Option<Expr>>)

  datatype Thread = Thread(pc: nat, stack: seq<Frame>)

  // -------------------------------------------------------------- path conditions

  ghost predicate AllHold(c: set<Expr>, a: Assignment) {
    forall e :: e in c ==> Eval(e, a) == 1
  }

  predicate AllBoolean(c: set<Expr>) {
    forall e :: e in c ==> Width(e) == BOOL
  }

  function Members(c: seq<Expr>): set<Expr> {
    set e | e in c
  }

  lemma SatMembers(c: seq<Expr>, a: Assignment)
    ensures Sat(c, a) <==> AllHold(Members(c), a)
  {
    hide Eval;
  }

  /** What both states have in common, and what each has beside. */
  function Common(c: seq<Expr>, d: seq<Expr>): set<Expr> {
    Members(c) * Members(d)
  }

  function Suffix(c: seq<Expr>, d: seq<Expr>): set<Expr> {
    Members(c) - Common(c, d)
  }

  lemma SatSplit(c: seq<Expr>, d: seq<Expr>, a: Assignment)
    ensures Sat(c, a) <==> AllHold(Common(c, d), a) && AllHold(Suffix(c, d), a)
    ensures Common(c, d) == Common(d, c)
  {
    hide Eval;
    SatMembers(c, a);
  }

  /** The constraints of a suffix as one expression, joined in any order. */
  method Conjunction(c: set<Expr>) returns (e: Expr)
    requires AllBoolean(c)
    ensures Width(e) == BOOL && forall a: Assignment :: Eval(e, a) == 1 <==> AllHold(c, a)
  {
    hide Width, Eval, AndCreate;
    BoolConstants();
    e := TRUE;
    ghost var done: set<Expr> := {};
    TrueHolds();
    var pending := c;
    while pending != {}
      invariant pending <= c && done == c - pending && Width(e) == BOOL
      invariant forall a: Assignment :: Eval(e, a) == 1 <==> AllHold(done, a)
      decreases pending
    {
      var x :| x in pending;
      ConjunctionStep(done, e, x);
      e := AndCreate(e, x);
      pending := pending - {x};
      done := done + {x};
    }
    assert done == c;
  }

  lemma TrueHolds()
    ensures forall a: Assignment :: Eval(TRUE, a) == 1 <==> AllHold({}, a)
  {
  }

  lemma ConjunctionStep(done: set<Expr>, e: Expr, x: Expr)
    requires Width(e) == BOOL && Width(x) == BOOL
    requires forall a: Assignment :: Eval(e, a) == 1 <==> AllHold(done, a)
    ensures Width(AndCreate(e, x)) == BOOL
    ensures forall a: Assignment :: Eval(AndCreate(e, x), a) == 1 <==> AllHold(done + {x}, a)
  {
    hide Width, Eval, AndCreate;
    AndCreateTyped(e, x);
    forall a: Assignment ensures Eval(AndCreate(e, x), a) == 1 <==> AllHold(done + {x}, a) {
      BoolAndOr(e, x, a);
    }
  }

  /** No assignment satisfies both. */
  ghost predicate Disjoint(c: seq<Expr>, d: seq<Expr>) {
    forall a: Assignment :: !(Sat(c, a) && Sat(d, a))
  }

  /** `inA` is what the first state has beside the common constraints. */
  ghost predicate Selects(inA: Expr, c: seq<Expr>, d: seq<Expr>) {
    Width(inA) == BOOL && forall a: Assignment :: Eval(inA, a) == 1 <==> AllHold(Suffix(c, d), a)
  }

  /** Under the first state's inputs the selector holds, under the second's it does not. */
  lemma SelectorSides(inA: Expr, c: seq<Expr>, d: seq<Expr>, a: Assignment)
    requires Selects(inA, c, d) && Disjoint(c, d)
    ensures Sat(c, a) ==> Eval(inA, a) == 1
    ensures Sat(d, a) ==> Eval(inA, a) != 1
  {
    hide Eval, Sat, AllHold;
    SatSplit(c, d, a);
    SatSplit(d, c, a);
  }

  /** The constraints after the merge, added one by one to an empty list. */
  method Rejoin(c: seq<Expr>, d: seq<Expr>, inA: Expr, inB: Expr) returns (m: ConstraintManager)
    requires AllBool(c) && AllBool(d) && Selects(inA, c, d) && Selects(inB, d, c)
    requires exists a: Assignment :: Sat(c, a)
    ensures fresh(m) && m.Valid()
    ensures forall a: Assignment :: Sat(m.constraints, a) <==> Sat(c, a) || Sat(d, a)
  {
    hide Eval, Width, Sat, AllHold, OrCreate, Conjoined, Common;
    ghost var one: Assignment :| Sat(c, one);
    m := new ConstraintManager();
    ghost var done: set<Expr> := {};
    NoneAdded(m.constraints);
    SatSplit(c, d, one);
    var pending := Common(c, d);
    CommonBool(c, d);
    while pending != {}
      invariant pending <= Common(c, d) && done == Common(c, d) - pending && m.Valid() && fresh(m)
      invariant forall a: Assignment :: Sat(m.constraints, a) <==> AllHold(done, a)
      decreases pending
    {
      var x :| x in pending;
      ghost var before := m.constraints;
      OneMore(done, x, Common(c, d), one);
      var ok := m.AddConstraint(x);
      OneAdded(before, m.constraints, done, x);
      pending := pending - {x};
      done := done + {x};
    }
    assert done == Common(c, d);
    ghost var before := m.constraints;
    EitherSide(inA, inB, c, d);
    var ok := m.AddConstraint(OrCreate(inA, inB));
    assert Sat(before, one) && Eval(OrCreate(inA, inB), one) == 1;
    Rejoined(before, m.constraints, OrCreate(inA, inB), c, d);
  }

  lemma NoneAdded(c: seq<Expr>)
    requires c == []
    ensures forall a: Assignment :: Sat(c, a) <==> AllHold({}, a)
  {
  }

  lemma CommonBool(c: seq<Expr>, d: seq<Expr>)
    requires AllBool(c) && AllBool(d)
    ensures AllBoolean(Common(c, d)) && AllBoolean(Suffix(c, d)) && AllBoolean(Suffix(d, c))
  {
    hide Width;
  }

  lemma OneMore(done: set<Expr>, x: Expr, all: set<Expr>, a: Assignment)
    requires done <= all && x in all && AllHold(all, a)
    ensures AllHold(done, a) && Eval(x, a) == 1
  {
    hide Eval;
  }

  lemma OneAdded(before: seq<Expr>, after: seq<Expr>, done: set<Expr>, x: Expr)
    requires forall a: Assignment :: Sat(before, a) <==> AllHold(done, a)
    requires Conjoined(after, before, x)
    ensures forall a: Assignment :: Sat(after, a) <==> AllHold(done + {x}, a)
  {
    hide Eval, Sat;
  }

  lemma EitherSide(inA: Expr, inB: Expr, c: seq<Expr>, d: seq<Expr>)
    requires Selects(inA, c, d) && Selects(inB, d, c)
    ensures Width(OrCreate(inA, inB)) == BOOL
    ensures forall a: Assignment ::
      Eval(OrCreate(inA, inB), a) == 1 <==> AllHold(Suffix(c, d), a) || AllHold(Suffix(d, c), a)
  {
    hide Width, Eval, OrCreate, Suffix;
    OrCreateTyped(inA, inB);
    forall a: Assignment
      ensures Eval(OrCreate(inA, inB), a) == 1 <==> AllHold(Suffix(c, d), a) || AllHold(Suffix(d, c), a)
    {
      BoolAndOr(inA, inB, a);
    }
  }

  lemma Rejoined(before: seq<Expr>, after: seq<Expr>, either: Expr, c: seq<Expr>, d: seq<Expr>)
    requires forall a: Assignment :: Sat(before, a) <==> AllHold(Common(c, d), a)
    requires forall a: Assignment ::
      Eval(either, a) == 1 <==> AllHold(Suffix(c, d), a) || AllHold(Suffix(d, c), a)
    requires Conjoined(after, before, either)
    ensures forall a: Assignment :: Sat(after, a) <==> Sat(c, a) || Sat(d, a)
  {
    hide Eval, Sat, AllHold;
    forall a: Assignment ensures Sat(after, a) <==> Sat(c, a) || Sat(d, a) {
      SatSplit(c, d, a);
      SatSplit(d, c, a);
    }
  }

  // -------------------------------------------------------------- control and registers

  predicate SameFrames(a: seq<Frame>, b: seq<Frame>) {
    |a| == |b| && forall i :: 0 <= i < |a| ==> a[i].caller == b[i].caller && a[i].kf == b[i].kf
  }

  predicate SameThread(t: Thread, u: Thread) {
    t.pc == u.pc && SameFrames(t.stack, u.stack)
  }

  /** The same threads at the same places. */
  predicate SameControl(a: map<int, Thread>, b: map<int, Thread>) {
    a.Keys == b.Keys && forall t :: t in a ==> SameThread(a[t], b[t])
  }

  /** The walk over two stacks at once. */
  method CompareStacks(a: seq<Frame>, b: seq<Frame>) returns (same: bool)
    ensures same <==> SameFrames(a, b)
  {
    var i := 0;
    while i < |a| && i < |b|
      invariant 0 <= i <= |a| && i <= |b|
      invariant forall j :: 0 <= j < i ==> a[j].caller == b[j].caller && a[j].kf == b[j].kf
    {
      if a[i].caller != b[i].caller || a[i].kf != b[i].kf {
        return false;
      }
      i := i + 1;
    }
    return i == |a| && i == |b|;
  }

  method CompareThreads(a: map<int, Thread>, b: map<int, Thread>) returns (same: bool)
    ensures same <==> SameControl(a, b)
  {
    if |a| != |b| {
      SameSize(a, b);
      return false;
    }
    var pending := a.Keys;
    while pending != {}
      invariant pending <= a.Keys
      invariant forall t :: t in a && t !in pending ==> t in b && SameThread(a[t], b[t])
      decreases pending
    {
      HasMember(pending);
      var t :| t in pending;
      if t !in b || a[t].pc != b[t].pc {
        return false;
      }
      var same' := CompareStacks(a[t].stack, b[t].stack);
      if !same' {
        return false;
      }
      pending := pending - {t};
    }
    forall t | t in a ensures t in b {
      assert t !in pending;
    }
    SameSize(a, b);
    return true;
  }

  /** Equally many keys, all of them shared, are the same keys. */
  lemma SameSize(a: map<int, Thread>, b: map<int, Thread>)
    ensures a.Keys == b.Keys ==> |a| == |b|
    ensures |a| == |b| && a.Keys <= b.Keys ==> a.Keys == b.Keys
  {
    assert |a| == |a.Keys| && |b| == |b.Keys|;
    SubsetSize(a.Keys, b.Keys);
  }

  lemma SubsetSize(s: set<int>, t: set<int>)
    ensures s <= t && |s| == |t| ==> s == t
  {
    if s <= t {
      assert t == s + (t - s);
      assert |t| == |s| + |t - s|;
    }
  }

  /** Registers set in both states have the same width. */
  predicate SameTypes(a: seq<Option<Expr>>, b: seq<Option<Expr>>) {
    |a| == |b|
    && forall i :: 0 <= i < |a| && a[i].Some? && b[i].Some? ==> 0 < Width(a[i].value) == Width(b[i].value)
  }

  ghost predicate Chosen(inA: Expr, x: Expr, y: Expr, r: Expr) {
    Width(r) == Width(x)
    && forall a: Assignment :: Eval(r, a) == if Eval(inA, a) == 1 then Eval(x, a) else Eval(y, a)
  }

  /** A register set in both states has the first's value where `inA` holds and the
      second's elsewhere; any other stays as it is in the first. */
  ghost predicate MergedLocals(inA: Expr, a: seq<Option<Expr>>, b: seq<Option<Expr>>, r: seq<Option<Expr>>) {
    |r| == |a| == |b|
    && forall i :: 0 <= i < |a| ==>
         if a[i].Some? && b[i].Some? then r[i].Some? && Chosen(inA, a[i].value, b[i].value, r[i].value)
         else r[i] == a[i]
  }

  lemma SelectChosen(inA: Expr, x: Expr, y: Expr)
    requires Width(inA) == BOOL && 0 < Width(x) == Width(y)
    ensures Chosen(inA, x, y, SelectCreate(inA, x, y))
  {
    hide Eval, Width, SelectCreate;
    SelectCreateTyped(inA, x, y);
    forall a: Assignment
      ensures Eval(SelectCreate(inA, x, y), a) == if Eval(inA, a) == 1 then Eval(x, a) else Eval(y, a)
    {
      SelectCreateSound(inA, x, y, a);
    }
  }

  method MergeLocals(inA: Expr, a: seq<Option<Expr>>, b: seq<Option<Expr>>) returns (r: seq<Option<Expr>>)
    requires Width(inA) == BOOL && SameTypes(a, b)
    ensures MergedLocals(inA, a, b, r)
  {
    hide Width, Chosen, SelectCreate;
    r := a;
    var i := 0;
    while i < |a|
      invariant 0 <= i <= |a| == |r| && r[i..] == a[i..]
      invariant forall j :: 0 <= j < i ==>
        if a[j].Some? && b[j].Some? then r[j].Some? && Chosen(inA, a[j].value, b[j].value, r[j].value)
        else r[j] == a[j]
    {
      assert r[i] == r[i..][0] == a[i];
      if a[i].Some? && b[i].Some? {
        SelectChosen(inA, a[i].value, b[i].value);
        r := r[i := Some(SelectCreate(inA, r[i].value, b[i].value))];
      }
      i := i + 1;
    }
  }

  ghost predicate MergedStack(inA: Expr, a: seq<Frame>, b: seq<Frame>, r: seq<Frame>) {
    |a| == |b| == |r| && SameFrames(a, r)
    && forall i :: 0 <= i < |a| ==> MergedLocals(inA, a[i].locals, b[i].locals, r[i].locals)
  }

  predicate StackTypes(a: seq<Frame>, b: seq<Frame>) {
    |a| == |b| && forall i :: 0 <= i < |a| ==> SameTypes(a[i].locals, b[i].locals)
  }

  method MergeStack(inA: Expr, a: seq<Frame>, b: seq<Frame>) returns (r: seq<Frame>)
    requires Width(inA) == BOOL && StackTypes(a, b)
    ensures MergedStack(inA, a, b, r)
  {
    hide Width, MergedLocals, SameTypes;
    r := [];
    var i := 0;
    while i < |a|
      invariant 0 <= i <= |a| && |r| == i && SameFrames(a[..i], r)
      invariant forall j :: 0 <= j < i ==> MergedLocals(inA, a[j].locals, b[j].locals, r[j].locals)
    {
      var locals := MergeLocals(inA, a[i].locals, b[i].locals);
      r := r + [a[i].(locals := locals)];
      i := i + 1;
    }
  }

  ghost predicate MergedThread(inA: Expr, t: Thread, u: Thread, r: Thread) {
    r.pc == t.pc && MergedStack(inA, t.stack, u.stack, r.stack)
  }

  ghost predicate MergedThreads(inA: Expr, a: map<int, Thread>, b: map<int, Thread>, r: map<int, Thread>) {
    a.Keys == b.Keys == r.Keys && forall t :: t in a ==> MergedThread(inA, a[t], b[t], r[t])
  }

  method MergeThreads(inA: Expr, a: map<int, Thread>, b: map<int, Thread>) returns (r: map<int, Thread>)
    requires Width(inA) == BOOL && a.Keys == b.Keys && forall t :: t in a ==> StackTypes(a[t].stack, b[t].stack)
    ensures MergedThreads(inA, a, b, r)
  {
    hide Width, MergedStack, StackTypes;
    r := a;
    var pending := a.Keys;
    while pending != {}
      invariant pending <= a.Keys == r.Keys
      invariant forall t :: t in pending ==> r[t] == a[t]
      invariant forall t :: t in a && t !in pending ==> MergedThread(inA, a[t], b[t], r[t])
      decreases pending
    {
      HasMember(pending);
      var t :| t in pending;
      var stack := MergeStack(inA, a[t].stack, b[t].stack);
      r := r[t := Thread(a[t].pc, stack)];
      pending := pending - {t};
    }
  }
}
