/**
 The path-condition manager. Adding an equality rewrites all constraints held so
 far, and each rewritten constraint is added afresh, which may rewrite again.
 */
module Constraints {
  import opened Bits
  import opened Exprs
  import opened LogicConstructors
  import opened Constructors
  import opened CanonicalForms
  import opened Visitor

  predicate AllBool(c: seq<Expr>) {
    forall i :: 0 <= i < |c| ==> Width(c[i]) == BOOL
  }

  /** `a` satisfies every constraint. */
  ghost predicate Sat(c: seq<Expr>, a: Assignment) {
    forall i :: 0 <= i < |c| ==> Eval(c[i], a) == 1
  }

  function TotalWeight(c: seq<Expr>): nat {
    if c == [] then 0 else TotalWeight(c[..|c| - 1]) + Weight(c[|c| - 1])
  }

  lemma TotalWeightSnoc(c: seq<Expr>, e: Expr)
    ensures TotalWeight(c + [e]) == TotalWeight(c) + Weight(e)
  {
    hide Weight;
    assert (c + [e])[..|c + [e]| - 1] == c;
  }

  lemma SatSnoc(c: seq<Expr>, e: Expr, a: Assignment)
    ensures Sat(c + [e], a) <==> Sat(c, a) && Eval(e, a) == 1
  {
    hide Eval;
    if Sat(c + [e], a) {
      forall i | 0 <= i < |c| ensures Eval(c[i], a) == 1 {
        assert (c + [e])[i] == c[i];
      }
      assert (c + [e])[|c|] == e;
    }
  }

  lemma SatPrefix(c: seq<Expr>, i: nat, a: Assignment)
    requires i < |c|
    ensures Sat(c, a) ==> Sat(c[..i], a) && Eval(c[i], a) == 1
  {
    hide Eval;
  }

  lemma {:induction false} TotalWeightPrefix(c: seq<Expr>, n: nat)
    requires n <= |c|
    ensures TotalWeight(c[..n]) <= TotalWeight(c)
    decreases |c|
  {
    hide Weight;
    if n < |c| {
      TotalWeightPrefix(c[..|c| - 1], n);
      assert c[..|c| - 1][..n] == c[..n];
    } else {
      assert c[..n] == c;
    }
  }

  /** `after` holds exactly where `before` and `e` do. */
  ghost predicate Conjoined(after: seq<Expr>, before: seq<Expr>, e: Expr) {
    forall a: Assignment :: Sat(after, a) <==> Sat(before, a) && Eval(e, a) == 1
  }

  /** No assignment satisfies `c` and `e`. */
  ghost predicate Unsat(c: seq<Expr>, e: Expr) {
    forall a: Assignment :: !(Sat(c, a) && Eval(e, a) == 1)
  }

  /** Where the replacements hold, the two lists say the same. */
  ghost predicate SameUnder(v: Replacer, c: seq<Expr>, d: seq<Expr>) {
    forall a: Assignment :: Holds(v, a) ==> (Sat(c, a) <==> Sat(d, a))
  }

  ghost predicate UnsatUnder(v: Replacer, c: seq<Expr>) {
    forall a: Assignment :: Holds(v, a) ==> !Sat(c, a)
  }

  lemma AndNodeSplits(l: Expr, r: Expr, a: Assignment)
    requires Width(l) == Width(r) == BOOL
    ensures Eval(Binary(And, l, r), a) == 1 <==> Eval(l, a) == 1 && Eval(r, a) == 1
  {
    hide Bitwise;
    BoolRange(l, a);
    BoolRange(r, a);
    BitwiseOneBit(BitAnd, Eval(l, a), Eval(r, a));
  }

  /** An added equality with a constant on its left, as `addConstraintInternal`
      recognises it. */
  predicate IsEquality(e: Expr) {
    e.Binary? && e.op == Eq && e.left.Constant?
  }

  lemma EqualityHolds(e: Expr, a: Assignment)
    requires IsEquality(e)
    ensures Eval(e, a) == 1 <==> Holds(ReplaceOne(e.right, e.left), a)
  {
  }

  // -------------------------------------------- steps of the manager, on values

  lemma SplitStep(c0: seq<Expr>, c1: seq<Expr>, c2: seq<Expr>, e: Expr)
    requires e.Binary? && e.op == And && Width(e.left) == Width(e.right) == BOOL
    requires Conjoined(c1, c0, e.left) && Conjoined(c2, c1, e.right)
    ensures Conjoined(c2, c0, e)
  {
    hide Sat, Eval, Width;
    forall a: Assignment ensures Sat(c2, a) <==> Sat(c0, a) && Eval(e, a) == 1 {
      AndNodeSplits(e.left, e.right, a);
    }
  }

  lemma SplitUnsat(c0: seq<Expr>, c1: seq<Expr>, e: Expr)
    requires e.Binary? && e.op == And && Width(e.left) == Width(e.right) == BOOL
    requires Unsat(c0, e.left) || (Conjoined(c1, c0, e.left) && Unsat(c1, e.right))
    ensures Unsat(c0, e)
  {
    hide Sat, Eval, Width;
    forall a: Assignment ensures !(Sat(c0, a) && Eval(e, a) == 1) {
      AndNodeSplits(e.left, e.right, a);
    }
  }

  lemma ConstantStep(c: seq<Expr>, e: Expr)
    requires e.Constant? && Width(e) == BOOL
    ensures e.value == 1 ==> Conjoined(c, c, e)
    ensures e.value != 1 ==> Unsat(c, e)
  {
    hide Sat, Width;
  }

  lemma AndNodeTyped(e: Expr)
    requires e.Binary? && e.op == And && Width(e) == BOOL
    ensures Width(e.left) == Width(e.right) == BOOL
    ensures Weight(e.left) + Weight(e.right) <= Weight(e)
    ensures Size(e.left) < Size(e) && Size(e.right) < Size(e)
  {
  }

  lemma EqualityNodeTyped(e: Expr)
    requires IsEquality(e) && Width(e) == BOOL
    ensures EqualityKey(e) == e.right && EqualityValue(e) == e.left
    ensures ValidReplacer(ReplaceOne(e.right, e.left)) && Weight(e) > 0
  {
  }

  lemma PushStep(c: seq<Expr>, e: Expr)
    ensures Conjoined(c + [e], c, e)
  {
    hide Sat, Eval;
    forall a: Assignment ensures Sat(c + [e], a) <==> Sat(c, a) && Eval(e, a) == 1 {
      SatSnoc(c, e, a);
    }
  }

  lemma EqualityStep(c0: seq<Expr>, c1: seq<Expr>, e: Expr)
    requires IsEquality(e) && SameUnder(ReplaceOne(e.right, e.left), c1, c0)
    ensures Conjoined(c1 + [e], c0, e)
  {
    hide Sat, Eval, Holds;
    forall a: Assignment ensures Sat(c1 + [e], a) <==> Sat(c0, a) && Eval(e, a) == 1 {
      SatSnoc(c1, e, a);
      EqualityHolds(e, a);
    }
  }

  lemma EqualityUnsat(c0: seq<Expr>, e: Expr)
    requires IsEquality(e) && UnsatUnder(ReplaceOne(e.right, e.left), c0)
    ensures Unsat(c0, e)
  {
    hide Sat, Eval, Holds;
    forall a: Assignment ensures !(Sat(c0, a) && Eval(e, a) == 1) {
      EqualityHolds(e, a);
    }
  }

  /** One constraint `ce` rewritten to `e` and added to the list built so far. */
  lemma RewriteStep(v: Replacer, done: seq<Expr>, ce: Expr, built: seq<Expr>, e: Expr, built': seq<Expr>)
    requires ValidReplacer(v) && Width(ce) > 0 && e == Rewritten(v, ce)
    requires SameUnder(v, built, done) && Conjoined(built', built, e)
    ensures SameUnder(v, built', done + [ce])
  {
    hide Sat, Eval, Holds, Rewritten, Width, ValidReplacer;
    forall a: Assignment | Holds(v, a) ensures Sat(built', a) <==> Sat(done + [ce], a) {
      SatSnoc(done, ce, a);
      RewrittenSound(v, ce, a);
    }
  }

  lemma RewriteUnsat(v: Replacer, c: seq<Expr>, i: nat, built: seq<Expr>, e: Expr)
    requires ValidReplacer(v) && i < |c| && Width(c[i]) > 0 && e == Rewritten(v, c[i])
    requires SameUnder(v, built, c[..i]) && Unsat(built, e)
    ensures UnsatUnder(v, c)
  {
    hide Eval, Sat, Holds, Rewritten, Width, ValidReplacer;
    forall a: Assignment | Holds(v, a) ensures !Sat(c, a) {
      RewrittenSound(v, c[i], a);
      SatPrefix(c, i, a);
    }
  }

  // ------------------------------------------------------------- simplification

  /** The equality a constraint stands for: `x == k` for `k == x`, otherwise the
      constraint itself is true. */
  function EqualityKey(c: Expr): Expr {
    if IsEquality(c) then c.right else c
  }

  function EqualityValue(c: Expr): Expr {
    if IsEquality(c) then c.left else TRUE
  }

  lemma EqualityTyped(c: Expr)
    requires Width(c) == BOOL
    ensures EqualityValue(c).Constant?
    ensures Width(EqualityValue(c)) == Width(EqualityKey(c)) > 0
  {
    BoolConstants();
  }

  lemma EqualitySound(c: Expr, a: Assignment)
    requires Eval(c, a) == 1
    ensures Eval(EqualityKey(c), a) == Eval(EqualityValue(c), a)
  {
  }

  /** Every entry of the map comes from one of the constraints. */
  ghost predicate FromConstraints(m: map<Expr, Expr>, c: seq<Expr>) {
    forall k :: k in m ==> exists i :: 0 <= i < |c| && k == EqualityKey(c[i]) && m[k] == EqualityValue(c[i])
  }

  lemma FromConstraintsValid(m: map<Expr, Expr>, c: seq<Expr>)
    requires AllBool(c) && FromConstraints(m, c)
    ensures ValidReplacer(ReplaceAll(m))
  {
    hide Width, EqualityKey, EqualityValue;
    forall k | k in m ensures m[k].Constant? && Width(m[k]) == Width(k) > 0 {
      var i :| 0 <= i < |c| && k == EqualityKey(c[i]) && m[k] == EqualityValue(c[i]);
      EqualityTyped(c[i]);
    }
  }

  lemma FromConstraintsHolds(m: map<Expr, Expr>, c: seq<Expr>, a: Assignment)
    requires FromConstraints(m, c) && Sat(c, a)
    ensures Holds(ReplaceAll(m), a)
  {
    hide Eval, EqualityKey, EqualityValue;
    forall k | k in m ensures Eval(k, a) == Eval(m[k], a) {
      var i :| 0 <= i < |c| && k == EqualityKey(c[i]) && m[k] == EqualityValue(c[i]);
      EqualitySound(c[i], a);
    }
  }

  lemma FromConstraintsGrows(m: map<Expr, Expr>, c: seq<Expr>, i: nat, m': map<Expr, Expr>)
    requires i < |c| && FromConstraints(m, c[..i])
    requires m' == m || m' == m[EqualityKey(c[i]) := EqualityValue(c[i])]
    ensures FromConstraints(m', c[..i + 1])
  {
    hide EqualityKey, EqualityValue;
    var d := c[..i + 1];
    forall k | k in m'
      ensures exists j :: 0 <= j < |d| && k == EqualityKey(d[j]) && m'[k] == EqualityValue(d[j])
    {
      if k in m && m'[k] == m[k] {
        var j :| 0 <= j < i && k == EqualityKey(c[..i][j]) && m[k] == EqualityValue(c[..i][j]);
        assert d[j] == c[..i][j];
      } else {
        assert d[i] == c[i];
      }
    }
  }

  // ------------------------------------------------------------- what is left over

  /** What a constraint gives a value to: `x` for `k == x` with a constant `k`, and itself
      otherwise. */
  predicate Decides(c: Expr, s: Expr) {
    if c.Binary? && c.op == Eq && c.left.Constant? then s == c.right else s == c
  }

  /** Something that the path condition has a value for occurs in `e`. */
  ghost predicate Simplifiable(c: seq<Expr>, e: Expr) {
    exists i, s :: 0 <= i < |c| && Decides(c[i], s) && Contains(e, s)
  }

  /** The keys of the map are those of the constraints. */
  ghost predicate AllKeys(m: map<Expr, Expr>, c: seq<Expr>) {
    forall i :: 0 <= i < |c| ==> EqualityKey(c[i]) in m
  }

  lemma KeysOccur(m: map<Expr, Expr>, c: seq<Expr>, e: Expr)
    requires FromConstraints(m, c) && AllKeys(m, c)
    ensures Occurs(ReplaceAll(m), e) <==> Simplifiable(c, e)
  {
    hide EqualityKey, EqualityValue, Contains, Decides;
    if Occurs(ReplaceAll(m), e) {
      var s :| Replaces(ReplaceAll(m), s) && Contains(e, s);
      var i :| 0 <= i < |c| && s == EqualityKey(c[i]) && m[s] == EqualityValue(c[i]);
      KeyDecided(c[i], s);
    }
    if Simplifiable(c, e) {
      var i, s :| 0 <= i < |c| && Decides(c[i], s) && Contains(e, s);
      KeyDecided(c[i], s);
      assert Replaces(ReplaceAll(m), s);
    }
  }

  lemma KeyDecided(c: Expr, s: Expr)
    ensures Decides(c, s) <==> s == EqualityKey(c)
  {
  }

  lemma OneOccurs(src: Expr, dst: Expr, e: Expr)
    ensures Occurs(ReplaceOne(src, dst), e) <==> Contains(e, src)
  {
    hide Contains;
    if Contains(e, src) {
      assert Replaces(ReplaceOne(src, dst), src);
    }
  }

  /** `e` gives a value to something that occurs in a constraint. */
  ghost predicate Settles(c: seq<Expr>, e: Expr) {
    e.Binary? && e.op == Eq && e.left.Constant? && exists i :: 0 <= i < |c| && Contains(c[i], e.right)
  }

  lemma SettlesOccurs(c: seq<Expr>, e: Expr, dst: Expr)
    requires IsEquality(e)
    ensures Settles(c, e) <==> exists i :: 0 <= i < |c| && Occurs(ReplaceOne(EqualityKey(e), dst), c[i])
  {
    hide Contains, Occurs;
    if Settles(c, e) {
      var i :| 0 <= i < |c| && Contains(c[i], e.right);
      OneOccurs(EqualityKey(e), dst, c[i]);
    }
    if i :| 0 <= i < |c| && Occurs(ReplaceOne(EqualityKey(e), dst), c[i]) {
      OneOccurs(EqualityKey(e), dst, c[i]);
    }
  }

  /** No constraint is a constant or a conjunction. */
  predicate Split(c: seq<Expr>) {
    forall i :: 0 <= i < |c| ==> !c[i].Constant? && !(c[i].Binary? && c[i].op == And)
  }

  /** `e` goes to the end of the list, which changes otherwise only if `e` settles
      something in it. */
  ghost predicate Appended(c: seq<Expr>, c': seq<Expr>, e: Expr) {
    |c'| > 0 && c'[|c'| - 1] == e && (!Settles(c, e) ==> c' == c + [e])
  }

  predicate AllCanonical(c: seq<Expr>) {
    forall i :: 0 <= i < |c| ==> Canonical(c[i])
  }

  // ---------------------------------------------------------------- the manager

  class ConstraintManager {
    var constraints: seq<Expr>

    ghost predicate Valid()
      reads this
    {
      AllBool(constraints)
    }

    constructor ()
      ensures Valid() && constraints == []
    {
      constraints := [];
    }

    /** Simplifies by the equalities on record: no assignment that satisfies the
        constraints sees a different value. */
    method SimplifyExpr(e: Expr) returns (r: Expr)
      requires Valid() && Width(e) > 0
      ensures Width(r) == Width(e) && Weight(r) <= Weight(e)
      ensures forall a: Assignment :: Sat(constraints, a) ==> Eval(r, a) == Eval(e, a)
      ensures r != e <==> Simplifiable(constraints, e)
      ensures r != e ==> Weight(r) < Weight(e)
      ensures !Simplifiable(constraints, r)
      ensures Canonical(e) ==> Canonical(r)
    {
      hide Width, Weight, Eval, Sat, Holds, EqualityKey, EqualityValue, Rewritten, Occurs, Canonical;
      if e.Constant? {
        return e;
      }
      var equalities: map<Expr, Expr> := map[];
      var i := 0;
      while i < |constraints|
        invariant 0 <= i <= |constraints|
        invariant FromConstraints(equalities, constraints[..i])
        invariant AllKeys(equalities, constraints[..i])
      {
        var m := equalities;
        var key := EqualityKey(constraints[i]);
        if key !in equalities {
          equalities := equalities[key := EqualityValue(constraints[i])];
        }
        FromConstraintsGrows(m, constraints, i, equalities);
        i := i + 1;
      }
      assert constraints[..i] == constraints;
      FromConstraintsValid(equalities, constraints);
      var visitor := new ExprVisitor(ReplaceAll(equalities));
      r := visitor.Visit(e);
      KeysOccur(equalities, constraints, e);
      KeysOccur(equalities, constraints, r);
      RewrittenChanges(ReplaceAll(equalities), e);
      RewrittenNormal(equalities, e);
      if Canonical(e) {
        RewrittenCanonical(ReplaceAll(equalities), e);
      }
      forall a: Assignment | Sat(constraints, a) ensures Eval(r, a) == Eval(e, a) {
        FromConstraintsHolds(equalities, constraints, a);
        RewrittenSound(ReplaceAll(equalities), e, a);
      }
    }

    /** Rewrites every constraint held so far. `ok` is false if the assertion
        against a false constraint fired on the way. */
    method RewriteConstraints(visitor: ExprVisitor) returns (changed: bool, ok: bool)
      requires Valid() && visitor.Valid()
      modifies this, visitor
      ensures Valid()
      ensures ok ==> SameUnder(visitor.replacer, constraints, old(constraints))
      ensures !ok ==> UnsatUnder(visitor.replacer, old(constraints))
      ensures ok && changed ==> TotalWeight(constraints) < TotalWeight(old(constraints))
      ensures ok && !changed ==> constraints == old(constraints)
      ensures ok ==> (changed <==> exists i :: 0 <= i < |old(constraints)| && Occurs(visitor.replacer, old(constraints)[i]))
      ensures ok && Split(old(constraints)) ==> Split(constraints)
      ensures AllCanonical(old(constraints)) ==> AllCanonical(constraints)
      decreases TotalWeight(constraints), 0, 0
    {
      hide Canonical, Occurs, Width, Weight, TotalWeight, Sat, Eval, Holds, Rewritten, ValidReplacer, Conjoined, Unsat, SameUnder, UnsatUnder;
      var v := visitor.replacer;
      var before := constraints;
      changed := false;
      constraints := [];
      SameUnderRefl(v, []);
      var i := 0;
      while i < |before|
        invariant 0 <= i <= |before|
        invariant Valid() && visitor.Valid() && AllBool(before)
        invariant SameUnder(v, constraints, before[..i])
        invariant TotalWeight(constraints) <= TotalWeight(before[..i])
        invariant changed ==> TotalWeight(constraints) < TotalWeight(before[..i])
        invariant !changed ==> constraints == before[..i]
        invariant changed <==> exists j :: 0 <= j < i && Occurs(v, before[j])
        invariant Split(before) ==> Split(constraints)
        invariant AllCanonical(before) ==> AllCanonical(constraints)
        decreases |before| - i
      {
        var ce := before[i];
        assert before[..i + 1] == before[..i] + [ce];
        TotalWeightSnoc(before[..i], ce);
        TotalWeightPrefix(before, i + 1);
        var e := visitor.Visit(ce);
        RewrittenChanges(v, ce);
        if AllCanonical(before) {
          RewrittenCanonical(v, ce);
        }
        ghost var built := constraints;
        if e != ce {
          var fine := AddConstraintInternal(e);
          if !fine {
            RewriteUnsat(v, before, i, built, e);
            return true, false;
          }
          changed := true;
        } else {
          PushStep(built, ce);
          TotalWeightSnoc(built, ce);
          constraints := constraints + [ce];
        }
        RewriteStep(v, before[..i], ce, built, e, constraints);
        i := i + 1;
      }
      assert before[..i] == before;
      ok := true;
    }

    /** Adds one constraint. `ok` is false if the assertion against a false
        constraint fired. */
    method AddConstraintInternal(e: Expr) returns (ok: bool)
      requires Valid() && Width(e) == BOOL
      modifies this
      ensures Valid()
      ensures ok ==> Conjoined(constraints, old(constraints), e)
      ensures !ok ==> Unsat(old(constraints), e)
      ensures ok ==> TotalWeight(constraints) <= TotalWeight(old(constraints)) + Weight(e)
      ensures ok && Settles(old(constraints), e) ==> TotalWeight(constraints) < TotalWeight(old(constraints)) + Weight(e)
      ensures ok && Split(old(constraints)) ==> Split(constraints)
      ensures AllCanonical(old(constraints)) && Canonical(e) ==> AllCanonical(constraints)
      ensures ok && !e.Constant? && !(e.Binary? && e.op == And) ==> Appended(old(constraints), constraints, e)
      decreases TotalWeight(constraints) + Weight(e), Size(e), 1
    {
      hide Canonical, Contains, Occurs, Width, Weight, TotalWeight, Sat, Eval, Holds, Conjoined, Unsat, SameUnder, UnsatUnder, ValidReplacer;
      ghost var c0 := constraints;
      if e.Constant? {
        ok := e.value == 1;
        ConstantStep(c0, e);
      } else if e.Binary? && e.op == And {
        AndNodeTyped(e);
        if Canonical(e) {
          CanonicalParts(e);
        }
        ok := AddConstraintInternal(e.left);
        ghost var c1 := constraints;
        if ok {
          ok := AddConstraintInternal(e.right);
          if ok {
            SplitStep(c0, c1, constraints, e);
            return;
          }
        }
        SplitUnsat(c0, c1, e);
      } else if IsEquality(e) {
        EqualityNodeTyped(e);
        var visitor := new ExprVisitor(ReplaceOne(EqualityKey(e), EqualityValue(e)));
        var changed, fine := RewriteConstraints(visitor);
        ok := fine;
        if ok {
          SettlesOccurs(c0, e, EqualityValue(e));
          EqualityStep(c0, constraints, e);
          TotalWeightSnoc(constraints, e);
          constraints := constraints + [e];
        } else {
          EqualityUnsat(c0, e);
        }
      } else {
        PushStep(constraints, e);
        TotalWeightSnoc(constraints, e);
        constraints := constraints + [e];
        ok := true;
      }
    }

    /** Adds a Boolean expression to the path condition: the list left behind is
        satisfied by exactly the assignments that satisfied the old list and `e`.
        If there is such an assignment at all, the assertion cannot fire. */
    method AddConstraint(e: Expr) returns (ok: bool)
      requires Valid() && Width(e) == BOOL
      modifies this
      ensures Valid()
      ensures ok ==> Conjoined(constraints, old(constraints), e)
      ensures (exists a: Assignment :: Sat(old(constraints), a) && Eval(e, a) == 1) ==> ok
      ensures ok && Simplifiable(old(constraints), e) ==>
        TotalWeight(constraints) < TotalWeight(old(constraints)) + Weight(e)
      ensures ok && Split(old(constraints)) ==> Split(constraints)
      ensures AllCanonical(old(constraints)) && Canonical(e) ==> AllCanonical(constraints)
    {
      hide Width, Weight, TotalWeight, Sat, Eval, Simplifiable, Canonical;
      var s := SimplifyExpr(e);
      ok := AddConstraintInternal(s);
    }
  }

  lemma SameUnderRefl(v: Replacer, c: seq<Expr>)
    ensures SameUnder(v, c, c)
  {
  }
}
