/**
 The constant-folding expression builder over the default one, which only allocates.
 */
module FoldingBuilder {
  import opened Bits
  import opened Exprs
  import opened LogicConstructors
  import opened LinearConstructors
  import opened Constructors

  predicate IsAdd(e: Expr) {
    e.Binary? && e.op == Add
  }

  predicate IsSub(e: Expr) {
    e.Binary? && e.op == Sub
  }

  function Negated(c: Expr): (n: Expr)
    requires c.Constant? && Width(c) > 0
    ensures n.Constant? && Width(n) == Width(c) && Size(n) == 1
  {
    ZeroTyped(c);
    FoldLinear(Sub, Constant(0, c.width), c)
  }

  /** What every rule promises; termination rests on the size. */
  predicate Sized(e: Expr, l: Expr, r: Expr) {
    Width(e) == Width(l) && Size(e) <= 1 + Size(l) + Size(r)
  }

  function BuildAdd(l: Expr, r: Expr): (e: Expr)
    requires Matching(l, r)
    ensures Sized(e, l, r)
    decreases Size(l) + Size(r), NonConst(l) + NonConst(r), Size(l), 2
  {
    if l.Constant? then
      if r.Constant? then FoldLinear(Add, l, r) else AddToConst(l, r)
    else if r.Constant? then AddToConst(r, l)
    else AddBoth(l, r)
  }

  function AddToConst(c: Expr, x: Expr): (e: Expr)
    requires c.Constant? && !x.Constant? && Matching(c, x)
    ensures Sized(e, c, x)
    decreases Size(c) + Size(x), 1, 0, 0
  {
    if c.value == 0 then x
    else if IsAdd(x) && x.left.Constant? then BuildAdd(FoldLinear(Add, c, x.left), x.right)
    else if IsAdd(x) && x.right.Constant? then BuildAdd(FoldLinear(Add, c, x.right), x.left)
    else if IsSub(x) && x.left.Constant? then BuildSub(FoldLinear(Add, c, x.left), x.right)
    else if IsSub(x) && x.right.Constant? then BuildAdd(FoldLinear(Sub, c, x.right), x.left)
    else Binary(Add, c, x)
  }

  function AddBoth(l: Expr, r: Expr): (e: Expr)
    requires !l.Constant? && !r.Constant? && Matching(l, r)
    ensures Sized(e, l, r)
    decreases Size(l) + Size(r), 2, Size(l), 1
  {
    if IsAdd(l) then BuildAdd(l.left, BuildAdd(l.right, r))
    else if IsSub(l) then BuildAdd(l.left, BuildSub(r, l.right))
    else AddRight(l, r)
  }

  function AddRight(l: Expr, r: Expr): (e: Expr)
    requires !l.Constant? && !r.Constant? && Matching(l, r)
    ensures Sized(e, l, r)
    decreases Size(l) + Size(r), 2, Size(l), 0
  {
    if IsAdd(r) && r.left.Constant? then BuildAdd(r.left, BuildAdd(l, r.right))
    else if IsAdd(r) && r.right.Constant? then BuildAdd(r.right, BuildAdd(l, r.left))
    else if IsSub(r) && r.left.Constant? then BuildAdd(r.left, BuildSub(l, r.right))
    else if IsSub(r) && r.right.Constant? then BuildAdd(Negated(r.right), BuildAdd(l, r.left))
    else Binary(Add, l, r)
  }

  function BuildSub(l: Expr, r: Expr): (e: Expr)
    requires Matching(l, r)
    ensures Sized(e, l, r)
    decreases Size(l) + Size(r), NonConst(l) + NonConst(r), Size(l), 2
  {
    if l.Constant? then
      if r.Constant? then FoldLinear(Sub, l, r) else SubFromConst(l, r)
    else if r.Constant? then AddToConst(Negated(r), l)
    else SubBoth(l, r)
  }

  function SubFromConst(c: Expr, x: Expr): (e: Expr)
    requires c.Constant? && !x.Constant? && Matching(c, x)
    ensures Sized(e, c, x)
    decreases Size(c) + Size(x), 1, 0, 0
  {
    if IsAdd(x) && x.left.Constant? then BuildSub(FoldLinear(Sub, c, x.left), x.right)
    else if IsAdd(x) && x.right.Constant? then BuildSub(FoldLinear(Sub, c, x.right), x.left)
    else if IsSub(x) && x.left.Constant? then BuildAdd(FoldLinear(Sub, c, x.left), x.right)
    else if IsSub(x) && x.right.Constant? then BuildSub(FoldLinear(Add, c, x.right), x.left)
    else Binary(Sub, c, x)
  }

  function SubBoth(l: Expr, r: Expr): (e: Expr)
    requires !l.Constant? && !r.Constant? && Matching(l, r)
    ensures Sized(e, l, r)
    decreases Size(l) + Size(r), 2, Size(l), 1
  {
    if IsAdd(l) then BuildAdd(l.left, BuildSub(l.right, r))
    else if IsSub(l) then BuildSub(l.left, BuildAdd(l.right, r))
    else SubRight(l, r)
  }

  function SubRight(l: Expr, r: Expr): (e: Expr)
    requires !l.Constant? && !r.Constant? && Matching(l, r)
    ensures Sized(e, l, r)
    decreases Size(l) + Size(r), 2, Size(l), 0
  {
    if IsAdd(r) && r.left.Constant? then BuildAdd(Negated(r.left), BuildSub(l, r.right))
    else if IsAdd(r) && r.right.Constant? then BuildAdd(Negated(r.right), BuildSub(l, r.left))
    else if IsSub(r) && r.left.Constant? then BuildAdd(Negated(r.left), BuildAdd(l, r.right))
    else if IsSub(r) && r.right.Constant? then BuildAdd(r.right, BuildSub(l, r.left))
    else Binary(Sub, l, r)
  }

  // ----------------------------------------------------------------------- meaning

  lemma NegatedSound(c: Expr)
    requires c.Constant? && Width(c) > 0
    ensures Negated(c).value == Wrap(Width(c), 0 - c.value)
  {
    hide Wrap, Pow2;
    ZeroTyped(c);
    FoldLinearSound(Sub, Constant(0, c.width), c);
  }

  lemma LinearParts(e: Expr, a: Assignment)
    requires (IsAdd(e) || IsSub(e)) && Width(e) > 0
    ensures Width(e.left) == Width(e.right) == Width(e) && Size(e) == 1 + Size(e.left) + Size(e.right)
    ensures e.left.Constant? ==> Eval(e.left, a) == e.left.value
    ensures e.right.Constant? ==> Eval(e.right, a) == e.right.value
    ensures Eval(e, a)
         == Wrap(Width(e), if IsAdd(e) then Eval(e.left, a) + Eval(e.right, a) else Eval(e.left, a) - Eval(e.right, a))
  {
    hide Wrap, Pow2;
  }

  lemma ConstantParts(c: Expr, a: Assignment)
    requires c.Constant?
    ensures Size(c) == 1 && Eval(c, a) == c.value
  {
  }

  /** The builder's sum means what the plain node means ... */
  lemma {:induction false} BuildAddSound(l: Expr, r: Expr, a: Assignment)
    requires Matching(l, r)
    ensures Eval(BuildAdd(l, r), a) == Wrap(Width(l), Eval(l, a) + Eval(r, a))
    decreases Size(l) + Size(r), NonConst(l) + NonConst(r), Size(l), 2
  {
    hide Wrap, Pow2, AddToConst, AddBoth, FoldLinear, Width;
    if l.Constant? && r.Constant? {
      ZeroTyped(l);
      FoldLinearSound(Add, l, r);
    } else if l.Constant? {
      AddToConstSound(l, r, a);
    } else if r.Constant? {
      AddToConstSound(r, l, a);
    } else {
      AddBothSound(l, r, a);
    }
  }

  /** ... and so does its difference. */
  lemma {:induction false} BuildSubSound(l: Expr, r: Expr, a: Assignment)
    requires Matching(l, r)
    ensures Eval(BuildSub(l, r), a) == Wrap(Width(l), Eval(l, a) - Eval(r, a))
    decreases Size(l) + Size(r), NonConst(l) + NonConst(r), Size(l), 2
  {
    hide Wrap, Pow2, AddToConst, SubFromConst, SubBoth, FoldLinear, Negated;
    if l.Constant? && r.Constant? {
      ZeroTyped(l);
      FoldLinearSound(Sub, l, r);
    } else if l.Constant? {
      SubFromConstSound(l, r, a);
    } else if r.Constant? {
      NegatedSound(r);
      AddToConstSound(Negated(r), l, a);
      RegroupNegated(Width(l), r.value, Eval(l, a), 0);
    } else {
      SubBothSound(l, r, a);
    }
  }

  lemma {:induction false} AddToConstSound(c: Expr, x: Expr, a: Assignment)
    requires c.Constant? && !x.Constant? && Matching(c, x)
    ensures Eval(AddToConst(c, x), a) == Wrap(Width(x), c.value + Eval(x, a))
    decreases Size(c) + Size(x), 1, 0, 1
  {
    hide Wrap, Pow2, BuildAdd, BuildSub, Width;
    if c.value == 0 {
      EvalRange(x, a);
      WrapId(Width(x), Eval(x, a));
    } else if (IsAdd(x) || IsSub(x)) && (x.left.Constant? || x.right.Constant?) {
      AddConstSound(c, x, a);
    }
  }

  lemma {:induction false} AddConstSound(c: Expr, x: Expr, a: Assignment)
    requires c.Constant? && c.value != 0 && Matching(c, x)
    requires (IsAdd(x) || IsSub(x)) && (x.left.Constant? || x.right.Constant?)
    ensures Eval(AddToConst(c, x), a) == Wrap(Width(x), c.value + Eval(x, a))
    decreases Size(c) + Size(x), 1, 0, 0
  {
    hide Wrap, Pow2, BuildAdd, BuildSub, Width, Eval, Size;
    LinearParts(x, a);
    ConstantParts(c, a);
    var w, op := Width(c), if x.left.Constant? || IsAdd(x) then Add else Sub;
    var k, y := if x.left.Constant? then x.left else x.right, if x.left.Constant? then x.right else x.left;
    ConstantWidth(c);
    FoldLinearSound(op, c, k);
    ConstantParts(FoldLinear(op, c, k), a);
    if IsAdd(x) || !x.left.Constant? {
      BuildAddSound(FoldLinear(op, c, k), y, a);
    } else {
      BuildSubSound(FoldLinear(op, c, k), y, a);
    }
    if IsAdd(x) || x.left.Constant? {
      RegroupAdd(w, c.value, k.value, Eval(y, a));
    } else {
      RegroupAdd(w, c.value, Eval(y, a), k.value);
    }
  }

  lemma {:induction false} SubFromConstSound(c: Expr, x: Expr, a: Assignment)
    requires c.Constant? && !x.Constant? && Matching(c, x)
    ensures Eval(SubFromConst(c, x), a) == Wrap(Width(x), c.value - Eval(x, a))
    decreases Size(c) + Size(x), 1, 0, 1
  {
    hide Wrap, Pow2, BuildAdd, BuildSub, Width;
    if IsAdd(x) && (x.left.Constant? || x.right.Constant?) {
      SubSumSound(c, x, a);
    } else if IsSub(x) && (x.left.Constant? || x.right.Constant?) {
      SubDiffSound(c, x, a);
    } else {
      PlainSubSound(c, x, a);
    }
  }

  lemma PlainSubSound(c: Expr, x: Expr, a: Assignment)
    requires Matching(c, x) && c.Constant?
    ensures Eval(Binary(Sub, c, x), a) == Wrap(Width(x), c.value - Eval(x, a))
  {
    hide Wrap, Pow2;
  }

  lemma {:induction false} SubSumSound(c: Expr, x: Expr, a: Assignment)
    requires c.Constant? && IsAdd(x) && (x.left.Constant? || x.right.Constant?) && Matching(c, x)
    ensures Eval(SubFromConst(c, x), a) == Wrap(Width(x), c.value - Eval(x, a))
    decreases Size(c) + Size(x), 1, 0, 0
  {
    hide Wrap, Pow2, BuildAdd, BuildSub;
    var k, y := if x.left.Constant? then x.left else x.right, if x.left.Constant? then x.right else x.left;
    BuildSubSound(FoldLinear(Sub, c, k), y, a);
    RegroupSub(c.width, c.value, k.value, Eval(y, a));
  }

  lemma {:induction false} SubDiffSound(c: Expr, x: Expr, a: Assignment)
    requires c.Constant? && IsSub(x) && (x.left.Constant? || x.right.Constant?) && Matching(c, x)
    ensures Eval(SubFromConst(c, x), a) == Wrap(Width(x), c.value - Eval(x, a))
    decreases Size(c) + Size(x), 1, 0, 0
  {
    hide Wrap, Pow2, BuildAdd, BuildSub;
    var w := c.width;
    if x.left.Constant? {
      BuildAddSound(FoldLinear(Sub, c, x.left), x.right, a);
      RegroupSub(w, c.value, x.left.value, Eval(x.right, a));
    } else {
      BuildSubSound(FoldLinear(Add, c, x.right), x.left, a);
      WrapSub(w, Eval(x.left, a) - x.right.value, c.value);
      WrapSub(w, c.value + x.right.value, Eval(x.left, a));
    }
  }

  lemma {:induction false} AddBothSound(l: Expr, r: Expr, a: Assignment)
    requires !l.Constant? && !r.Constant? && Matching(l, r)
    ensures Eval(AddBoth(l, r), a) == Wrap(Width(l), Eval(l, a) + Eval(r, a))
    decreases Size(l) + Size(r), 2, Size(l), 1
  {
    hide Wrap, Pow2, BuildAdd, BuildSub, Negated, Width;
    if IsAdd(l) {
      AddLeftSumSound(l, r, a);
    } else if IsSub(l) {
      AddLeftDiffSound(l, r, a);
    } else if IsAdd(r) && (r.left.Constant? || r.right.Constant?) {
      AddRightSumSound(l, r, a);
    } else if IsSub(r) && (r.left.Constant? || r.right.Constant?) {
      AddRightDiffSound(l, r, a);
    }
  }

  lemma {:induction false} AddLeftSumSound(l: Expr, r: Expr, a: Assignment)
    requires IsAdd(l) && !r.Constant? && Matching(l, r)
    ensures Eval(AddBoth(l, r), a) == Wrap(Width(l), Eval(l, a) + Eval(r, a))
    decreases Size(l) + Size(r), 2, Size(l), 0
  {
    hide Wrap, Pow2, BuildAdd, BuildSub, Negated, Width, Eval, Size;
    LinearParts(l, a);
    var w, x, y, z := Width(l), Eval(l.left, a), Eval(l.right, a), Eval(r, a);
    BuildAddSound(l.right, r, a);
    BuildAddSound(l.left, BuildAdd(l.right, r), a);
    RegroupAdd(w, x, y, z);
  }

  lemma {:induction false} AddLeftDiffSound(l: Expr, r: Expr, a: Assignment)
    requires IsSub(l) && !r.Constant? && Matching(l, r)
    ensures Eval(AddBoth(l, r), a) == Wrap(Width(l), Eval(l, a) + Eval(r, a))
    decreases Size(l) + Size(r), 2, Size(l), 0
  {
    hide Wrap, Pow2, BuildAdd, BuildSub, Negated, Width, Eval, Size;
    LinearParts(l, a);
    var w, x, y, z := Width(l), Eval(l.left, a), Eval(l.right, a), Eval(r, a);
    BuildSubSound(r, l.right, a);
    BuildAddSound(l.left, BuildSub(r, l.right), a);
    RegroupAdd(w, x, z, y);
  }

  lemma {:induction false} AddRightSumSound(l: Expr, r: Expr, a: Assignment)
    requires !l.Constant? && Matching(l, r)
    requires IsAdd(r) && (r.left.Constant? || r.right.Constant?)
    ensures Eval(AddRight(l, r), a) == Wrap(Width(l), Eval(l, a) + Eval(r, a))
    decreases Size(l) + Size(r), 2, Size(l), 0
  {
    hide Wrap, Pow2, BuildAdd, BuildSub, Negated, Width, Eval, Size;
    LinearParts(r, a);
    var c, y := if r.left.Constant? then r.left else r.right, if r.left.Constant? then r.right else r.left;
    BuildAddSound(l, y, a);
    BuildAddSound(c, BuildAdd(l, y), a);
    RegroupAdd(Width(l), c.value, Eval(l, a), Eval(y, a));
  }

  lemma {:induction false} AddRightDiffSound(l: Expr, r: Expr, a: Assignment)
    requires !l.Constant? && Matching(l, r)
    requires IsSub(r) && (r.left.Constant? || r.right.Constant?)
    ensures Eval(AddRight(l, r), a) == Wrap(Width(l), Eval(l, a) + Eval(r, a))
    decreases Size(l) + Size(r), 2, Size(l), 0
  {
    hide Wrap, Pow2, BuildAdd, BuildSub, Negated, Width, Eval, Size;
    LinearParts(r, a);
    if r.left.Constant? {
      BuildSubSound(l, r.right, a);
      BuildAddSound(r.left, BuildSub(l, r.right), a);
      RegroupAdd(Width(l), r.left.value, Eval(l, a), Eval(r.right, a));
    } else {
      NegatedSound(r.right);
      ConstantParts(Negated(r.right), a);
      BuildAddSound(l, r.left, a);
      BuildAddSound(Negated(r.right), BuildAdd(l, r.left), a);
      RegroupNegated(Width(l), r.right.value, Eval(l, a), Eval(r.left, a));
    }
  }

  lemma {:induction false} SubBothSound(l: Expr, r: Expr, a: Assignment)
    requires !l.Constant? && !r.Constant? && Matching(l, r)
    ensures Eval(SubBoth(l, r), a) == Wrap(Width(l), Eval(l, a) - Eval(r, a))
    decreases Size(l) + Size(r), 2, Size(l), 1
  {
    hide Wrap, Pow2, BuildAdd, BuildSub, Negated, Width;
    if IsAdd(l) {
      SubLeftSumSound(l, r, a);
    } else if IsSub(l) {
      SubLeftDiffSound(l, r, a);
    } else if IsAdd(r) && (r.left.Constant? || r.right.Constant?) {
      SubRightSumSound(l, r, a);
    } else if IsSub(r) && (r.left.Constant? || r.right.Constant?) {
      SubRightDiffSound(l, r, a);
    }
  }

  lemma {:induction false} SubLeftSumSound(l: Expr, r: Expr, a: Assignment)
    requires IsAdd(l) && !r.Constant? && Matching(l, r)
    ensures Eval(SubBoth(l, r), a) == Wrap(Width(l), Eval(l, a) - Eval(r, a))
    decreases Size(l) + Size(r), 2, Size(l), 0
  {
    hide Wrap, Pow2, BuildAdd, BuildSub, Negated, Width, Eval, Size;
    LinearParts(l, a);
    var w, x, y, z := Width(l), Eval(l.left, a), Eval(l.right, a), Eval(r, a);
    BuildSubSound(l.right, r, a);
    BuildAddSound(l.left, BuildSub(l.right, r), a);
    RegroupAdd(w, x, y, z);
  }

  lemma {:induction false} SubLeftDiffSound(l: Expr, r: Expr, a: Assignment)
    requires IsSub(l) && !r.Constant? && Matching(l, r)
    ensures Eval(SubBoth(l, r), a) == Wrap(Width(l), Eval(l, a) - Eval(r, a))
    decreases Size(l) + Size(r), 2, Size(l), 0
  {
    hide Wrap, Pow2, BuildAdd, BuildSub, Negated, Width, Eval, Size;
    LinearParts(l, a);
    var w, x, y, z := Width(l), Eval(l.left, a), Eval(l.right, a), Eval(r, a);
    BuildAddSound(l.right, r, a);
    BuildSubSound(l.left, BuildAdd(l.right, r), a);
    RegroupSub(w, z, x, y);
  }

  lemma {:induction false} SubRightSumSound(l: Expr, r: Expr, a: Assignment)
    requires !l.Constant? && Matching(l, r)
    requires IsAdd(r) && (r.left.Constant? || r.right.Constant?)
    ensures Eval(SubRight(l, r), a) == Wrap(Width(l), Eval(l, a) - Eval(r, a))
    decreases Size(l) + Size(r), 2, Size(l), 0
  {
    hide Wrap, Pow2, BuildAdd, BuildSub, Negated, Width, Eval, Size;
    LinearParts(r, a);
    var c, y := if r.left.Constant? then r.left else r.right, if r.left.Constant? then r.right else r.left;
    NegatedSound(c);
    ConstantParts(Negated(c), a);
    BuildSubSound(l, y, a);
    BuildAddSound(Negated(c), BuildSub(l, y), a);
    RegroupNegated(Width(l), c.value, Eval(l, a), Eval(y, a));
  }

  lemma {:induction false} SubRightDiffSound(l: Expr, r: Expr, a: Assignment)
    requires !l.Constant? && Matching(l, r)
    requires IsSub(r) && (r.left.Constant? || r.right.Constant?)
    ensures Eval(SubRight(l, r), a) == Wrap(Width(l), Eval(l, a) - Eval(r, a))
    decreases Size(l) + Size(r), 2, Size(l), 0
  {
    hide Wrap, Pow2, BuildAdd, BuildSub, Negated, Width, Eval, Size;
    LinearParts(r, a);
    if r.left.Constant? {
      NegatedSound(r.left);
      ConstantParts(Negated(r.left), a);
      BuildAddSound(l, r.right, a);
      BuildAddSound(Negated(r.left), BuildAdd(l, r.right), a);
      RegroupNegated(Width(l), r.left.value, Eval(l, a), Eval(r.right, a));
    } else {
      BuildSubSound(l, r.left, a);
      BuildAddSound(r.right, BuildSub(l, r.left), a);
      RegroupNegated(Width(l), r.right.value, Eval(l, a), Eval(r.left, a));
    }
  }

  // ---------------------------------------------------------------- the built form

  /** Chains of sums and differences lean to the right. */
  predicate RightChain(e: Expr) {
    IsAdd(e) || IsSub(e) ==> !IsAdd(e.left) && !IsSub(e.left) && RightChain(e.right)
  }

  /** At most one constant, on the left of the root, in a chain that leans to the right. */
  predicate Built(e: Expr) {
    LinearForm(e) && RightChain(e)
  }

  lemma BuiltParts(e: Expr)
    requires Built(e) && (IsAdd(e) || IsSub(e)) && Width(e) > 0
    ensures Width(e.left) == Width(e.right) == Width(e) && Size(e) == 1 + Size(e.left) + Size(e.right)
    ensures Built(e.left) && Built(e.right) && !IsAdd(e.left) && !IsSub(e.left)
    ensures !e.right.Constant? && !IsSum(e.right) && !IsDiff(e.right)
  {
    assert ConstFree(e) ==> ConstFree(e.left) && ConstFree(e.right);
    FreeOfConstants(e.right);
    assert e.left.Constant? || ConstFree(e.left);
  }

  lemma FreeOfConstants(x: Expr)
    ensures ConstFree(x) ==> !x.Constant? && !IsSum(x) && !IsDiff(x) && LinearForm(x)
  {
    assert IsSum(x) || IsDiff(x) ==> !ConstFree(x.left);
  }

  lemma BuiltLeaf(l: Expr, r: Expr, op: BinOp)
    requires Built(l) && Built(r) && (op.Add? || op.Sub?) && !IsAdd(l) && !IsSub(l)
    requires !r.Constant? && !IsSum(r) && !IsDiff(r) && !(op.Add? && l.Constant? && l.value == 0)
    ensures Built(Binary(op, l, r))
  {
    assert l.Constant? || ConstFree(l);
    assert ConstFree(r);
  }

  lemma BuiltConstant(c: Expr)
    requires c.Constant?
    ensures Built(c) && Size(c) == 1
  {
  }

  /** The builder's sum of two such chains is one again ... */
  lemma {:induction false} BuildAddBuilt(l: Expr, r: Expr)
    requires Matching(l, r) && Built(l) && Built(r)
    ensures Built(BuildAdd(l, r))
    decreases Size(l) + Size(r), NonConst(l) + NonConst(r), Size(l), 2
  {
    hide Built, Width, Size, AddToConst, AddBoth, FoldLinear;
    if l.Constant? && r.Constant? {
      BuiltConstant(BuildAdd(l, r));
    } else if l.Constant? {
      AddToConstBuilt(l, r);
    } else if r.Constant? {
      AddToConstBuilt(r, l);
    } else {
      AddBothBuilt(l, r);
    }
  }

  /** ... and so is their difference. */
  lemma {:induction false} BuildSubBuilt(l: Expr, r: Expr)
    requires Matching(l, r) && Built(l) && Built(r)
    ensures Built(BuildSub(l, r))
    decreases Size(l) + Size(r), NonConst(l) + NonConst(r), Size(l), 2
  {
    hide Built, Width, Size, AddToConst, SubFromConst, SubBoth, FoldLinear, Negated;
    if l.Constant? && r.Constant? {
      BuiltConstant(BuildSub(l, r));
    } else if l.Constant? {
      SubFromConstBuilt(l, r);
    } else if r.Constant? {
      BuiltConstant(r);
      AddToConstBuilt(Negated(r), l);
    } else {
      SubBothBuilt(l, r);
    }
  }

  lemma {:induction false} AddToConstBuilt(c: Expr, x: Expr)
    requires c.Constant? && !x.Constant? && Matching(c, x) && Built(x)
    ensures Built(AddToConst(c, x))
    decreases Size(c) + Size(x), 1, 0, 0
  {
    hide Built, Width, Size, BuildAdd, BuildSub, FoldLinear;
    BuiltConstant(c);
    if c.value != 0 {
      if IsSum(x) || IsDiff(x) {
        BuiltParts(x);
        var k := FoldLinear(Add, c, x.left);
        BuiltConstant(k);
        BuiltConstant(x.left);
        if IsSum(x) {
          BuildAddBuilt(k, x.right);
        } else {
          BuildSubBuilt(k, x.right);
        }
      } else {
        if IsAdd(x) || IsSub(x) {
          BuiltParts(x);
        }
        BuiltLeaf(c, x, Add);
      }
    }
  }

  lemma {:induction false} SubFromConstBuilt(c: Expr, x: Expr)
    requires c.Constant? && !x.Constant? && Matching(c, x) && Built(x)
    ensures Built(SubFromConst(c, x))
    decreases Size(c) + Size(x), 1, 0, 0
  {
    hide Built, Width, Size, BuildAdd, BuildSub, FoldLinear;
    BuiltConstant(c);
    if IsSum(x) || IsDiff(x) {
      BuiltParts(x);
      var k := FoldLinear(Sub, c, x.left);
      BuiltConstant(k);
      BuiltConstant(x.left);
      if IsSum(x) {
        BuildSubBuilt(k, x.right);
      } else {
        BuildAddBuilt(k, x.right);
      }
    } else {
      if IsAdd(x) || IsSub(x) {
        BuiltParts(x);
      }
      BuiltLeaf(c, x, Sub);
    }
  }

  lemma {:induction false} AddBothBuilt(l: Expr, r: Expr)
    requires !l.Constant? && !r.Constant? && Matching(l, r) && Built(l) && Built(r)
    ensures Built(AddBoth(l, r))
    decreases Size(l) + Size(r), 2, Size(l), 1
  {
    hide Built, Width, Size, BuildAdd, BuildSub, AddRight;
    if IsAdd(l) {
      BuiltParts(l);
      BuildAddBuilt(l.right, r);
      BuildAddBuilt(l.left, BuildAdd(l.right, r));
    } else if IsSub(l) {
      BuiltParts(l);
      BuildSubBuilt(r, l.right);
      BuildAddBuilt(l.left, BuildSub(r, l.right));
    } else {
      AddRightBuilt(l, r);
    }
  }

  lemma {:induction false} AddRightBuilt(l: Expr, r: Expr)
    requires !l.Constant? && !r.Constant? && Matching(l, r) && Built(l) && Built(r) && !IsAdd(l) && !IsSub(l)
    ensures Built(AddRight(l, r))
    decreases Size(l) + Size(r), 2, Size(l), 0
  {
    hide Built, Width, Size, BuildAdd, BuildSub, Negated;
    if IsAdd(r) || IsSub(r) {
      BuiltParts(r);
    }
    if IsSum(r) {
      BuildAddBuilt(l, r.right);
      BuildAddBuilt(r.left, BuildAdd(l, r.right));
    } else if IsDiff(r) {
      BuildSubBuilt(l, r.right);
      BuildAddBuilt(r.left, BuildSub(l, r.right));
    } else {
      BuiltLeaf(l, r, Add);
    }
  }

  lemma {:induction false} SubBothBuilt(l: Expr, r: Expr)
    requires !l.Constant? && !r.Constant? && Matching(l, r) && Built(l) && Built(r)
    ensures Built(SubBoth(l, r))
    decreases Size(l) + Size(r), 2, Size(l), 1
  {
    hide Built, Width, Size, BuildAdd, BuildSub, SubRight;
    if IsAdd(l) {
      BuiltParts(l);
      BuildSubBuilt(l.right, r);
      BuildAddBuilt(l.left, BuildSub(l.right, r));
    } else if IsSub(l) {
      BuiltParts(l);
      BuildAddBuilt(l.right, r);
      BuildSubBuilt(l.left, BuildAdd(l.right, r));
    } else {
      SubRightBuilt(l, r);
    }
  }

  lemma {:induction false} SubRightBuilt(l: Expr, r: Expr)
    requires !l.Constant? && !r.Constant? && Matching(l, r) && Built(l) && Built(r) && !IsAdd(l) && !IsSub(l)
    ensures Built(SubRight(l, r))
    decreases Size(l) + Size(r), 2, Size(l), 0
  {
    hide Built, Width, Size, BuildAdd, BuildSub, Negated;
    if IsAdd(r) || IsSub(r) {
      BuiltParts(r);
    }
    if IsSum(r) || IsDiff(r) {
      var k := Negated(r.left);
      BuiltConstant(k);
      BuiltConstant(r.left);
      if IsSum(r) {
        BuildSubBuilt(l, r.right);
        BuildAddBuilt(k, BuildSub(l, r.right));
      } else {
        BuildAddBuilt(l, r.right);
        BuildAddBuilt(k, BuildAdd(l, r.right));
      }
    } else {
      BuiltLeaf(l, r, Sub);
    }
  }

  // ------------------------------------------------------------ the other operators

  /** The operators whose constant operand the builder moves to the left. */
  predicate Commuting(op: BinOp) {
    op.Mul? || op.And? || op.Or? || op.Xor? || op.Eq?
  }

  function WithConst(op: BinOp, c: Expr, x: Expr): Expr
    requires Commuting(op) && c.Constant?
  {
    if op.Eq? then EqConst(c, x)
    else if c.value == 0 then (if op.Mul? || op.And? then c else x)
    else if op.Mul? && c.value == 1 then x
    else if op.And? && c.value == AllOnes(c.width) then x
    else if op.Or? && c.value == AllOnes(c.width) then c
    else Binary(op, c, x)
  }

  function EqConst(c: Expr, x: Expr): Expr
    requires c.Constant?
  {
    if c.width != BOOL then Binary(Eq, c, x)
    else if c.value == 1 then x
    else Unary(Not, x)
  }

  /** Every binary operation of the builder. */
  function Build(op: BinOp, l: Expr, r: Expr): Expr
    requires BinWidth(op, Width(l), Width(r)) > 0
  {
    if op.Add? then BuildAdd(l, r)
    else if op.Sub? then BuildSub(l, r)
    else if l.Constant? && r.Constant? then Fold(op, l, r)
    else if Commuting(op) && l.Constant? then WithConst(op, l, r)
    else if Commuting(op) && r.Constant? then WithConst(op, r, l)
    else Binary(op, l, r)
  }

  lemma CommutingSwaps(op: BinOp, w: nat, x: nat, y: nat)
    requires Commuting(op)
    ensures EvalBin(op, w, w, x, y) == EvalBin(op, w, w, y, x)
  {
    hide MulBits, Bitwise;
    if op.Mul? {
      MulCommutes(w, x, y);
    } else if op.And? {
      BitwiseCommutes(BitAnd, w, x, y);
    } else if op.Or? {
      BitwiseCommutes(BitOr, w, x, y);
    } else if op.Xor? {
      BitwiseCommutes(BitXor, w, x, y);
    }
  }

  lemma EqConstSound(c: Expr, x: Expr, a: Assignment)
    requires c.Constant? && Matching(c, x)
    ensures Eval(EqConst(c, x), a) == FromBool(c.value == Eval(x, a))
  {
    hide Pow2, Complement;
    if c.width == BOOL {
      BoolRange(c, a);
      BoolRange(x, a);
      BoolComplement(Eval(x, a));
    }
  }

  lemma BoolComplement(x: nat)
    requires x == 0 || x == 1
    ensures Complement(BOOL, x) == 1 - x
  {
    assert Pow2(1) == 2;
  }

  lemma AbsorbingConst(op: BinOp, w: nat, c: nat, x: nat)
    requires Commuting(op) && !op.Eq? && x < Pow2(w)
    ensures c == 0 ==> EvalBin(op, w, w, x, c) == if op.Mul? || op.And? then 0 else x
    ensures c == 1 && op.Mul? ==> EvalBin(op, w, w, x, c) == x
    ensures c == AllOnes(w) && op.And? ==> EvalBin(op, w, w, x, c) == x
    ensures c == AllOnes(w) && op.Or? ==> EvalBin(op, w, w, x, c) == c
  {
    hide MulBits, Bitwise, Pow2;
    if op.Mul? {
      MulOneZero(w, x);
      MulCommutes(w, x, c);
    } else {
      BitwiseWithZero(w, x);
      BitwiseWithOnes(w, x);
    }
  }

  lemma WithConstTyped(op: BinOp, c: Expr, x: Expr)
    requires Commuting(op) && c.Constant? && Matching(c, x)
    ensures Width(WithConst(op, c, x)) == BinWidth(op, Width(c), Width(x))
  {
    hide Pow2, Width;
    NodeWidth(op, c, x);
    NotWidth(x);
    ConstantWidth(c);
  }

  lemma NotWidth(x: Expr)
    ensures Width(Unary(Not, x)) == Width(x)
  {
  }

  lemma WithConstSound(op: BinOp, c: Expr, x: Expr, a: Assignment)
    requires Commuting(op) && c.Constant? && Matching(c, x)
    ensures Eval(WithConst(op, c, x), a) == EvalBin(op, Width(c), Width(x), c.value, Eval(x, a))
  {
    hide EvalBin, EqConst, Pow2, AllOnes, Width;
    var w := Width(x);
    CommutingSwaps(op, w, Eval(x, a), c.value);
    if op.Eq? {
      EqConstSound(c, x, a);
      EqMeaning(w, c.value, Eval(x, a));
    } else {
      ConstantWidth(c);
      EvalRange(x, a);
      AbsorbingConst(op, w, c.value, Eval(x, a));
    }
  }

  lemma ConstantWidth(c: Expr)
    requires c.Constant? && Width(c) > 0
    ensures c.width == Width(c)
  {
  }

  lemma EqMeaning(w: nat, x: nat, y: nat)
    ensures EvalBin(Eq, w, w, x, y) == FromBool(x == y)
  {
  }

  lemma LinearMeaning(w: nat, x: nat, y: nat)
    ensures EvalBin(Add, w, w, x, y) == Wrap(w, x + y)
    ensures EvalBin(Sub, w, w, x, y) == Wrap(w, x - y)
  {
  }

  lemma NodeWidth(op: BinOp, l: Expr, r: Expr)
    ensures Width(Binary(op, l, r)) == BinWidth(op, Width(l), Width(r))
  {
  }

  /** The builder keeps the width of the operation it was asked for ... */
  lemma BuildTyped(op: BinOp, l: Expr, r: Expr)
    requires BinWidth(op, Width(l), Width(r)) > 0
    ensures Width(Build(op, l, r)) == BinWidth(op, Width(l), Width(r))
  {
    hide BuildAdd, BuildSub, WithConst, Fold, Width, Pow2;
    NodeWidth(op, l, r);
    if op.Add? || op.Sub? {
      assert Sized(Build(op, l, r), l, r);
    } else if l.Constant? && r.Constant? {
      FoldTyped(op, l, r);
    } else if Commuting(op) && l.Constant? {
      WithConstTyped(op, l, r);
    } else if Commuting(op) && r.Constant? {
      WithConstTyped(op, r, l);
    }
  }

  /** ... and its value. */
  lemma BuildSound(op: BinOp, l: Expr, r: Expr, a: Assignment)
    requires BinWidth(op, Width(l), Width(r)) > 0
    ensures Eval(Build(op, l, r), a) == EvalBin(op, Width(l), Width(r), Eval(l, a), Eval(r, a))
  {
    hide BuildAdd, BuildSub, WithConst, Wrap, EvalBin, Width, Pow2;
    if op.Add? {
      BuildAddSound(l, r, a);
      LinearMeaning(Width(l), Eval(l, a), Eval(r, a));
    } else if op.Sub? {
      BuildSubSound(l, r, a);
      LinearMeaning(Width(l), Eval(l, a), Eval(r, a));
    } else {
      BuildRestSound(op, l, r, a);
    }
  }

  lemma BuildRestSound(op: BinOp, l: Expr, r: Expr, a: Assignment)
    requires BinWidth(op, Width(l), Width(r)) > 0 && !op.Add? && !op.Sub?
    ensures Eval(Build(op, l, r), a) == EvalBin(op, Width(l), Width(r), Eval(l, a), Eval(r, a))
  {
    hide BuildAdd, BuildSub, WithConst, EvalBin, Width, Pow2;
    if l.Constant? && r.Constant? {
      ConstantOperands(op, l, r);
    } else if Commuting(op) && l.Constant? {
      WithConstSound(op, l, r, a);
    } else if Commuting(op) && r.Constant? {
      WithConstSound(op, r, l, a);
      CommutingSwaps(op, Width(l), Eval(l, a), Eval(r, a));
    }
  }

  lemma ConstantOperands(op: BinOp, l: Expr, r: Expr)
    requires BinWidth(op, Width(l), Width(r)) > 0 && l.Constant? && r.Constant?
    ensures l.width == Width(l) && r.width == Width(r)
  {
    ConstantWidth(l);
    ConstantWidth(r);
  }

  /** No operation that its constants decide is left standing. */
  lemma BuildFolds(op: BinOp, l: Expr, r: Expr)
    requires BinWidth(op, Width(l), Width(r)) > 0
    ensures l.Constant? && r.Constant? ==> Build(op, l, r).Constant?
    ensures Commuting(op) && l.Constant? && !r.Constant? ==>
      Build(op, r, l) == Build(op, l, r)
      && (l.value == 0 && (op.Mul? || op.And?) ==> Build(op, l, r) == l)
      && (l.value == 0 && (op.Or? || op.Xor?) ==> Build(op, l, r) == r)
      && (l.value == 1 && op.Mul? ==> Build(op, l, r) == r)
      && (l.value == AllOnes(l.width) && op.And? ==> Build(op, l, r) == r)
      && (l.value == AllOnes(l.width) && op.Or? ==> Build(op, l, r) == l)
      && (l == TRUE && op.Eq? ==> Build(op, l, r) == r)
  {
    assert Pow2(1) == 2;
  }

  // ------------------------------------------------------------------------- reads

  /** Drops the writes that are provably elsewhere. */
  function Skipped(nodes: seq<UpdateNode>, index: Expr): seq<UpdateNode>
    requires ValidNodes(nodes) && Width(index) == INT32
  {
    if nodes == [] then []
    else
      assert ValidNode(nodes[0]);
      if Build(Eq, index, nodes[0].index) == FALSE then Skipped(nodes[1..], index) else nodes
  }

  /** Only writes provably elsewhere are dropped, and as many as possible. */
  lemma {:induction false} SkippedMost(nodes: seq<UpdateNode>, index: Expr)
    requires ValidNodes(nodes) && Width(index) == INT32
    ensures var rest := Skipped(nodes, index);
            |rest| <= |nodes| && rest == nodes[|nodes| - |rest|..] && ValidNodes(rest)
            && (forall i :: 0 <= i < |nodes| - |rest| ==> ProvablyApart(index, nodes[i]))
            && (rest != [] ==> !ProvablyApart(index, rest[0]))
  {
    hide Build, Width;
    if nodes != [] && ProvablyApart(index, nodes[0]) {
      SkippedMost(nodes[1..], index);
      var rest := Skipped(nodes[1..], index);
      assert nodes[1..][|nodes[1..]| - |rest|..] == nodes[|nodes| - |rest|..];
      forall i | 0 <= i < |nodes| - |rest| ensures ProvablyApart(index, nodes[i]) {
        if i > 0 {
          assert ProvablyApart(index, nodes[1..][i - 1]);
        }
      }
    }
  }

  predicate ProvablyApart(index: Expr, n: UpdateNode)
    requires Width(index) == INT32
  {
    Width(n.index) == INT32 && Build(Eq, index, n.index) == FALSE
  }

  method BuildRead(ul: UpdateList, index: Expr) returns (e: Expr)
    requires Width(Read(ul, index)) == INT8
    ensures e == Read(UpdateList(ul.root, Skipped(ul.nodes, index)), index)
  {
    hide Build, Width;
    var un := 0;
    assert ValidNodes(ul.nodes) && Width(index) == INT32 by { ReadParts(ul, index); }
    while un < |ul.nodes|
      invariant 0 <= un <= |ul.nodes|
      invariant Skipped(ul.nodes[un..], index) == Skipped(ul.nodes, index)
    {
      assert ValidNode(ul.nodes[un]);
      if Build(Eq, index, ul.nodes[un].index) != FALSE {
        break;
      }
      assert ul.nodes[un..][1..] == ul.nodes[un + 1..];
      un := un + 1;
    }
    e := Read(UpdateList(ul.root, ul.nodes[un..]), index);
  }

  lemma ReadParts(ul: UpdateList, index: Expr)
    requires Width(Read(ul, index)) == INT8
    ensures ValidArray(ul.root) && ValidNodes(ul.nodes) && Width(index) == INT32
  {
  }

  lemma {:induction false} SkippedSound(root: Array, nodes: seq<UpdateNode>, index: Expr, a: Assignment)
    requires ValidNodes(nodes) && Width(index) == INT32
    ensures EvalNodes(root, Skipped(nodes, index), Eval(index, a), a) == EvalNodes(root, nodes, Eval(index, a), a)
  {
    hide Build, Width;
    if nodes != [] {
      assert ValidNode(nodes[0]);
      BuildSound(Eq, index, nodes[0].index, a);
      SkippedSound(root, nodes[1..], index, a);
    }
  }

  /** Rolling back over writes changes no byte that can be read. */
  lemma BuildReadSound(ul: UpdateList, index: Expr, a: Assignment)
    requires Width(Read(ul, index)) == INT8
    ensures Eval(Read(UpdateList(ul.root, Skipped(ul.nodes, index)), index), a) == Eval(Read(ul, index), a)
  {
    SkippedSound(ul.root, ul.nodes, index, a);
  }
}
