/**
 The mutually recursive constructors for addition and subtraction. They keep a
 linear formula's constant on the left of its root, and terminate because each
 step shrinks the operands or leaves fewer of them non-constant.
 */
module LinearConstructors {
  import opened Bits
  import opened Exprs
  import opened LogicConstructors

  /** `k + x` with a constant `k`. */
  predicate IsSum(e: Expr) {
    e.Binary? && e.op == Add && e.left.Constant?
  }

  /** `k - x` with a constant `k`. */
  predicate IsDiff(e: Expr) {
    e.Binary? && e.op == Sub && e.left.Constant?
  }

  function NonConst(e: Expr): nat {
    if e.Constant? then 0 else 1
  }

  /** What every constructor here promises about its result. The size bound, on
      which termination rests, excludes Booleans: these become exclusive or. */
  predicate Fits(e: Expr, l: Expr, r: Expr) {
    Width(e) == Width(l) && (Width(l) != BOOL ==> Size(e) <= 1 + Size(l) + Size(r))
  }

  function FoldLinear(op: BinOp, cl: Expr, cr: Expr): (e: Expr)
    requires op == Add || op == Sub
    requires cl.Constant? && cr.Constant? && Matching(cl, cr)
    ensures e.Constant? && Width(e) == Width(cl)
  {
    FoldTyped(op, cl, cr);
    Fold(op, cl, cr)
  }

  function AddCreate(l: Expr, r: Expr): (e: Expr)
    requires Matching(l, r)
    ensures Fits(e, l, r)
    decreases Size(l) + Size(r), NonConst(l) + NonConst(r), 1
  {
    if l.Constant? then
      if r.Constant? then FoldLinear(Add, l, r) else AddPartialR(l, r)
    else if r.Constant? then AddPartialR(r, l)
    else if Width(l) == BOOL then Binary(Xor, l, r)
    else AddGeneral(l, r)
  }

  function AddPartialR(cl: Expr, r: Expr): (e: Expr)
    requires cl.Constant? && Matching(cl, r)
    ensures Fits(e, cl, r)
    decreases Size(cl) + Size(r), NonConst(r), 0
  {
    XorPartialRTyped(cl, r);
    if cl.width == BOOL then XorPartialR(cl, r)
    else if cl.value == 0 then r
    else if IsSum(r) then AddCreate(FoldLinear(Add, cl, r.left), r.right)
    else if IsDiff(r) then SubCreate(FoldLinear(Add, cl, r.left), r.right)
    else Binary(Add, cl, r)
  }

  function AddGeneral(l: Expr, r: Expr): (e: Expr)
    requires Matching(l, r) && Width(l) != BOOL && !l.Constant? && !r.Constant?
    ensures Fits(e, l, r)
    decreases Size(l) + Size(r), NonConst(l) + NonConst(r), 0
  {
    if IsSum(l) then AddCreate(l.left, AddCreate(l.right, r))
    else if IsDiff(l) then AddCreate(l.left, SubCreate(r, l.right))
    else if IsSum(r) then AddCreate(r.left, AddCreate(l, r.right))
    else if IsDiff(r) then AddCreate(r.left, SubCreate(l, r.right))
    else Binary(Add, l, r)
  }

  function SubCreate(l: Expr, r: Expr): (e: Expr)
    requires Matching(l, r)
    ensures Fits(e, l, r)
    decreases Size(l) + Size(r), NonConst(l) + NonConst(r), 1
  {
    if l.Constant? then
      if r.Constant? then FoldLinear(Sub, l, r) else SubPartialR(l, r)
    else if r.Constant? then
      AddPartialR(FoldLinear(Sub, Constant(0, r.width), r), l)
    else if Width(l) == BOOL then Binary(Xor, l, r)
    else SubGeneral(l, r)
  }

  function SubPartialR(cl: Expr, r: Expr): (e: Expr)
    requires cl.Constant? && Matching(cl, r)
    ensures Fits(e, cl, r)
    decreases Size(cl) + Size(r), NonConst(r), 0
  {
    XorPartialRTyped(cl, r);
    if cl.width == BOOL then XorPartialR(cl, r)
    else if IsSum(r) then SubCreate(FoldLinear(Sub, cl, r.left), r.right)
    else if IsDiff(r) then AddCreate(FoldLinear(Sub, cl, r.left), r.right)
    else Binary(Sub, cl, r)
  }

  function SubGeneral(l: Expr, r: Expr): (e: Expr)
    requires Matching(l, r) && Width(l) != BOOL && !l.Constant? && !r.Constant?
    ensures Fits(e, l, r)
    decreases Size(l) + Size(r), NonConst(l) + NonConst(r), 0
  {
    if l == r then Constant(0, Width(l))
    else if IsSum(l) then AddCreate(l.left, SubCreate(l.right, r))
    else if IsDiff(l) then SubCreate(l.left, AddCreate(l.right, r))
    else if IsSum(r) then SubCreate(SubCreate(l, r.right), r.left)
    else if IsDiff(r) then SubCreate(AddCreate(l, r.right), r.left)
    else Binary(Sub, l, r)
  }

  // ----------------------------------------------------------------- meaning

  /** At width one, addition and subtraction are both exclusive or. */
  lemma BoolAddIsXor(x: nat, y: nat)
    requires x < 2 && y < 2
    ensures Bitwise(BitXor, BOOL, x, y) == Wrap(BOOL, x + y)
    ensures Bitwise(BitXor, BOOL, x, y) == Wrap(BOOL, x - y)
  {
    BitwiseOneBit(BitXor, x, y);
  }

  lemma BoolXorSound(cl: Expr, r: Expr, a: Assignment)
    requires cl.Constant? && Width(cl) == Width(r) == BOOL
    ensures Eval(XorPartialR(cl, r), a) == Wrap(BOOL, cl.value + Eval(r, a))
    ensures Eval(XorPartialR(cl, r), a) == Wrap(BOOL, cl.value - Eval(r, a))
  {
    hide Bitwise, Wrap, Pow2, XorPartialR;
    BoolRange(cl, a);
    BoolRange(r, a);
    BoolAddIsXor(cl.value, Eval(r, a));
    XorPartialRSound(cl, r, a);
  }

  lemma BoolXorNodeSound(l: Expr, r: Expr, a: Assignment)
    requires Width(l) == Width(r) == BOOL
    ensures Eval(Binary(Xor, l, r), a) == Wrap(BOOL, Eval(l, a) + Eval(r, a))
    ensures Eval(Binary(Xor, l, r), a) == Wrap(BOOL, Eval(l, a) - Eval(r, a))
  {
    hide Bitwise, Wrap, Pow2, Width;
    BoolRange(l, a);
    BoolRange(r, a);
    BoolAddIsXor(Eval(l, a), Eval(r, a));
  }

  lemma ZeroTyped(c: Expr)
    requires c.Constant? && Width(c) > 0
    ensures Width(c) == c.width == Width(Constant(0, c.width))
    ensures Size(c) == Size(Constant(0, c.width)) == 1
  {
  }

  lemma FoldLinearSound(op: BinOp, cl: Expr, cr: Expr)
    requires op == Add || op == Sub
    requires cl.Constant? && cr.Constant? && Matching(cl, cr)
    ensures FoldLinear(op, cl, cr)
         == Const(if op == Add then cl.value + cr.value else cl.value - cr.value, cl.width)
  {
    hide Wrap, Pow2;
  }

  lemma {:induction false} AddCreateSound(l: Expr, r: Expr, a: Assignment)
    requires Matching(l, r)
    ensures Eval(AddCreate(l, r), a) == Wrap(Width(l), Eval(l, a) + Eval(r, a))
    decreases Size(l) + Size(r), NonConst(l) + NonConst(r), 1
  {
    hide Wrap, Pow2, Bitwise, AddPartialR, AddGeneral, FoldLinear, EvalBin, Width;
    if l.Constant? && r.Constant? {
      ZeroTyped(l);
      FoldLinearSound(Add, l, r);
    } else if l.Constant? {
      AddPartialRSound(l, r, a);
    } else if r.Constant? {
      AddPartialRSound(r, l, a);
    } else if Width(l) == BOOL {
      BoolXorNodeSound(l, r, a);
    } else {
      AddGeneralSound(l, r, a);
    }
  }

  lemma {:induction false} AddPartialRSound(cl: Expr, r: Expr, a: Assignment)
    requires cl.Constant? && Matching(cl, r)
    ensures Eval(AddPartialR(cl, r), a) == Wrap(Width(r), cl.value + Eval(r, a))
    decreases Size(cl) + Size(r), NonConst(r), 0
  {
    hide Wrap, Pow2, Bitwise, XorPartialR, AddCreate, SubCreate;
    var w := cl.width;
    if w == BOOL {
      BoolXorSound(cl, r, a);
    } else if cl.value == 0 {
      EvalRange(r, a);
      WrapId(w, Eval(r, a));
    } else if IsSum(r) {
      var c := FoldLinear(Add, cl, r.left);
      AddCreateSound(c, r.right, a);
      RegroupAdd(w, cl.value, r.left.value, Eval(r.right, a));
    } else if IsDiff(r) {
      var c := FoldLinear(Add, cl, r.left);
      SubCreateSound(c, r.right, a);
      RegroupAdd(w, cl.value, r.left.value, Eval(r.right, a));
    }
  }

  lemma {:induction false} AddGeneralSound(l: Expr, r: Expr, a: Assignment)
    requires Matching(l, r) && Width(l) != BOOL && !l.Constant? && !r.Constant?
    ensures Eval(AddGeneral(l, r), a) == Wrap(Width(l), Eval(l, a) + Eval(r, a))
    decreases Size(l) + Size(r), NonConst(l) + NonConst(r), 0
  {
    hide Wrap, Pow2, AddCreate, SubCreate;
    if IsSum(l) {
      AddLeftSumSound(l, r, a);
    } else if IsDiff(l) {
      AddLeftDiffSound(l, r, a);
    } else if IsSum(r) {
      AddRightSumSound(l, r, a);
    } else if IsDiff(r) {
      AddRightDiffSound(l, r, a);
    }
  }

  lemma {:induction false} AddLeftSumSound(l: Expr, r: Expr, a: Assignment)
    requires Matching(l, r) && Width(l) != BOOL && !r.Constant? && IsSum(l)
    ensures Eval(AddCreate(l.left, AddCreate(l.right, r)), a)
         == Wrap(Width(l), Eval(l, a) + Eval(r, a))
    decreases Size(l) + Size(r), 1
  {
    hide Wrap, Pow2, AddCreate, SubCreate;
    var w, k, x, y := Width(l), l.left.value, Eval(l.right, a), Eval(r, a);
    AddCreateSound(l.right, r, a);
    AddCreateSound(l.left, AddCreate(l.right, r), a);
    RegroupAdd(w, k, x, y);
  }

  lemma {:induction false} AddLeftDiffSound(l: Expr, r: Expr, a: Assignment)
    requires Matching(l, r) && Width(l) != BOOL && !r.Constant? && IsDiff(l)
    ensures Eval(AddCreate(l.left, SubCreate(r, l.right)), a)
         == Wrap(Width(l), Eval(l, a) + Eval(r, a))
    decreases Size(l) + Size(r), 1
  {
    hide Wrap, Pow2, AddCreate, SubCreate;
    var w, k, x, y := Width(l), l.left.value, Eval(l.right, a), Eval(r, a);
    SubCreateSound(r, l.right, a);
    AddCreateSound(l.left, SubCreate(r, l.right), a);
    RegroupAdd(w, k, y, x);
  }

  lemma {:induction false} AddRightSumSound(l: Expr, r: Expr, a: Assignment)
    requires Matching(l, r) && Width(l) != BOOL && !l.Constant? && IsSum(r)
    ensures Eval(AddCreate(r.left, AddCreate(l, r.right)), a)
         == Wrap(Width(l), Eval(l, a) + Eval(r, a))
    decreases Size(l) + Size(r), 1
  {
    hide Wrap, Pow2, AddCreate, SubCreate;
    var w, k, x, y := Width(l), r.left.value, Eval(l, a), Eval(r.right, a);
    AddCreateSound(l, r.right, a);
    AddCreateSound(r.left, AddCreate(l, r.right), a);
    RegroupAdd(w, k, x, y);
  }

  lemma {:induction false} AddRightDiffSound(l: Expr, r: Expr, a: Assignment)
    requires Matching(l, r) && Width(l) != BOOL && !l.Constant? && IsDiff(r)
    ensures Eval(AddCreate(r.left, SubCreate(l, r.right)), a)
         == Wrap(Width(l), Eval(l, a) + Eval(r, a))
    decreases Size(l) + Size(r), 1
  {
    hide Wrap, Pow2, AddCreate, SubCreate;
    var w, k, x, y := Width(l), r.left.value, Eval(l, a), Eval(r.right, a);
    SubCreateSound(l, r.right, a);
    AddCreateSound(r.left, SubCreate(l, r.right), a);
    RegroupAdd(w, k, x, y);
  }

  lemma {:induction false} SubCreateSound(l: Expr, r: Expr, a: Assignment)
    requires Matching(l, r)
    ensures Eval(SubCreate(l, r), a) == Wrap(Width(l), Eval(l, a) - Eval(r, a))
    decreases Size(l) + Size(r), NonConst(l) + NonConst(r), 1
  {
    hide Wrap, Pow2, Bitwise, AddPartialR, SubPartialR, SubGeneral, FoldLinear, EvalBin, Width;
    if l.Constant? && r.Constant? {
      ZeroTyped(l);
      FoldLinearSound(Sub, l, r);
    } else if l.Constant? {
      SubPartialRSound(l, r, a);
    } else if r.Constant? {
      ZeroTyped(r);
      FoldLinearSound(Sub, Constant(0, r.width), r);
      AddPartialRSound(FoldLinear(Sub, Constant(0, r.width), r), l, a);
      WrapAdd(r.width, 0 - r.value, Eval(l, a));
    } else if Width(l) == BOOL {
      BoolXorNodeSound(l, r, a);
    } else {
      SubGeneralSound(l, r, a);
    }
  }

  lemma {:induction false} SubPartialRSound(cl: Expr, r: Expr, a: Assignment)
    requires cl.Constant? && Matching(cl, r)
    ensures Eval(SubPartialR(cl, r), a) == Wrap(Width(r), cl.value - Eval(r, a))
    decreases Size(cl) + Size(r), NonConst(r), 0
  {
    hide Wrap, Pow2, Bitwise, XorPartialR, AddCreate, SubCreate;
    var w := cl.width;
    if w == BOOL {
      BoolXorSound(cl, r, a);
    } else if IsSum(r) {
      var c := FoldLinear(Sub, cl, r.left);
      SubCreateSound(c, r.right, a);
      RegroupSub(w, cl.value, r.left.value, Eval(r.right, a));
    } else if IsDiff(r) {
      var c := FoldLinear(Sub, cl, r.left);
      AddCreateSound(c, r.right, a);
      RegroupSub(w, cl.value, r.left.value, Eval(r.right, a));
    }
  }

  lemma {:induction false} SubGeneralSound(l: Expr, r: Expr, a: Assignment)
    requires Matching(l, r) && Width(l) != BOOL && !l.Constant? && !r.Constant?
    ensures Eval(SubGeneral(l, r), a) == Wrap(Width(l), Eval(l, a) - Eval(r, a))
    decreases Size(l) + Size(r), NonConst(l) + NonConst(r), 0
  {
    hide Pow2, AddCreate, SubCreate;
    if l == r {
      WrapId(Width(l), 0);
    } else if IsSum(l) {
      SubLeftSumSound(l, r, a);
    } else if IsDiff(l) {
      SubLeftDiffSound(l, r, a);
    } else if IsSum(r) {
      SubRightSumSound(l, r, a);
    } else if IsDiff(r) {
      SubRightDiffSound(l, r, a);
    }
  }

  lemma {:induction false} SubLeftSumSound(l: Expr, r: Expr, a: Assignment)
    requires Matching(l, r) && Width(l) != BOOL && !r.Constant? && IsSum(l)
    ensures Eval(AddCreate(l.left, SubCreate(l.right, r)), a)
         == Wrap(Width(l), Eval(l, a) - Eval(r, a))
    decreases Size(l) + Size(r), 1
  {
    hide Wrap, Pow2, AddCreate, SubCreate;
    var w, k, x, y := Width(l), l.left.value, Eval(l.right, a), Eval(r, a);
    SubCreateSound(l.right, r, a);
    AddCreateSound(l.left, SubCreate(l.right, r), a);
    RegroupAdd(w, k, x, y);
  }

  lemma {:induction false} SubLeftDiffSound(l: Expr, r: Expr, a: Assignment)
    requires Matching(l, r) && Width(l) != BOOL && !r.Constant? && IsDiff(l)
    ensures Eval(SubCreate(l.left, AddCreate(l.right, r)), a)
         == Wrap(Width(l), Eval(l, a) - Eval(r, a))
    decreases Size(l) + Size(r), 1
  {
    hide Wrap, Pow2, AddCreate, SubCreate;
    var w, k, x, y := Width(l), l.left.value, Eval(l.right, a), Eval(r, a);
    AddCreateSound(l.right, r, a);
    SubCreateSound(l.left, AddCreate(l.right, r), a);
    RegroupSub(w, k, x, y);
  }

  lemma {:induction false} SubRightSumSound(l: Expr, r: Expr, a: Assignment)
    requires Matching(l, r) && Width(l) != BOOL && !l.Constant? && IsSum(r)
    ensures Eval(SubCreate(SubCreate(l, r.right), r.left), a)
         == Wrap(Width(l), Eval(l, a) - Eval(r, a))
    decreases Size(l) + Size(r), 1
  {
    hide Wrap, Pow2, AddCreate, SubCreate;
    var w, k, x, y := Width(l), r.left.value, Eval(l, a), Eval(r.right, a);
    SubCreateSound(l, r.right, a);
    SubCreateSound(SubCreate(l, r.right), r.left, a);
    RegroupSub(w, k, x, y);
  }

  lemma {:induction false} SubRightDiffSound(l: Expr, r: Expr, a: Assignment)
    requires Matching(l, r) && Width(l) != BOOL && !l.Constant? && IsDiff(r)
    ensures Eval(SubCreate(AddCreate(l, r.right), r.left), a)
         == Wrap(Width(l), Eval(l, a) - Eval(r, a))
    decreases Size(l) + Size(r), 1
  {
    hide Wrap, Pow2, AddCreate, SubCreate;
    var w, k, x, y := Width(l), r.left.value, Eval(l, a), Eval(r.right, a);
    AddCreateSound(l, r.right, a);
    SubCreateSound(AddCreate(l, r.right), r.left, a);
    RegroupSub(w, k, x, y);
  }

  // ------------------------------------------------------------------ weight

  lemma LinearParts(e: Expr)
    requires (IsSum(e) || IsDiff(e)) && Width(e) > 0
    ensures Width(e.left) == Width(e.right) == Width(e)
    ensures Size(e.left) == 1 && Size(e) == 2 + Size(e.right)
    ensures Weight(e.left) == 0 && Weight(e.right) <= Weight(e)
  {
  }

  lemma BinaryWeight(op: BinOp, l: Expr, r: Expr)
    ensures Weight(Binary(op, l, r)) == AtLeastOne(Weight(l) + Weight(r))
  {
  }

  lemma {:induction false} AddCreateLight(l: Expr, r: Expr)
    requires Matching(l, r)
    ensures Weight(AddCreate(l, r)) <= Weight(l) + Weight(r)
    decreases Size(l) + Size(r), NonConst(l) + NonConst(r), 1
  {
    if l.Constant? && !r.Constant? {
      AddPartialRLight(l, r);
    } else if r.Constant? && !l.Constant? {
      AddPartialRLight(r, l);
    } else if !l.Constant? && Width(l) != BOOL {
      AddGeneralLight(l, r);
    }
  }

  lemma {:induction false} AddPartialRLight(cl: Expr, r: Expr)
    requires cl.Constant? && Matching(cl, r)
    ensures Weight(AddPartialR(cl, r)) <= AtLeastOne(Weight(r))
    decreases Size(cl) + Size(r), NonConst(r), 0
  {
    if cl.width == BOOL {
      XorPartialRLight(cl, r);
    } else if IsSum(r) {
      AddCreateLight(FoldLinear(Add, cl, r.left), r.right);
    } else if IsDiff(r) {
      SubCreateLight(FoldLinear(Add, cl, r.left), r.right);
    }
  }

  lemma {:induction false} AddGeneralLight(l: Expr, r: Expr)
    requires Matching(l, r) && Width(l) != BOOL && !l.Constant? && !r.Constant?
    ensures Weight(AddGeneral(l, r)) <= Weight(l) + Weight(r)
    decreases Size(l) + Size(r), NonConst(l) + NonConst(r), 0
  {
    hide Width, Weight, Size, AddCreate, SubCreate;
    if IsSum(l) {
      LinearParts(l);
      AddCreateLight(l.right, r);
      AddCreateLight(l.left, AddCreate(l.right, r));
    } else if IsDiff(l) {
      LinearParts(l);
      SubCreateLight(r, l.right);
      AddCreateLight(l.left, SubCreate(r, l.right));
    } else if IsSum(r) {
      LinearParts(r);
      AddCreateLight(l, r.right);
      AddCreateLight(r.left, AddCreate(l, r.right));
    } else if IsDiff(r) {
      LinearParts(r);
      SubCreateLight(l, r.right);
      AddCreateLight(r.left, SubCreate(l, r.right));
    } else {
      BinaryWeight(Add, l, r);
    }
  }

  lemma {:induction false} SubCreateLight(l: Expr, r: Expr)
    requires Matching(l, r)
    ensures Weight(SubCreate(l, r)) <= Weight(l) + Weight(r)
    decreases Size(l) + Size(r), NonConst(l) + NonConst(r), 1
  {
    if l.Constant? && !r.Constant? {
      SubPartialRLight(l, r);
    } else if r.Constant? && !l.Constant? {
      AddPartialRLight(FoldLinear(Sub, Constant(0, r.width), r), l);
    } else if !l.Constant? && Width(l) != BOOL {
      SubGeneralLight(l, r);
    }
  }

  lemma {:induction false} SubPartialRLight(cl: Expr, r: Expr)
    requires cl.Constant? && Matching(cl, r)
    ensures Weight(SubPartialR(cl, r)) <= AtLeastOne(Weight(r))
    decreases Size(cl) + Size(r), NonConst(r), 0
  {
    if cl.width == BOOL {
      XorPartialRLight(cl, r);
    } else if IsSum(r) {
      SubCreateLight(FoldLinear(Sub, cl, r.left), r.right);
    } else if IsDiff(r) {
      AddCreateLight(FoldLinear(Sub, cl, r.left), r.right);
    }
  }

  lemma {:induction false} SubGeneralLight(l: Expr, r: Expr)
    requires Matching(l, r) && Width(l) != BOOL && !l.Constant? && !r.Constant?
    ensures Weight(SubGeneral(l, r)) <= Weight(l) + Weight(r)
    decreases Size(l) + Size(r), NonConst(l) + NonConst(r), 0
  {
    hide Width, Weight, Size, AddCreate, SubCreate;
    if l == r {
    } else if IsSum(l) {
      LinearParts(l);
      SubCreateLight(l.right, r);
      AddCreateLight(l.left, SubCreate(l.right, r));
    } else if IsDiff(l) {
      LinearParts(l);
      AddCreateLight(l.right, r);
      SubCreateLight(l.left, AddCreate(l.right, r));
    } else if IsSum(r) {
      LinearParts(r);
      SubCreateLight(l, r.right);
      SubCreateLight(SubCreate(l, r.right), r.left);
    } else if IsDiff(r) {
      LinearParts(r);
      AddCreateLight(l, r.right);
      SubCreateLight(AddCreate(l, r.right), r.left);
    } else {
      BinaryWeight(Sub, l, r);
    }
  }

  // ----------------------------------------------------------- canonical form

  /** A tree of additions and subtractions none of whose leaves is a constant. */
  predicate ConstFree(e: Expr) {
    !e.Constant?
    && (e.Binary? && (e.op == Add || e.op == Sub) ==> ConstFree(e.left) && ConstFree(e.right))
  }

  /** The documented canonical form of a linear formula: at most one constant, and
      that one on the left of the root. */
  predicate LinearForm(e: Expr) {
    e.Constant? || ConstFree(e)
    || (IsSum(e) && e.left.value != 0 && ConstFree(e.right))
    || (IsDiff(e) && ConstFree(e.right))
  }

  lemma {:induction false} AddCreateLinear(l: Expr, r: Expr)
    requires Matching(l, r) && Width(l) != BOOL && LinearForm(l) && LinearForm(r)
    ensures LinearForm(AddCreate(l, r))
    decreases Size(l) + Size(r), NonConst(l) + NonConst(r), 1
  {
    if l.Constant? && !r.Constant? {
      AddPartialRLinear(l, r);
    } else if r.Constant? && !l.Constant? {
      AddPartialRLinear(r, l);
    } else if !l.Constant? {
      AddGeneralLinear(l, r);
    }
  }

  lemma {:induction false} AddPartialRLinear(cl: Expr, r: Expr)
    requires cl.Constant? && !r.Constant? && Matching(cl, r) && Width(r) != BOOL && LinearForm(r)
    ensures LinearForm(AddPartialR(cl, r))
    decreases Size(cl) + Size(r), NonConst(r), 0
  {
    if IsSum(r) {
      AddCreateLinear(FoldLinear(Add, cl, r.left), r.right);
    } else if IsDiff(r) {
      SubCreateLinear(FoldLinear(Add, cl, r.left), r.right);
    }
  }

  lemma {:induction false} AddGeneralLinear(l: Expr, r: Expr)
    requires Matching(l, r) && Width(l) != BOOL && !l.Constant? && !r.Constant?
    requires LinearForm(l) && LinearForm(r)
    ensures LinearForm(AddGeneral(l, r))
    decreases Size(l) + Size(r), NonConst(l) + NonConst(r), 0
  {
    if IsSum(l) {
      AddCreateLinear(l.right, r);
      AddCreateLinear(l.left, AddCreate(l.right, r));
    } else if IsDiff(l) {
      SubCreateLinear(r, l.right);
      AddCreateLinear(l.left, SubCreate(r, l.right));
    } else if IsSum(r) {
      AddCreateLinear(l, r.right);
      AddCreateLinear(r.left, AddCreate(l, r.right));
    } else if IsDiff(r) {
      SubCreateLinear(l, r.right);
      AddCreateLinear(r.left, SubCreate(l, r.right));
    }
  }

  lemma {:induction false} SubCreateLinear(l: Expr, r: Expr)
    requires Matching(l, r) && Width(l) != BOOL && LinearForm(l) && LinearForm(r)
    ensures LinearForm(SubCreate(l, r))
    decreases Size(l) + Size(r), NonConst(l) + NonConst(r), 1
  {
    if l.Constant? && !r.Constant? {
      SubPartialRLinear(l, r);
    } else if r.Constant? && !l.Constant? {
      AddPartialRLinear(FoldLinear(Sub, Constant(0, r.width), r), l);
    } else if !l.Constant? {
      SubGeneralLinear(l, r);
    }
  }

  lemma {:induction false} SubPartialRLinear(cl: Expr, r: Expr)
    requires cl.Constant? && !r.Constant? && Matching(cl, r) && Width(r) != BOOL && LinearForm(r)
    ensures LinearForm(SubPartialR(cl, r))
    decreases Size(cl) + Size(r), NonConst(r), 0
  {
    if IsSum(r) {
      SubCreateLinear(FoldLinear(Sub, cl, r.left), r.right);
    } else if IsDiff(r) {
      AddCreateLinear(FoldLinear(Sub, cl, r.left), r.right);
    }
  }

  lemma {:induction false} SubGeneralLinear(l: Expr, r: Expr)
    requires Matching(l, r) && Width(l) != BOOL && !l.Constant? && !r.Constant?
    requires LinearForm(l) && LinearForm(r)
    ensures LinearForm(SubGeneral(l, r))
    decreases Size(l) + Size(r), NonConst(l) + NonConst(r), 0
  {
    if l == r {
    } else if IsSum(l) {
      SubCreateLinear(l.right, r);
      AddCreateLinear(l.left, SubCreate(l.right, r));
    } else if IsDiff(l) {
      AddCreateLinear(l.right, r);
      SubCreateLinear(l.left, AddCreate(l.right, r));
    } else if IsSum(r) {
      SubCreateLinear(l, r.right);
      SubCreateLinear(SubCreate(l, r.right), r.left);
    } else if IsDiff(r) {
      AddCreateLinear(l, r.right);
      SubCreateLinear(AddCreate(l, r.right), r.left);
    }
  }
}
