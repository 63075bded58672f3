/**
 The documented canonical form of expressions, which every constructor keeps.
 */
module CanonicalForms {
  import opened Bits
  import opened Exprs
  import opened LogicConstructors
  import opened LinearConstructors
  import opened SliceConstructors
  import opened Constructors

  // ------------------------------------------------------------------- the rules

  /** Comparisons that are written with another operator. */
  predicate IsUnused(op: BinOp) {
    op.Ne? || op.Ugt? || op.Uge? || op.Sgt? || op.Sge?
  }

  predicate IsLogical(op: BinOp) {
    op.And? || op.Or? || op.Xor? || op.Eq?
  }

  /** A constant operand that makes the operation superfluous. */
  predicate IsNeutral(op: BinOp, c: Expr) {
    c.Constant?
    && ((op.Mul? && c.value <= 1) || (op.Xor? && c.value == 0)
        || ((op.And? || op.Or?) && (c.value == 0 || c.value == AllOnes(c.width))))
  }

  /** `cl == r` has a simpler form. */
  predicate EqReduces(cl: Expr, r: Expr) {
    cl.Constant?
    && if cl.width == BOOL then
         cl.value == 1 || (r.Binary? && (r.op == Or || (r.op == Eq && r.left == FALSE)))
       else
         (r.Unary? && (r.unop.SExt? || r.unop.ZExt?)) || IsSum(r) || IsDiff(r)
  }

  predicate BinaryOk(op: BinOp, l: Expr, r: Expr) {
    !(l.Constant? && r.Constant?) && !IsUnused(op)
    && (op.Mul? || op.Xor? || op.Eq? ==> !r.Constant?)
    && (op.Add? || op.Sub? ==> LinearForm(Binary(op, l, r)))
    && (op.Concat? ==> !Contiguous(l, r))
    && (op.Eq? ==> l != r && !EqReduces(l, r)) && (op.Sub? ==> l != r)
    && !IsNeutral(op, l) && !IsNeutral(op, r)
    && (Width(l) == BOOL && !op.Concat? ==>
          (IsLogical(op) && (l.Constant? || r.Constant? ==> op.Eq? && l == FALSE)))
  }

  predicate UnaryOk(op: UnOp, x: Expr) {
    op.NotOptimized?
    || (!x.Constant?
        && (op.Extract? ==> op.bits < Width(x) && !IsConcat(x))
        && (op.ZExt? || op.SExt? ==> Width(x) < op.to))
  }

  predicate SelectOk(c: Expr, t: Expr, f: Expr) {
    !c.Constant? && t != f && (Width(t) == BOOL ==> !t.Constant? && !f.Constant?)
  }

  /** Every node, down to the writes that are read through, is as the rules say. */
  predicate Canonical(e: Expr)
    decreases e
  {
    match e
    case Constant(_, _) => true
    case Read(ul, i) => CanonicalList(ul) && Canonical(i)
    case Unary(op, x) => UnaryOk(op, x) && Canonical(x)
    case Binary(op, l, r) => BinaryOk(op, l, r) && Canonical(l) && Canonical(r)
    case Select(c, t, f) => SelectOk(c, t, f) && Canonical(c) && Canonical(t) && Canonical(f)
  }

  predicate CanonicalList(ul: UpdateList)
    decreases ul
  {
    forall i :: 0 <= i < |ul.nodes| ==> CanonicalNode(ul.nodes[i])
  }

  predicate CanonicalNode(n: UpdateNode)
    decreases n
  {
    Canonical(n.index) && Canonical(n.value)
  }

  lemma CanonicalLinear(e: Expr)
    requires Canonical(e)
    ensures LinearForm(e)
  {
  }

  lemma CanonicalBinary(op: BinOp, l: Expr, r: Expr)
    requires BinaryOk(op, l, r) && Canonical(l) && Canonical(r)
    ensures Canonical(Binary(op, l, r))
  {
  }

  lemma CanonicalParts(e: Expr)
    requires Canonical(e) && e.Binary?
    ensures BinaryOk(e.op, e.left, e.right) && Canonical(e.left) && Canonical(e.right)
  {
  }

  lemma CanonicalConstant(e: Expr)
    requires e.Constant?
    ensures Canonical(e)
  {
  }

  // ----------------------------------------------------------------- and, or, xor

  lemma AndCreateCanonical(l: Expr, r: Expr)
    requires Matching(l, r) && Canonical(l) && Canonical(r)
    ensures Canonical(AndCreate(l, r))
  {
    hide Canonical, Width, Pow2, LinearForm;
    LogicalOk(And, l, r);
    LogicalOk(And, r, l);
    if l.Constant? && r.Constant? {
      CanonicalConstant(AndCreate(l, r));
    } else if l.Constant? {
      if !IsNeutral(And, l) {
        CanonicalBinary(And, r, l);
      }
    } else if !IsNeutral(And, r) {
      CanonicalBinary(And, l, r);
    }
  }

  lemma OrCreateCanonical(l: Expr, r: Expr)
    requires Matching(l, r) && Canonical(l) && Canonical(r)
    ensures Canonical(OrCreate(l, r))
  {
    hide Canonical, Width, Pow2, LinearForm;
    LogicalOk(Or, l, r);
    LogicalOk(Or, r, l);
    if l.Constant? && r.Constant? {
      CanonicalConstant(OrCreate(l, r));
    } else if l.Constant? {
      if !IsNeutral(Or, l) {
        CanonicalBinary(Or, r, l);
      }
    } else if !IsNeutral(Or, r) {
      CanonicalBinary(Or, l, r);
    }
  }

  /** On Booleans every constant is neutral. */
  lemma LogicalOk(op: BinOp, l: Expr, r: Expr)
    requires (op.And? || op.Or?) && Matching(l, r)
    ensures !l.Constant? && !IsNeutral(op, r) ==> BinaryOk(op, l, r)
  {
    assert Pow2(1) == 2;
  }

  // --------------------------------------------------------------------- equality

  lemma EqPlainCanonical(l: Expr, r: Expr)
    requires Matching(l, r) && Canonical(l) && Canonical(r) && !r.Constant? && !EqReduces(l, r)
    ensures Canonical(EqPlain(l, r))
  {
    hide Canonical, LinearForm, EqReduces;
    if l == r {
      CanonicalConstant(TRUE);
    } else {
      EqOk(l, r);
      CanonicalBinary(Eq, l, r);
    }
  }

  lemma EqOk(l: Expr, r: Expr)
    requires Matching(l, r) && !r.Constant? && l != r && !EqReduces(l, r)
    ensures BinaryOk(Eq, l, r)
  {
    assert Pow2(1) == 2;
  }

  lemma {:induction false} EqCreateCanonical(l: Expr, r: Expr)
    requires Matching(l, r) && Canonical(l) && Canonical(r)
    ensures Canonical(EqCreate(l, r))
    decreases Size(l) + Size(r), 1
  {
    hide Canonical, Width, Pow2, LinearForm, EqPartialR, Size;
    if l.Constant? && r.Constant? {
      CanonicalConstant(EqCreate(l, r));
    } else if l.Constant? {
      EqPartialRCanonical(l, r);
    } else if r.Constant? {
      EqPartialRCanonical(r, l);
    } else {
      EqPlainCanonical(l, r);
    }
  }

  lemma {:induction false} EqPartialRCanonical(cl: Expr, r: Expr)
    requires cl.Constant? && !r.Constant? && Matching(cl, r) && Canonical(r)
    ensures Canonical(EqPartialR(cl, r))
    decreases Size(cl) + Size(r), 0
  {
    hide Canonical, Pow2, LinearForm, AndCreate, EqCreate;
    CanonicalConstant(cl);
    ConstantWidth(cl);
    if !EqReduces(cl, r) {
      EqPlainCanonical(cl, r);
    } else if cl.width == BOOL {
      if cl.value != 1 {
        CanonicalParts(r);
        if r.op == Or {
          IsZeroCanonical(r.left);
          IsZeroCanonical(r.right);
          IsZeroTyped(r.left);
          IsZeroTyped(r.right);
          AndCreateCanonical(IsZero(r.left), IsZero(r.right));
        }
      }
    } else if r.Unary? {
      EqExtendCanonical(cl, r);
    } else {
      EqLinearCanonical(cl, r);
    }
  }

  lemma ConstantWidth(c: Expr)
    requires c.Constant? && Width(c) > 0
    ensures c.width == Width(c)
  {
  }

  lemma {:induction false} EqExtendCanonical(cl: Expr, r: Expr)
    requires cl.Constant? && cl.width != BOOL && Matching(cl, r) && Canonical(r)
    requires r.Unary? && (r.unop.SExt? || r.unop.ZExt?)
    ensures Canonical(EqPartialR(cl, r))
    decreases Size(cl) + Size(r), 0, 0
  {
    hide LinearForm, EqCreate, SignExtend, Wrap;
    var trunc := Const(cl.value, Width(r.kid));
    CanonicalConstant(trunc);
    CanonicalConstant(FALSE);
    EqCreateCanonical(r.kid, trunc);
  }

  lemma {:induction false} EqLinearCanonical(cl: Expr, r: Expr)
    requires cl.Constant? && cl.width != BOOL && Matching(cl, r) && Canonical(r) && (IsSum(r) || IsDiff(r))
    ensures Canonical(EqPartialR(cl, r))
    decreases Size(cl) + Size(r), 0, 0
  {
    hide Canonical, Pow2, LinearForm, EqCreate, Wrap;
    CanonicalParts(r);
    if IsSum(r) {
      FoldTyped(Sub, cl, r.left);
      EqPartialRCanonical(Fold(Sub, cl, r.left), r.right);
    } else {
      FoldTyped(Sub, r.left, cl);
      EqPartialRCanonical(Fold(Sub, r.left, cl), r.right);
    }
  }

  lemma {:induction false} IsZeroCanonical(e: Expr)
    requires Width(e) > 0 && Canonical(e)
    ensures Canonical(IsZero(e))
    decreases Size(e) + 1, 2
  {
    hide Canonical, EqCreate;
    CanonicalConstant(Constant(0, Width(e)));
    EqCreateCanonical(e, Constant(0, Width(e)));
  }

  // ----------------------------------------------------------------- exclusive or

  lemma XorPartialRCanonical(cl: Expr, r: Expr)
    requires cl.Constant? && !r.Constant? && Matching(cl, r) && Canonical(r)
    ensures Canonical(XorPartialR(cl, r))
  {
    hide Canonical, LinearForm, EqPartialR, Pow2;
    if cl.value != 0 {
      if cl.width == BOOL {
        BoolConstants();
        EqPartialRCanonical(FALSE, r);
      } else {
        CanonicalConstant(cl);
        CanonicalBinary(Xor, cl, r);
      }
    }
  }

  lemma XorCreateCanonical(l: Expr, r: Expr)
    requires Matching(l, r) && Canonical(l) && Canonical(r)
    ensures Canonical(XorCreate(l, r))
  {
    hide Canonical, LinearForm, XorPartialR, Pow2;
    if l.Constant? && r.Constant? {
      CanonicalConstant(XorCreate(l, r));
    } else if l.Constant? {
      XorPartialRCanonical(l, r);
    } else if r.Constant? {
      XorPartialRCanonical(r, l);
    } else {
      CanonicalBinary(Xor, l, r);
    }
  }

  // ------------------------------------------------------------------ comparisons

  lemma BoolOrderCanonical(op: BinOp, l: Expr, r: Expr)
    requires IsOrder(op) && Width(l) == Width(r) == BOOL && Canonical(l) && Canonical(r)
    ensures Canonical(BoolOrder(op, l, r))
  {
    hide Canonical, Width, AndCreate, OrCreate, IsZero;
    IsZeroCanonical(l);
    IsZeroCanonical(r);
    IsZeroTyped(l);
    IsZeroTyped(r);
    match op
    case Ult => AndCreateCanonical(IsZero(l), r);
    case Ule => OrCreateCanonical(IsZero(l), r);
    case Slt => AndCreateCanonical(l, IsZero(r));
    case Sle => OrCreateCanonical(l, IsZero(r));
  }

  lemma OrderCreateCanonical(op: BinOp, l: Expr, r: Expr)
    requires IsOrder(op) && Matching(l, r) && Canonical(l) && Canonical(r)
    ensures Canonical(OrderCreate(op, l, r))
  {
    hide Canonical, LinearForm, BoolOrder, Width;
    if l.Constant? && r.Constant? {
      CanonicalConstant(OrderCreate(op, l, r));
    } else if Width(l) == BOOL {
      BoolOrderCanonical(op, l, r);
    } else {
      CanonicalBinary(op, l, r);
    }
  }

  lemma CompareCreateCanonical(op: BinOp, l: Expr, r: Expr)
    requires IsCompare(op) && Matching(l, r) && Canonical(l) && Canonical(r)
    ensures Canonical(CompareCreate(op, l, r))
  {
    hide Canonical, EqCreate, OrderCreate, Width;
    if op.Eq? || op.Ne? {
      EqCreateCanonical(l, r);
      if op.Ne? {
        BoolConstants();
        EqCreateTyped(l, r);
        CanonicalConstant(FALSE);
        EqCreateCanonical(FALSE, EqCreate(l, r));
      }
    } else if IsOrder(op) {
      OrderCreateCanonical(op, l, r);
    } else {
      OrderCreateCanonical(Mirror(op), r, l);
    }
  }

  // ----------------------------------------------------------------------- select

  lemma SelectCreateCanonical(c: Expr, t: Expr, f: Expr)
    requires Selectable(c, t, f) && Canonical(c) && Canonical(t) && Canonical(f)
    ensures Canonical(SelectCreate(c, t, f))
  {
    hide Canonical, SelectTrueArm, SelectFalseArm, Width;
    if !c.Constant? && t != f {
      if Width(t) == BOOL && (t.Constant? || f.Constant?) {
        if t.Constant? {
          TrueArmCanonical(c, t, f);
        } else {
          FalseArmCanonical(c, t, f);
        }
      } else {
        CanonicalSelect(c, t, f);
      }
    }
  }

  lemma CanonicalSelect(c: Expr, t: Expr, f: Expr)
    requires SelectOk(c, t, f) && Canonical(c) && Canonical(t) && Canonical(f)
    ensures Canonical(Select(c, t, f))
  {
  }

  lemma TrueArmCanonical(c: Expr, t: Expr, f: Expr)
    requires Width(c) == Width(f) == BOOL && t.Constant? && Canonical(c) && Canonical(f)
    ensures Canonical(SelectTrueArm(c, t, f))
  {
    hide Canonical, AndCreate, OrCreate, IsZero, Width;
    IsZeroCanonical(c);
    IsZeroTyped(c);
    OrCreateCanonical(c, f);
    AndCreateCanonical(IsZero(c), f);
  }

  lemma FalseArmCanonical(c: Expr, t: Expr, f: Expr)
    requires Width(c) == Width(t) == BOOL && f.Constant? && Canonical(c) && Canonical(t)
    ensures Canonical(SelectFalseArm(c, t, f))
  {
    hide Canonical, AndCreate, OrCreate, IsZero, Width;
    IsZeroCanonical(c);
    IsZeroTyped(c);
    OrCreateCanonical(IsZero(c), t);
    AndCreateCanonical(c, t);
  }

  // --------------------------------------------------------- sums and differences

  lemma {:induction false} AddCreateCanonical(l: Expr, r: Expr)
    requires Matching(l, r) && Canonical(l) && Canonical(r)
    ensures Canonical(AddCreate(l, r))
    decreases Size(l) + Size(r), NonConst(l) + NonConst(r), 1
  {
    hide Canonical, LinearForm, AddPartialR, AddGeneral, XorPartialR, Pow2;
    if l.Constant? && r.Constant? {
      CanonicalConstant(AddCreate(l, r));
    } else if l.Constant? {
      AddPartialRCanonical(l, r);
    } else if r.Constant? {
      AddPartialRCanonical(r, l);
    } else if Width(l) == BOOL {
      CanonicalBinary(Xor, l, r);
    } else {
      AddGeneralCanonical(l, r);
    }
  }

  lemma {:induction false} AddPartialRCanonical(cl: Expr, r: Expr)
    requires cl.Constant? && !r.Constant? && Matching(cl, r) && Canonical(r)
    ensures Canonical(AddPartialR(cl, r))
    decreases Size(cl) + Size(r), 1, 0
  {
    hide Canonical, LinearForm, AddCreate, SubCreate, XorPartialR, Pow2;
    CanonicalConstant(cl);
    if cl.width == BOOL {
      XorPartialRCanonical(cl, r);
    } else if cl.value != 0 {
      if IsSum(r) {
        CanonicalParts(r);
        CanonicalConstant(FoldLinear(Add, cl, r.left));
        AddCreateCanonical(FoldLinear(Add, cl, r.left), r.right);
      } else if IsDiff(r) {
        CanonicalParts(r);
        CanonicalConstant(FoldLinear(Add, cl, r.left));
        SubCreateCanonical(FoldLinear(Add, cl, r.left), r.right);
      } else {
        CanonicalLinear(r);
        AddPartialRLinear(cl, r);
        CanonicalBinary(Add, cl, r);
      }
    }
  }

  lemma {:induction false} AddGeneralCanonical(l: Expr, r: Expr)
    requires Matching(l, r) && Width(l) != BOOL && !l.Constant? && !r.Constant? && Canonical(l) && Canonical(r)
    ensures Canonical(AddGeneral(l, r))
    decreases Size(l) + Size(r), NonConst(l) + NonConst(r), 0
  {
    hide Canonical, LinearForm, AddCreate, SubCreate, Pow2;
    if IsSum(l) {
      CanonicalParts(l);
      AddCreateCanonical(l.right, r);
      AddCreateCanonical(l.left, AddCreate(l.right, r));
    } else if IsDiff(l) {
      CanonicalParts(l);
      SubCreateCanonical(r, l.right);
      AddCreateCanonical(l.left, SubCreate(r, l.right));
    } else if IsSum(r) {
      CanonicalParts(r);
      AddCreateCanonical(l, r.right);
      AddCreateCanonical(r.left, AddCreate(l, r.right));
    } else if IsDiff(r) {
      CanonicalParts(r);
      SubCreateCanonical(l, r.right);
      AddCreateCanonical(r.left, SubCreate(l, r.right));
    } else {
      CanonicalLinear(l);
      CanonicalLinear(r);
      AddGeneralLinear(l, r);
      CanonicalBinary(Add, l, r);
    }
  }

  lemma {:induction false} SubCreateCanonical(l: Expr, r: Expr)
    requires Matching(l, r) && Canonical(l) && Canonical(r)
    ensures Canonical(SubCreate(l, r))
    decreases Size(l) + Size(r), NonConst(l) + NonConst(r), 1
  {
    hide Canonical, LinearForm, AddPartialR, SubPartialR, SubGeneral, XorPartialR, Pow2;
    if l.Constant? && r.Constant? {
      CanonicalConstant(SubCreate(l, r));
    } else if l.Constant? {
      SubPartialRCanonical(l, r);
    } else if r.Constant? {
      ZeroTyped(r);
      AddPartialRCanonical(FoldLinear(Sub, Constant(0, r.width), r), l);
    } else if Width(l) == BOOL {
      CanonicalBinary(Xor, l, r);
    } else {
      SubGeneralCanonical(l, r);
    }
  }

  lemma {:induction false} SubPartialRCanonical(cl: Expr, r: Expr)
    requires cl.Constant? && !r.Constant? && Matching(cl, r) && Canonical(r)
    ensures Canonical(SubPartialR(cl, r))
    decreases Size(cl) + Size(r), 1, 0
  {
    hide Canonical, LinearForm, AddCreate, SubCreate, XorPartialR, Pow2;
    CanonicalConstant(cl);
    if cl.width == BOOL {
      XorPartialRCanonical(cl, r);
    } else if IsSum(r) {
      CanonicalParts(r);
      CanonicalConstant(FoldLinear(Sub, cl, r.left));
      SubCreateCanonical(FoldLinear(Sub, cl, r.left), r.right);
    } else if IsDiff(r) {
      CanonicalParts(r);
      CanonicalConstant(FoldLinear(Sub, cl, r.left));
      AddCreateCanonical(FoldLinear(Sub, cl, r.left), r.right);
    } else {
      CanonicalLinear(r);
      SubPartialRLinear(cl, r);
      CanonicalBinary(Sub, cl, r);
    }
  }

  lemma {:induction false} SubGeneralCanonical(l: Expr, r: Expr)
    requires Matching(l, r) && Width(l) != BOOL && !l.Constant? && !r.Constant? && Canonical(l) && Canonical(r)
    ensures Canonical(SubGeneral(l, r))
    decreases Size(l) + Size(r), NonConst(l) + NonConst(r), 0
  {
    hide Canonical, LinearForm, AddCreate, SubCreate, Pow2;
    if l == r {
      CanonicalConstant(SubGeneral(l, r));
    } else if IsSum(l) {
      CanonicalParts(l);
      SubCreateCanonical(l.right, r);
      AddCreateCanonical(l.left, SubCreate(l.right, r));
    } else if IsDiff(l) {
      CanonicalParts(l);
      AddCreateCanonical(l.right, r);
      SubCreateCanonical(l.left, AddCreate(l.right, r));
    } else if IsSum(r) {
      CanonicalParts(r);
      SubCreateCanonical(l, r.right);
      SubCreateCanonical(SubCreate(l, r.right), r.left);
    } else if IsDiff(r) {
      CanonicalParts(r);
      AddCreateCanonical(l, r.right);
      SubCreateCanonical(AddCreate(l, r.right), r.left);
    } else {
      CanonicalLinear(l);
      CanonicalLinear(r);
      SubGeneralLinear(l, r);
      CanonicalBinary(Sub, l, r);
    }
  }

  // ------------------------------------------------------------------------ slices

  lemma {:induction false} ConcatCreateCanonical(l: Expr, r: Expr)
    requires Width(l) > 0 && Width(r) > 0 && Canonical(l) && Canonical(r)
    ensures Canonical(ConcatCreate(l, r))
    decreases Size(l) + Size(r)
  {
    hide LinearForm, ExtractCreate, Pow2;
    if l.Constant? && r.Constant? {
      CanonicalConstant(ConcatCreate(l, r));
    } else if Contiguous(l, r) {
      ExtractCreateCanonical(l.kid, r.unop.offset, l.unop.bits + r.unop.bits);
    } else {
      CanonicalBinary(Concat, l, r);
    }
  }

  lemma {:induction false} ExtractCreateCanonical(x: Expr, off: nat, w: nat)
    requires w > 0 && off + w <= Width(x) && Canonical(x)
    ensures Canonical(ExtractCreate(x, off, w))
    decreases 2 * Size(x)
  {
    hide LinearForm, ExtractFromConcat, Pow2;
    if w != Width(x) {
      if x.Constant? {
        CanonicalConstant(ExtractCreate(x, off, w));
      } else if IsConcat(x) {
        ExtractFromConcatCanonical(x, off, w);
      }
    }
  }

  lemma {:induction false} ExtractFromConcatCanonical(x: Expr, off: nat, w: nat)
    requires IsConcat(x) && w > 0 && off + w <= Width(x) && Canonical(x)
    ensures Canonical(ExtractFromConcat(x, off, w))
    decreases 2 * Size(x) - 1
  {
    hide LinearForm, ExtractCreate, ConcatCreate, Pow2;
    CanonicalParts(x);
    var wr := Width(x.right);
    if off >= wr {
      ExtractCreateCanonical(x.left, off - wr, w);
    } else if off + w <= wr {
      ExtractCreateCanonical(x.right, off, w);
    } else {
      ExtractCreateCanonical(x.left, 0, w - wr + off);
      ExtractCreateCanonical(x.right, off, wr - off);
      ConcatCreateCanonical(ExtractCreate(x.left, 0, w - wr + off), ExtractCreate(x.right, off, wr - off));
    }
  }

  lemma ExtendCreateCanonical(op: UnOp, x: Expr)
    requires (op.ZExt? || op.SExt?) && 0 < op.to && Width(x) > 0 && Canonical(x)
    ensures Canonical(ExtendCreate(op, x))
  {
    hide LinearForm, ExtractCreate, Pow2;
    if op.to < Width(x) {
      ExtractCreateCanonical(x, 0, op.to);
    }
  }

  // -------------------------------------------------------------------- all of them

  lemma MulCreateCanonical(l: Expr, r: Expr)
    requires Matching(l, r) && Canonical(l) && Canonical(r)
    ensures Canonical(MulCreate(l, r))
  {
    hide Canonical, LinearForm, MulPartialR, Pow2;
    if l.Constant? && r.Constant? {
      CanonicalConstant(MulCreate(l, r));
    } else if l.Constant? {
      MulPartialRCanonical(l, r);
    } else if r.Constant? {
      MulPartialRCanonical(r, l);
    } else if Width(l) == BOOL {
      CanonicalBinary(And, l, r);
    } else {
      CanonicalBinary(Mul, l, r);
    }
  }

  lemma MulPartialRCanonical(cl: Expr, r: Expr)
    requires cl.Constant? && !r.Constant? && Matching(cl, r) && Canonical(r)
    ensures Canonical(MulPartialR(cl, r))
  {
    hide Canonical, LinearForm, Pow2;
    CanonicalConstant(cl);
    if cl.width == BOOL {
      AndCreateCanonical(cl, r);
    } else if cl.value > 1 {
      CanonicalBinary(Mul, cl, r);
    }
  }

  lemma PlainCreateCanonical(op: BinOp, l: Expr, r: Expr)
    requires IsPlain(op) && Matching(l, r) && Canonical(l) && Canonical(r)
    ensures Canonical(PlainCreate(op, l, r))
  {
    hide Canonical, LinearForm, AndCreate, IsZero, Width;
    if l.Constant? && r.Constant? {
      CanonicalConstant(PlainCreate(op, l, r));
    } else if Width(l) == BOOL {
      CanonicalConstant(FALSE);
      IsZeroCanonical(r);
      IsZeroTyped(r);
      AndCreateCanonical(l, IsZero(r));
    } else {
      CanonicalBinary(op, l, r);
    }
  }

  /** Every binary constructor keeps the canonical form ... */
  lemma BinCreateCanonical(op: BinOp, l: Expr, r: Expr)
    requires BinWidth(op, Width(l), Width(r)) > 0 && Canonical(l) && Canonical(r)
    ensures Canonical(BinCreate(op, l, r))
  {
    hide Canonical, ConcatCreate, AddCreate, SubCreate, MulCreate, AndCreate, OrCreate, XorCreate, PlainCreate,
         CompareCreate, Width;
    if op.Concat? {
      ConcatCreateCanonical(l, r);
    } else if op.Add? {
      AddCreateCanonical(l, r);
    } else if op.Sub? {
      SubCreateCanonical(l, r);
    } else if op.Mul? {
      MulCreateCanonical(l, r);
    } else if op.And? {
      AndCreateCanonical(l, r);
    } else if op.Or? {
      OrCreateCanonical(l, r);
    } else if op.Xor? {
      XorCreateCanonical(l, r);
    } else if IsPlain(op) {
      PlainCreateCanonical(op, l, r);
    } else {
      CompareCreateCanonical(op, l, r);
    }
  }

  /** ... and so does every unary one ... */
  lemma UnCreateCanonical(op: UnOp, x: Expr)
    requires UnCallable(op, Width(x)) && Canonical(x)
    ensures Canonical(UnCreate(op, x))
  {
    hide LinearForm, ExtractCreate, ExtendCreate, Pow2;
    if op.Extract? {
      ExtractCreateCanonical(x, op.offset, op.bits);
    } else if op.ZExt? || op.SExt? {
      ExtendCreateCanonical(op, x);
    }
  }

  /** ... and a read, of which a write may be the result. */
  lemma ReadCreateCanonical(ul: UpdateList, index: Expr)
    requires CanonicalList(ul) && Canonical(index)
    ensures Canonical(ReadCreate(ul, index))
  {
    hide EqCreate;
    RollBackCanonical(ul, ul.nodes, index);
  }

  lemma {:induction false} RollBackCanonical(ul: UpdateList, nodes: seq<UpdateNode>, index: Expr)
    requires forall i :: 0 <= i < |nodes| ==> CanonicalNode(nodes[i])
    ensures RollBack(nodes, index).Some? ==> Canonical(RollBack(nodes, index).value)
  {
    hide EqCreate, Canonical;
    if nodes != [] {
      assert CanonicalNode(nodes[0]);
      RollBackCanonical(ul, nodes[1..], index);
    }
  }

  /** So rebuilding a canonical node from canonical operands gives a canonical one. */
  lemma RebuildCanonical(e: Expr, kids: seq<Expr>)
    requires Canonical(e) && Rebuildable(e, kids) && forall i :: 0 <= i < |kids| ==> Canonical(kids[i])
    ensures Canonical(Rebuild(e, kids))
  {
    hide ReadCreate, UnCreate, BinCreate, SelectCreate, Pow2, LinearForm;
    match e
    case Constant(_, _) =>
    case Read(ul, _) => ReadCreateCanonical(ul, kids[0]);
    case Unary(op, _) => RebuildableUnary(e, kids); UnCreateCanonical(op, kids[0]);
    case Binary(op, _, _) => RebuildableBinary(e, kids); BinCreateCanonical(op, kids[0], kids[1]);
    case Select(_, _, _) => SelectCreateCanonical(kids[0], kids[1], kids[2]);
  }

  /** An optimisation barrier stays, also around a constant. */
  lemma BarrierStays(x: Expr)
    requires Width(x) > 0
    ensures !UnCreate(NotOptimized, x).Constant?
    ensures Weight(UnCreate(NotOptimized, x)) == Weight(x) + 1 && Size(UnCreate(NotOptimized, x)) == Size(x) + 1
  {
  }

  /** The documented rule that a constant operand is always on the left holds for sums,
      differences, products, exclusive or and equality. It fails for conjunction and
      disjunction, which move every constant that stays to the right. */
  lemma ConstantsOnTheRight(c: Expr, x: Expr)
    requires c.Constant? && !x.Constant?
    ensures AndCreate(c, x) == AndCreate(x, c) && OrCreate(c, x) == OrCreate(x, c)
    ensures !IsNeutral(And, c) <==> AndCreate(c, x) == Binary(And, x, c)
    ensures !IsNeutral(Or, c) <==> OrCreate(c, x) == Binary(Or, x, c)
  {
    assert Size(Binary(And, x, c)) > Size(x) && Size(Binary(Or, x, c)) > Size(x);
  }

  lemma ConstantsOnTheLeft(e: Expr)
    requires Canonical(e) && e.Binary? && (e.op.Add? || e.op.Sub? || e.op.Mul? || e.op.Xor? || e.op.Eq?)
    ensures !e.right.Constant?
  {
    CanonicalParts(e);
    if e.op.Add? || e.op.Sub? {
      assert ConstFree(e) ==> ConstFree(e.right);
      assert ConstFree(e.right) ==> !e.right.Constant?;
    }
  }

  /** The documented rule that chains lean to the right is not kept either: a sum of terms
      without constants is left as it is given, also if its left part is a sum. */
  lemma ChainsAsGiven(l: Expr, r: Expr)
    requires Matching(l, r) && Width(l) != BOOL && ConstFree(l) && ConstFree(r)
    ensures AddCreate(l, r) == Binary(Add, l, r)
    ensures l != r ==> SubCreate(l, r) == Binary(Sub, l, r)
  {
    hide Width;
    assert IsSum(l) || IsDiff(l) ==> !ConstFree(l.left);
    assert IsSum(r) || IsDiff(r) ==> !ConstFree(r.left);
  }
}
