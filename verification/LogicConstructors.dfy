/**
 Canonicalising constructors for the bitwise operators, equality, the orderings
 and `Select`. A `...Typed` lemma gives the width of what a constructor builds,
 a `...Sound` lemma its meaning, a `...Light` lemma that its weight never grows.
 */
module LogicConstructors {
  import opened Bits
  import opened Exprs

  /** Operands of one width, as every binary constructor asserts. */
  predicate Matching(l: Expr, r: Expr) {
    Width(l) == Width(r) > 0
  }

  /** Folding of two constants by the machine operation. */
  function Fold(op: BinOp, cl: Expr, cr: Expr): Expr
    requires cl.Constant? && cr.Constant?
  {
    Constant(EvalBin(op, cl.width, cr.width, cl.value, cr.value),
             BinWidth(op, cl.width, cr.width))
  }

  lemma FoldTyped(op: BinOp, cl: Expr, cr: Expr)
    requires cl.Constant? && cr.Constant? && BinWidth(op, Width(cl), Width(cr)) > 0
    ensures Width(Fold(op, cl, cr)) == BinWidth(op, Width(cl), Width(cr))
  {
    BinRange(op, cl.width, cr.width, cl.value, cr.value);
  }

  // ---------------------------------------------------------------- and, or

  function AndPartial(l: Expr, cr: Expr): Expr
    requires cr.Constant?
  {
    if cr.value == AllOnes(cr.width) then l
    else if cr.value == 0 then cr
    else Binary(And, l, cr)
  }

  function AndCreate(l: Expr, r: Expr): Expr {
    if l.Constant? && r.Constant? then Fold(And, l, r)
    else if l.Constant? then AndPartial(r, l)
    else if r.Constant? then AndPartial(l, r)
    else Binary(And, l, r)
  }

  function OrPartial(l: Expr, cr: Expr): Expr
    requires cr.Constant?
  {
    if cr.value == AllOnes(cr.width) then cr
    else if cr.value == 0 then l
    else Binary(Or, l, cr)
  }

  function OrCreate(l: Expr, r: Expr): Expr {
    if l.Constant? && r.Constant? then Fold(Or, l, r)
    else if l.Constant? then OrPartial(r, l)
    else if r.Constant? then OrPartial(l, r)
    else Binary(Or, l, r)
  }

  lemma AndCreateTyped(l: Expr, r: Expr)
    requires Matching(l, r)
    ensures Width(AndCreate(l, r)) == Width(l)
  {
    if l.Constant? && r.Constant? {
      FoldTyped(And, l, r);
    }
  }

  lemma OrCreateTyped(l: Expr, r: Expr)
    requires Matching(l, r)
    ensures Width(OrCreate(l, r)) == Width(l)
  {
    if l.Constant? && r.Constant? {
      FoldTyped(Or, l, r);
    }
  }

  lemma AndCreateLight(l: Expr, r: Expr)
    ensures Weight(AndCreate(l, r)) <= Weight(l) + Weight(r)
  {
  }

  lemma OrCreateLight(l: Expr, r: Expr)
    ensures Weight(OrCreate(l, r)) <= Weight(l) + Weight(r)
  {
  }

  lemma AndPartialSound(l: Expr, cr: Expr, a: Assignment)
    requires cr.Constant? && Matching(l, cr)
    ensures Eval(AndPartial(l, cr), a) == Bitwise(BitAnd, Width(l), Eval(l, a), cr.value)
  {
    EvalRange(l, a);
    BitwiseWithZero(cr.width, Eval(l, a));
    BitwiseWithOnes(cr.width, Eval(l, a));
  }

  lemma AndCreateSound(l: Expr, r: Expr, a: Assignment)
    requires Matching(l, r)
    ensures Eval(AndCreate(l, r), a) == Bitwise(BitAnd, Width(l), Eval(l, a), Eval(r, a))
  {
    if l.Constant? && !r.Constant? {
      BitwiseCommutes(BitAnd, Width(l), Eval(l, a), Eval(r, a));
      AndPartialSound(r, l, a);
    } else if r.Constant? && !l.Constant? {
      AndPartialSound(l, r, a);
    }
  }

  lemma OrPartialSound(l: Expr, cr: Expr, a: Assignment)
    requires cr.Constant? && Matching(l, cr)
    ensures Eval(OrPartial(l, cr), a) == Bitwise(BitOr, Width(l), Eval(l, a), cr.value)
  {
    EvalRange(l, a);
    BitwiseWithZero(cr.width, Eval(l, a));
    BitwiseWithOnes(cr.width, Eval(l, a));
  }

  lemma OrCreateSound(l: Expr, r: Expr, a: Assignment)
    requires Matching(l, r)
    ensures Eval(OrCreate(l, r), a) == Bitwise(BitOr, Width(l), Eval(l, a), Eval(r, a))
  {
    if l.Constant? && !r.Constant? {
      BitwiseCommutes(BitOr, Width(l), Eval(l, a), Eval(r, a));
      OrPartialSound(r, l, a);
    } else if r.Constant? && !l.Constant? {
      OrPartialSound(l, r, a);
    }
  }

  /** Both connectives on Booleans. */
  lemma BoolAndOr(l: Expr, r: Expr, a: Assignment)
    requires Matching(l, r) && Width(l) == BOOL
    ensures Eval(AndCreate(l, r), a) == FromBool(Eval(l, a) == 1 && Eval(r, a) == 1)
    ensures Eval(OrCreate(l, r), a) == FromBool(Eval(l, a) == 1 || Eval(r, a) == 1)
  {
    AndCreateSound(l, r, a);
    OrCreateSound(l, r, a);
    BoolRange(l, a);
    BoolRange(r, a);
    BitwiseOneBit(BitAnd, Eval(l, a), Eval(r, a));
    BitwiseOneBit(BitOr, Eval(l, a), Eval(r, a));
  }

  // --------------------------------------------------------------- equality

  function EqPlain(l: Expr, r: Expr): Expr {
    if l == r then TRUE else Binary(Eq, l, r)
  }

  function EqCreate(l: Expr, r: Expr): Expr
    decreases Size(l) + Size(r), 1
  {
    if l.Constant? then
      if r.Constant? then Fold(Eq, l, r) else EqPartialR(l, r)
    else if r.Constant? then EqPartialR(r, l)
    else EqPlain(l, r)
  }

  /** `cl == r` for a constant `cl`: double negation, De Morgan, equality through
      sign and zero extension, and constants moved across addition. */
  function EqPartialR(cl: Expr, r: Expr): Expr
    requires cl.Constant?
    decreases Size(cl) + Size(r), 0
  {
    if cl.width == BOOL then
      if cl.value == 1 then r
      else if r.Binary? && r.op == Eq && r.left == FALSE then r.right
      else if r.Binary? && r.op == Or then AndCreate(IsZero(r.left), IsZero(r.right))
      else EqPlain(cl, r)
    else if r.Unary? && r.unop.SExt? then
      var trunc := Const(cl.value, Width(r.kid));
      if cl.value == SignExtend(Width(r.kid), cl.width, trunc.value)
      then EqCreate(r.kid, trunc)
      else FALSE
    else if r.Unary? && r.unop.ZExt? then
      var trunc := Const(cl.value, Width(r.kid));
      if cl.value == trunc.value then EqCreate(r.kid, trunc) else FALSE
    else if r.Binary? && r.op == Add && r.left.Constant? then
      EqPartialR(Fold(Sub, cl, r.left), r.right)
    else if r.Binary? && r.op == Sub && r.left.Constant? then
      EqPartialR(Fold(Sub, r.left, cl), r.right)
    else EqPlain(cl, r)
  }

  function IsZero(e: Expr): Expr
    decreases Size(e) + 1, 2
  {
    EqCreate(e, Constant(0, Width(e)))
  }

  lemma {:induction false} EqCreateTyped(l: Expr, r: Expr)
    requires Matching(l, r)
    ensures Width(EqCreate(l, r)) == BOOL
    decreases Size(l) + Size(r), 1
  {
    if l.Constant? && r.Constant? {
      FoldTyped(Eq, l, r);
    } else if l.Constant? {
      EqPartialRTyped(l, r);
    } else if r.Constant? {
      EqPartialRTyped(r, l);
    } else {
      BoolConstants();
    }
  }

  lemma {:induction false} EqPartialRTyped(cl: Expr, r: Expr)
    requires cl.Constant? && Matching(cl, r)
    ensures Width(EqPartialR(cl, r)) == BOOL
    decreases Size(cl) + Size(r), 0
  {
    BoolConstants();
    if cl.width == BOOL {
      if r.Binary? && r.op == Or {
        IsZeroTyped(r.left);
        IsZeroTyped(r.right);
        AndCreateTyped(IsZero(r.left), IsZero(r.right));
      }
    } else if r.Unary? && (r.unop.SExt? || r.unop.ZExt?) {
      EqCreateTyped(r.kid, Const(cl.value, Width(r.kid)));
    } else if r.Binary? && r.op == Add && r.left.Constant? {
      FoldTyped(Sub, cl, r.left);
      EqPartialRTyped(Fold(Sub, cl, r.left), r.right);
    } else if r.Binary? && r.op == Sub && r.left.Constant? {
      FoldTyped(Sub, r.left, cl);
      EqPartialRTyped(Fold(Sub, r.left, cl), r.right);
    }
  }

  lemma {:induction false} IsZeroTyped(e: Expr)
    requires Width(e) > 0
    ensures Width(IsZero(e)) == BOOL
    decreases Size(e) + 1, 2
  {
    EqCreateTyped(e, Constant(0, Width(e)));
  }

  lemma {:induction false} EqCreateLight(l: Expr, r: Expr)
    ensures Weight(EqCreate(l, r)) <= Weight(l) + Weight(r)
    decreases Size(l) + Size(r), 1
  {
    if l.Constant? && !r.Constant? {
      EqPartialRLight(l, r);
    } else if r.Constant? && !l.Constant? {
      EqPartialRLight(r, l);
    }
  }

  lemma {:induction false} EqPartialRLight(cl: Expr, r: Expr)
    requires cl.Constant?
    ensures Weight(EqPartialR(cl, r)) <= AtLeastOne(Weight(r))
    decreases Size(cl) + Size(r), 0
  {
    if cl.width == BOOL {
      if r.Binary? && r.op == Or {
        IsZeroLight(r.left);
        IsZeroLight(r.right);
        AndCreateLight(IsZero(r.left), IsZero(r.right));
      }
    } else if r.Unary? && (r.unop.SExt? || r.unop.ZExt?) {
      EqCreateLight(r.kid, Const(cl.value, Width(r.kid)));
    } else if r.Binary? && r.op == Add && r.left.Constant? {
      EqPartialRLight(Fold(Sub, cl, r.left), r.right);
    } else if r.Binary? && r.op == Sub && r.left.Constant? {
      EqPartialRLight(Fold(Sub, r.left, cl), r.right);
    }
  }

  lemma {:induction false} IsZeroLight(e: Expr)
    ensures Weight(IsZero(e)) <= Weight(e)
    decreases Size(e) + 1, 2
  {
    EqCreateLight(e, Constant(0, Width(e)));
  }

  lemma {:induction false} EqCreateSound(l: Expr, r: Expr, a: Assignment)
    requires Matching(l, r)
    ensures Eval(EqCreate(l, r), a) == FromBool(Eval(l, a) == Eval(r, a))
    decreases Size(l) + Size(r), 2
  {
    if l.Constant? && !r.Constant? {
      EqPartialRSound(l, r, a);
    } else if r.Constant? && !l.Constant? {
      EqPartialRSound(r, l, a);
    }
  }

  lemma {:induction false} EqPartialRSound(cl: Expr, r: Expr, a: Assignment)
    requires cl.Constant? && Matching(cl, r)
    ensures Eval(EqPartialR(cl, r), a) == FromBool(cl.value == Eval(r, a))
    decreases Size(cl) + Size(r), 1
  {
    if cl.width == BOOL {
      BoolConstants();
      BoolRange(r, a);
      if cl.value == 0 && r.Binary? && r.op == Or {
        EqZeroOrSound(r, a);
      } else if cl.value == 0 && r.Binary? && r.op == Eq && r.left == FALSE {
        BoolRange(r.right, a);
      }
    } else if r.Unary? && (r.unop.SExt? || r.unop.ZExt?) {
      EqThroughExtendSound(cl, r, a);
    } else if r.Binary? && (r.op == Add || r.op == Sub) && r.left.Constant? {
      EqThroughLinearSound(cl, r, a);
    }
  }

  /** not (x or y) is (not x) and (not y). */
  lemma {:induction false} EqZeroOrSound(r: Expr, a: Assignment)
    requires r.Binary? && r.op == Or && Width(r) == BOOL
    ensures Eval(EqPartialR(FALSE, r), a) == FromBool(Eval(r, a) == 0)
    decreases 1 + Size(r), 0
  {
    IsZeroTyped(r.left);
    IsZeroTyped(r.right);
    IsZeroSound(r.left, a);
    IsZeroSound(r.right, a);
    BoolAndOr(IsZero(r.left), IsZero(r.right), a);
    BoolRange(r.left, a);
    BoolRange(r.right, a);
    BitwiseOneBit(BitOr, Eval(r.left, a), Eval(r.right, a));
  }

  /** An extension equals a constant exactly when that constant is the extension
      of its own truncation and the source equals the truncation. */
  lemma {:induction false} EqThroughExtendSound(cl: Expr, r: Expr, a: Assignment)
    requires cl.Constant? && Matching(cl, r) && cl.width != BOOL
    requires r.Unary? && (r.unop.SExt? || r.unop.ZExt?)
    ensures Eval(EqPartialR(cl, r), a) == FromBool(cl.value == Eval(r, a))
    decreases Size(cl) + Size(r), 0
  {
    var from, x := Width(r.kid), Eval(r.kid, a);
    EvalRange(r.kid, a);
    EqCreateSound(r.kid, Const(cl.value, from), a);
    if r.unop.SExt? {
      SignExtendTruncates(from, cl.width, x);
    } else {
      WrapId(from, x);
    }
  }

  /** A constant moves across an addition or subtraction. */
  lemma {:induction false} EqThroughLinearSound(cl: Expr, r: Expr, a: Assignment)
    requires cl.Constant? && Matching(cl, r) && cl.width != BOOL
    requires r.Binary? && (r.op == Add || r.op == Sub) && r.left.Constant?
    ensures Eval(EqPartialR(cl, r), a) == FromBool(cl.value == Eval(r, a))
    decreases Size(cl) + Size(r), 0
  {
    EvalRange(r.right, a);
    if r.op == Add {
      var c := Fold(Sub, cl, r.left);
      FoldTyped(Sub, cl, r.left);
      EqPartialRSound(c, r.right, a);
      MoveAcrossAdd(cl.width, cl.value, r.left.value, Eval(r.right, a));
    } else {
      var c := Fold(Sub, r.left, cl);
      FoldTyped(Sub, r.left, cl);
      EqPartialRSound(c, r.right, a);
      MoveAcrossSub(cl.width, cl.value, r.left.value, Eval(r.right, a));
    }
  }

  lemma {:induction false} IsZeroSound(e: Expr, a: Assignment)
    requires Width(e) > 0
    ensures Eval(IsZero(e), a) == FromBool(Eval(e, a) == 0)
    decreases Size(e) + 1, 3
  {
    EqCreateSound(e, Constant(0, Width(e)), a);
  }

  lemma MoveAcrossAdd(w: nat, c0: nat, c1: nat, b: nat)
    requires c0 < Pow2(w) && b < Pow2(w)
    ensures Wrap(w, c0 - c1) == b <==> c0 == Wrap(w, c1 + b)
  {
    WrapAdd(w, c0 - c1, c1);
    WrapId(w, c0);
    WrapSub(w, c1 + b, c1);
    WrapId(w, b);
  }

  lemma MoveAcrossSub(w: nat, c0: nat, c1: nat, b: nat)
    requires c0 < Pow2(w) && b < Pow2(w)
    ensures Wrap(w, c1 - c0) == b <==> c0 == Wrap(w, c1 - b)
  {
    WrapSub(w, c1 - c0, c1);
    WrapId(w, c0);
    WrapSub(w, c1 - b, c1);
    WrapId(w, b);
  }

  // -------------------------------------------------------------------- xor

  function XorPartialR(cl: Expr, r: Expr): Expr
    requires cl.Constant?
  {
    if cl.value == 0 then r
    else if cl.width == BOOL then EqPartialR(FALSE, r)
    else Binary(Xor, cl, r)
  }

  function XorCreate(l: Expr, r: Expr): Expr {
    if l.Constant? && r.Constant? then Fold(Xor, l, r)
    else if l.Constant? then XorPartialR(l, r)
    else if r.Constant? then XorPartialR(r, l)
    else Binary(Xor, l, r)
  }

  lemma XorPartialRTyped(cl: Expr, r: Expr)
    requires cl.Constant? && Matching(cl, r)
    ensures Width(XorPartialR(cl, r)) == Width(r)
  {
    BoolConstants();
    if cl.width == BOOL {
      EqPartialRTyped(FALSE, r);
    }
  }

  lemma XorCreateTyped(l: Expr, r: Expr)
    requires Matching(l, r)
    ensures Width(XorCreate(l, r)) == Width(l)
  {
    if l.Constant? && r.Constant? {
      FoldTyped(Xor, l, r);
    } else if l.Constant? {
      XorPartialRTyped(l, r);
    } else if r.Constant? {
      XorPartialRTyped(r, l);
    }
  }

  lemma XorPartialRLight(cl: Expr, r: Expr)
    requires cl.Constant?
    ensures Weight(XorPartialR(cl, r)) <= AtLeastOne(Weight(r))
  {
    EqPartialRLight(FALSE, r);
  }

  lemma XorCreateLight(l: Expr, r: Expr)
    ensures Weight(XorCreate(l, r)) <= Weight(l) + Weight(r)
  {
    if l.Constant? && !r.Constant? {
      XorPartialRLight(l, r);
    } else if r.Constant? && !l.Constant? {
      XorPartialRLight(r, l);
    }
  }

  /** Exclusive or with `true` is negation. */
  lemma XorTrue(x: nat)
    requires x < 2
    ensures Bitwise(BitXor, BOOL, 1, x) == FromBool(x == 0)
  {
    BitwiseOneBit(BitXor, 1, x);
  }

  lemma XorZero(w: nat, x: nat)
    requires x < Pow2(w)
    ensures Bitwise(BitXor, w, 0, x) == x
  {
    BitwiseCommutes(BitXor, w, 0, x);
    BitwiseWithZero(w, x);
  }

  lemma XorNegates(cl: Expr, r: Expr, a: Assignment)
    requires cl.Constant? && Width(cl) == Width(r) == BOOL && cl.value != 0
    ensures Eval(XorPartialR(cl, r), a) == FromBool(Eval(r, a) == 0)
  {
    BoolConstants();
    EqPartialRSound(FALSE, r, a);
  }

  lemma XorPartialRSound(cl: Expr, r: Expr, a: Assignment)
    requires cl.Constant? && Matching(cl, r)
    ensures Eval(XorPartialR(cl, r), a) == Bitwise(BitXor, Width(r), cl.value, Eval(r, a))
  {
    var e, x := XorPartialR(cl, r), Eval(r, a);
    if cl.value == 0 {
      EvalRange(r, a);
      XorZero(cl.width, x);
    } else if cl.width == BOOL {
      BoolRange(cl, a);
      BoolRange(r, a);
      XorNegates(cl, r, a);
      XorTrue(x);
    } else {
      assert e == Binary(Xor, cl, r);
    }
  }

  lemma XorCreateSound(l: Expr, r: Expr, a: Assignment)
    requires Matching(l, r)
    ensures Eval(XorCreate(l, r), a) == Bitwise(BitXor, Width(l), Eval(l, a), Eval(r, a))
  {
    if l.Constant? && !r.Constant? {
      XorPartialRSound(l, r, a);
    } else if r.Constant? && !l.Constant? {
      BitwiseCommutes(BitXor, Width(l), Eval(l, a), Eval(r, a));
      XorPartialRSound(r, l, a);
    }
  }

  // -------------------------------------------------------------- orderings

  /** The four orderings that survive canonicalisation. */
  predicate IsOrder(op: BinOp) {
    op.Ult? || op.Ule? || op.Slt? || op.Sle?
  }

  function BoolOrder(op: BinOp, l: Expr, r: Expr): Expr
    requires IsOrder(op)
  {
    match op
    case Ult => AndCreate(IsZero(l), r)
    case Ule => OrCreate(IsZero(l), r)
    case Slt => AndCreate(l, IsZero(r))
    case Sle => OrCreate(l, IsZero(r))
  }

  function OrderCreate(op: BinOp, l: Expr, r: Expr): Expr
    requires IsOrder(op)
  {
    if l.Constant? && r.Constant? then Fold(op, l, r)
    else if Width(l) == BOOL then BoolOrder(op, l, r)
    else Binary(op, l, r)
  }

  /** The ordering with its operands exchanged. */
  function Mirror(op: BinOp): BinOp {
    match op
    case Ugt => Ult
    case Uge => Ule
    case Sgt => Slt
    case Sge => Sle
    case _ => op
  }

  function CompareCreate(op: BinOp, l: Expr, r: Expr): Expr
    requires IsCompare(op)
  {
    if op.Eq? then EqCreate(l, r)
    else if op.Ne? then EqCreate(FALSE, EqCreate(l, r))
    else if IsOrder(op) then OrderCreate(op, l, r)
    else OrderCreate(Mirror(op), r, l)
  }

  lemma BoolOrderTyped(op: BinOp, l: Expr, r: Expr)
    requires IsOrder(op) && Width(l) == Width(r) == BOOL
    ensures Width(BoolOrder(op, l, r)) == BOOL
  {
    match op
    case Ult => IsZeroTyped(l); AndCreateTyped(IsZero(l), r);
    case Ule => IsZeroTyped(l); OrCreateTyped(IsZero(l), r);
    case Slt => IsZeroTyped(r); AndCreateTyped(l, IsZero(r));
    case Sle => IsZeroTyped(r); OrCreateTyped(l, IsZero(r));
  }

  lemma BoolOrderLight(op: BinOp, l: Expr, r: Expr)
    requires IsOrder(op)
    ensures Weight(BoolOrder(op, l, r)) <= Weight(l) + Weight(r)
  {
    match op
    case Ult => IsZeroLight(l); AndCreateLight(IsZero(l), r);
    case Ule => IsZeroLight(l); OrCreateLight(IsZero(l), r);
    case Slt => IsZeroLight(r); AndCreateLight(l, IsZero(r));
    case Sle => IsZeroLight(r); OrCreateLight(l, IsZero(r));
  }

  lemma OrderCreateTyped(op: BinOp, l: Expr, r: Expr)
    requires IsOrder(op) && Matching(l, r)
    ensures Width(OrderCreate(op, l, r)) == BOOL
  {
    if l.Constant? && r.Constant? {
      FoldTyped(op, l, r);
    } else if Width(l) == BOOL {
      BoolOrderTyped(op, l, r);
    }
  }

  lemma OrderCreateLight(op: BinOp, l: Expr, r: Expr)
    requires IsOrder(op)
    ensures Weight(OrderCreate(op, l, r)) <= Weight(l) + Weight(r)
  {
    BoolOrderLight(op, l, r);
  }

  lemma UnsignedBoolOrderSound(op: BinOp, l: Expr, r: Expr, a: Assignment)
    requires (op.Ult? || op.Ule?) && Matching(l, r) && Width(l) == BOOL
    ensures Eval(BoolOrder(op, l, r), a) == FromBool(Compares(op, BOOL, Eval(l, a), Eval(r, a)))
  {
    BoolRange(l, a);
    BoolRange(r, a);
    IsZeroTyped(l);
    IsZeroSound(l, a);
    BoolAndOr(IsZero(l), r, a);
  }

  lemma SignedBoolOrderSound(op: BinOp, l: Expr, r: Expr, a: Assignment)
    requires (op.Slt? || op.Sle?) && Matching(l, r) && Width(l) == BOOL
    ensures Eval(BoolOrder(op, l, r), a) == FromBool(Compares(op, BOOL, Eval(l, a), Eval(r, a)))
  {
    BoolConstants();
    BoolRange(l, a);
    BoolRange(r, a);
    IsZeroTyped(r);
    IsZeroSound(r, a);
    BoolAndOr(l, IsZero(r), a);
  }

  lemma OrderCreateSound(op: BinOp, l: Expr, r: Expr, a: Assignment)
    requires IsOrder(op) && Matching(l, r)
    ensures Eval(OrderCreate(op, l, r), a) == FromBool(Compares(op, Width(l), Eval(l, a), Eval(r, a)))
  {
    if l.Constant? && r.Constant? {
    } else if Width(l) == BOOL {
      if op.Ult? || op.Ule? {
        UnsignedBoolOrderSound(op, l, r, a);
      } else {
        SignedBoolOrderSound(op, l, r, a);
      }
    }
  }

  lemma CompareCreateTyped(op: BinOp, l: Expr, r: Expr)
    requires IsCompare(op) && Matching(l, r)
    ensures Width(CompareCreate(op, l, r)) == BOOL
  {
    if op.Eq? {
      EqCreateTyped(l, r);
    } else if op.Ne? {
      BoolConstants();
      EqCreateTyped(l, r);
      EqCreateTyped(FALSE, EqCreate(l, r));
    } else if IsOrder(op) {
      OrderCreateTyped(op, l, r);
    } else {
      OrderCreateTyped(Mirror(op), r, l);
    }
  }

  lemma CompareCreateLight(op: BinOp, l: Expr, r: Expr)
    requires IsCompare(op)
    ensures Weight(CompareCreate(op, l, r)) <= Weight(l) + Weight(r)
  {
    if op.Eq? {
      EqCreateLight(l, r);
    } else if op.Ne? {
      EqCreateLight(l, r);
      EqCreateLight(FALSE, EqCreate(l, r));
    } else if IsOrder(op) {
      OrderCreateLight(op, l, r);
    } else {
      OrderCreateLight(Mirror(op), r, l);
    }
  }

  lemma NeCreateSound(l: Expr, r: Expr, a: Assignment)
    requires Matching(l, r)
    ensures Eval(CompareCreate(Ne, l, r), a) == FromBool(Eval(l, a) != Eval(r, a))
  {
    var e := EqCreate(l, r);
    BoolConstants();
    EqCreateTyped(l, r);
    EqCreateSound(l, r, a);
    EqCreateSound(FALSE, e, a);
  }

  lemma MirrorCompares(op: BinOp, w: nat, x: nat, y: nat)
    requires IsCompare(op) && !op.Eq? && !op.Ne? && !IsOrder(op)
    ensures IsOrder(Mirror(op)) && Compares(Mirror(op), w, y, x) == Compares(op, w, x, y)
  {
  }

  lemma CompareCreateSound(op: BinOp, l: Expr, r: Expr, a: Assignment)
    requires IsCompare(op) && Matching(l, r)
    ensures Eval(CompareCreate(op, l, r), a) == FromBool(Compares(op, Width(l), Eval(l, a), Eval(r, a)))
  {
    if op.Eq? {
      EqCreateSound(l, r, a);
    } else if op.Ne? {
      NeCreateSound(l, r, a);
    } else if IsOrder(op) {
      OrderCreateSound(op, l, r, a);
    } else {
      MirrorCompares(op, Width(l), Eval(l, a), Eval(r, a));
      OrderCreateSound(Mirror(op), r, l, a);
    }
  }

  // ----------------------------------------------------------------- select

  function SelectCreate(c: Expr, t: Expr, f: Expr): Expr {
    if c.Constant? then (if c.value == 1 then t else f)
    else if t == f then t
    else if Width(t) == BOOL && t.Constant? then SelectTrueArm(c, t, f)
    else if Width(t) == BOOL && f.Constant? then SelectFalseArm(c, t, f)
    else Select(c, t, f)
  }

  /** A Boolean choice with a constant first arm is a disjunction or conjunction. */
  function SelectTrueArm(c: Expr, t: Expr, f: Expr): Expr
    requires t.Constant?
  {
    if t.value == 1 then OrCreate(c, f) else AndCreate(IsZero(c), f)
  }

  function SelectFalseArm(c: Expr, t: Expr, f: Expr): Expr
    requires f.Constant?
  {
    if f.value == 1 then OrCreate(IsZero(c), t) else AndCreate(c, t)
  }

  /** What `SelectCreate` demands of its operands. */
  predicate Selectable(c: Expr, t: Expr, f: Expr) {
    Width(c) == BOOL && Matching(t, f)
  }

  lemma SelectTrueArmTyped(c: Expr, t: Expr, f: Expr)
    requires Width(c) == Width(f) == BOOL && t.Constant?
    ensures Width(SelectTrueArm(c, t, f)) == BOOL
  {
    OrCreateTyped(c, f);
    IsZeroTyped(c);
    AndCreateTyped(IsZero(c), f);
  }

  lemma SelectFalseArmTyped(c: Expr, t: Expr, f: Expr)
    requires Width(c) == Width(t) == BOOL && f.Constant?
    ensures Width(SelectFalseArm(c, t, f)) == BOOL
  {
    AndCreateTyped(c, t);
    IsZeroTyped(c);
    OrCreateTyped(IsZero(c), t);
  }

  lemma SelectCreateTyped(c: Expr, t: Expr, f: Expr)
    requires Selectable(c, t, f)
    ensures Width(SelectCreate(c, t, f)) == Width(t)
  {
    hide SelectTrueArm, SelectFalseArm, Pow2;
    if Width(t) == BOOL {
      if t.Constant? {
        SelectTrueArmTyped(c, t, f);
      } else if f.Constant? {
        SelectFalseArmTyped(c, t, f);
      }
    }
  }

  lemma SelectTrueArmLight(c: Expr, t: Expr, f: Expr)
    requires t.Constant?
    ensures Weight(SelectTrueArm(c, t, f)) <= Weight(c) + Weight(f)
  {
    OrCreateLight(c, f);
    IsZeroLight(c);
    AndCreateLight(IsZero(c), f);
  }

  lemma SelectFalseArmLight(c: Expr, t: Expr, f: Expr)
    requires f.Constant?
    ensures Weight(SelectFalseArm(c, t, f)) <= Weight(c) + Weight(t)
  {
    AndCreateLight(c, t);
    IsZeroLight(c);
    OrCreateLight(IsZero(c), t);
  }

  lemma SelectCreateLight(c: Expr, t: Expr, f: Expr)
    ensures Weight(SelectCreate(c, t, f)) <= Weight(c) + Weight(t) + Weight(f)
  {
    hide Width, SelectTrueArm, SelectFalseArm, Pow2;
    if t.Constant? {
      SelectTrueArmLight(c, t, f);
    } else if f.Constant? {
      SelectFalseArmLight(c, t, f);
    }
  }

  lemma SelectTrueArmSound(c: Expr, t: Expr, f: Expr, a: Assignment)
    requires Width(c) == Width(t) == Width(f) == BOOL && t.Constant?
    ensures Eval(SelectTrueArm(c, t, f), a) == if Eval(c, a) == 1 then t.value else Eval(f, a)
  {
    BoolRange(c, a);
    BoolRange(t, a);
    BoolRange(f, a);
    if t.value == 1 {
      BoolAndOr(c, f, a);
    } else {
      IsZeroTyped(c);
      IsZeroSound(c, a);
      BoolAndOr(IsZero(c), f, a);
    }
  }

  lemma SelectFalseArmSound(c: Expr, t: Expr, f: Expr, a: Assignment)
    requires Width(c) == Width(t) == Width(f) == BOOL && f.Constant?
    ensures Eval(SelectFalseArm(c, t, f), a) == if Eval(c, a) == 1 then Eval(t, a) else f.value
  {
    BoolRange(c, a);
    BoolRange(t, a);
    BoolRange(f, a);
    if f.value == 1 {
      IsZeroTyped(c);
      IsZeroSound(c, a);
      BoolAndOr(IsZero(c), t, a);
    } else {
      BoolAndOr(c, t, a);
    }
  }

  lemma SelectCreateSound(c: Expr, t: Expr, f: Expr, a: Assignment)
    requires Selectable(c, t, f)
    ensures Eval(SelectCreate(c, t, f), a) == if Eval(c, a) == 1 then Eval(t, a) else Eval(f, a)
  {
    hide SelectTrueArm, SelectFalseArm, Pow2;
    if Width(t) == BOOL {
      if t.Constant? {
        SelectTrueArmSound(c, t, f, a);
      } else if f.Constant? {
        SelectFalseArmSound(c, t, f, a);
      }
    }
  }
}
