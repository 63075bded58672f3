/**
 The remaining constructors, reads over update lists, and the dispatch that
 rebuilds a node from new operands.
 */
module Constructors {
  import opened Bits
  import opened Exprs
  import opened LogicConstructors
  import opened LinearConstructors
  import opened SliceConstructors

  // ------------------------------------------- multiplication, division, shifts

  function MulPartialR(cl: Expr, r: Expr): Expr
    requires cl.Constant?
  {
    if cl.width == BOOL then AndPartial(r, cl)
    else if cl.value == 1 then r
    else if cl.value == 0 then cl
    else Binary(Mul, cl, r)
  }

  function MulCreate(l: Expr, r: Expr): Expr {
    if l.Constant? && r.Constant? then Fold(Mul, l, r)
    else if l.Constant? then MulPartialR(l, r)
    else if r.Constant? then MulPartialR(r, l)
    else if Width(l) == BOOL then Binary(And, l, r)
    else Binary(Mul, l, r)
  }

  /** Division, remainder and the shifts: no rewriting except on Booleans. */
  predicate IsPlain(op: BinOp) {
    op.UDiv? || op.SDiv? || op.URem? || op.SRem? || op.Shl? || op.LShr? || op.AShr?
  }

  function PlainCreate(op: BinOp, l: Expr, r: Expr): Expr
    requires IsPlain(op)
  {
    if l.Constant? && r.Constant? then Fold(op, l, r)
    else if Width(l) == BOOL then PlainBool(op, l, r)
    else Binary(op, l, r)
  }

  /** On Booleans a divisor must be 1, and a shift by 1 clears the operand. */
  function PlainBool(op: BinOp, l: Expr, r: Expr): Expr
    requires IsPlain(op)
  {
    if op.UDiv? || op.SDiv? || op.AShr? then l
    else if op.URem? || op.SRem? then FALSE
    else AndCreate(l, IsZero(r))
  }

  lemma MulPartialRTyped(cl: Expr, r: Expr)
    requires cl.Constant? && Matching(cl, r)
    ensures Width(MulPartialR(cl, r)) == Width(r)
  {
  }

  lemma MulCreateTyped(l: Expr, r: Expr)
    requires Matching(l, r)
    ensures Width(MulCreate(l, r)) == Width(l)
  {
    hide Pow2, MulPartialR;
    if l.Constant? && r.Constant? {
      FoldTyped(Mul, l, r);
    } else if l.Constant? {
      MulPartialRTyped(l, r);
    } else if r.Constant? {
      MulPartialRTyped(r, l);
    }
  }

  lemma MulCreateLight(l: Expr, r: Expr)
    ensures Weight(MulCreate(l, r)) <= Weight(l) + Weight(r)
  {
  }

  lemma MulCommutes(w: nat, x: nat, y: nat)
    ensures MulBits(w, x, y) == MulBits(w, y, x)
  {
  }

  lemma MulOneZero(w: nat, x: nat)
    requires x < Pow2(w)
    ensures MulBits(w, 1, x) == x && MulBits(w, 0, x) == 0
  {
    WrapId(w, x);
    WrapId(w, 0);
  }

  lemma BoolMul(x: nat, y: nat)
    requires x < 2 && y < 2
    ensures MulBits(BOOL, x, y) == Bitwise(BitAnd, BOOL, y, x) == Bitwise(BitAnd, BOOL, x, y)
  {
    BitwiseOneBit(BitAnd, x, y);
    BitwiseOneBit(BitAnd, y, x);
  }

  lemma MulPartialRSound(cl: Expr, r: Expr, a: Assignment)
    requires cl.Constant? && Matching(cl, r)
    ensures Eval(MulPartialR(cl, r), a) == MulBits(Width(r), cl.value, Eval(r, a))
  {
    hide MulBits, Pow2, Bitwise, AndPartial;
    EvalRange(r, a);
    if cl.width == BOOL {
      BoolRange(cl, a);
      BoolRange(r, a);
      AndPartialSound(r, cl, a);
      BoolMul(cl.value, Eval(r, a));
    } else {
      MulOneZero(cl.width, Eval(r, a));
    }
  }

  lemma MulCreateSound(l: Expr, r: Expr, a: Assignment)
    requires Matching(l, r)
    ensures Eval(MulCreate(l, r), a) == MulBits(Width(l), Eval(l, a), Eval(r, a))
  {
    hide MulBits, Pow2, Bitwise, MulPartialR;
    if l.Constant? && !r.Constant? {
      MulPartialRSound(l, r, a);
    } else if r.Constant? && !l.Constant? {
      MulPartialRSound(r, l, a);
      MulCommutes(Width(l), Eval(l, a), r.value);
    } else if !l.Constant? && Width(l) == BOOL {
      BoolRange(l, a);
      BoolRange(r, a);
      BoolMul(Eval(l, a), Eval(r, a));
    }
  }

  lemma PlainBoolTyped(op: BinOp, l: Expr, r: Expr)
    requires IsPlain(op) && Width(l) == Width(r) == BOOL
    ensures Width(PlainBool(op, l, r)) == BOOL
  {
    hide Pow2, AndCreate, IsZero;
    BoolConstants();
    IsZeroTyped(r);
    AndCreateTyped(l, IsZero(r));
  }

  lemma PlainCreateTyped(op: BinOp, l: Expr, r: Expr)
    requires IsPlain(op) && Matching(l, r)
    ensures Width(PlainCreate(op, l, r)) == Width(l)
  {
    hide Pow2, PlainBool;
    if l.Constant? && r.Constant? {
      FoldTyped(op, l, r);
    } else if Width(l) == BOOL {
      PlainBoolTyped(op, l, r);
    }
  }

  lemma PlainBoolLight(op: BinOp, l: Expr, r: Expr)
    requires IsPlain(op)
    ensures Weight(PlainBool(op, l, r)) <= Weight(l) + Weight(r)
  {
    hide Pow2, AndCreate, IsZero, EvalBin, Width;
    IsZeroLight(r);
    AndCreateLight(l, IsZero(r));
  }

  lemma PlainCreateLight(op: BinOp, l: Expr, r: Expr)
    requires IsPlain(op)
    ensures Weight(PlainCreate(op, l, r)) <= Weight(l) + Weight(r)
  {
    hide Pow2, PlainBool, EvalBin, Width;
    PlainBoolLight(op, l, r);
  }

  lemma BoolDivision(x: nat, y: nat)
    requires x < 2 && y < 2
    ensures Wrap(BOOL, TruncDiv(x, y)) == x && Wrap(BOOL, TruncRem(x, y)) == 0
    ensures Wrap(BOOL, TruncDiv(Signed(BOOL, x), Signed(BOOL, y))) == x
    ensures Wrap(BOOL, TruncRem(Signed(BOOL, x), Signed(BOOL, y))) == 0
  {
    assert Pow2(1) == 2;
  }

  lemma BoolShift(x: nat, y: nat)
    requires x < 2 && y < 2
    ensures ShlBits(BOOL, x, y) == Wrap(BOOL, ShiftRight(x, y)) == FromBool(x == 1 && y == 0)
    ensures AShrBits(BOOL, x, y) == x
  {
    assert Pow2(0) == 1 && Pow2(1) == 2;
  }

  lemma PlainBoolValue(op: BinOp, x: nat, y: nat)
    requires IsPlain(op) && x < 2 && y < 2
    ensures EvalBin(op, BOOL, BOOL, x, y)
         == if op.UDiv? || op.SDiv? || op.AShr? then x
            else if op.URem? || op.SRem? then 0
            else FromBool(x == 1 && y == 0)
  {
    hide Pow2, Wrap, TruncDiv, TruncRem, Signed, ShiftRight, ShlBits, AShrBits;
    BoolDivision(x, y);
    BoolShift(x, y);
  }

  lemma PlainBoolSound(op: BinOp, l: Expr, r: Expr, a: Assignment)
    requires IsPlain(op) && Width(l) == Width(r) == BOOL
    ensures Eval(PlainBool(op, l, r), a) == EvalBin(op, BOOL, BOOL, Eval(l, a), Eval(r, a))
  {
    hide EvalBin, AndCreate, IsZero, Width;
    BoolRange(l, a);
    BoolRange(r, a);
    PlainBoolValue(op, Eval(l, a), Eval(r, a));
    if op.Shl? || op.LShr? {
      IsZeroTyped(r);
      IsZeroSound(r, a);
      BoolAndOr(l, IsZero(r), a);
    }
  }

  lemma PlainCreateSound(op: BinOp, l: Expr, r: Expr, a: Assignment)
    requires IsPlain(op) && Matching(l, r)
    ensures Eval(PlainCreate(op, l, r), a)
         == EvalBin(op, Width(l), Width(r), Eval(l, a), Eval(r, a))
  {
    hide Pow2, EvalBin, PlainBool;
    if l.Constant? && r.Constant? {
    } else if Width(l) == BOOL {
      PlainBoolSound(op, l, r, a);
    }
  }

  // ------------------------------------------------------------ binary dispatch

  function BinCreate(op: BinOp, l: Expr, r: Expr): Expr
    requires BinWidth(op, Width(l), Width(r)) > 0
  {
    if op.Concat? then ConcatCreate(l, r)
    else if op.Add? then AddCreate(l, r)
    else if op.Sub? then SubCreate(l, r)
    else if op.Mul? then MulCreate(l, r)
    else BinCreateRest(op, l, r)
  }

  function BinCreateRest(op: BinOp, l: Expr, r: Expr): Expr
    requires Matching(l, r) && !op.Concat? && !op.Add? && !op.Sub? && !op.Mul?
  {
    if op.And? then AndCreate(l, r)
    else if op.Or? then OrCreate(l, r)
    else if op.Xor? then XorCreate(l, r)
    else if IsPlain(op) then PlainCreate(op, l, r)
    else CompareCreate(op, l, r)
  }

  lemma BinCreateRestTyped(op: BinOp, l: Expr, r: Expr)
    requires Matching(l, r) && !op.Concat? && !op.Add? && !op.Sub? && !op.Mul?
    ensures Width(BinCreateRest(op, l, r)) == BinWidth(op, Width(l), Width(r))
  {
    hide Width, AndCreate, OrCreate, XorCreate, PlainCreate, CompareCreate;
    if op.And? {
      AndCreateTyped(l, r);
    } else if op.Or? {
      OrCreateTyped(l, r);
    } else if op.Xor? {
      XorCreateTyped(l, r);
    } else if IsPlain(op) {
      PlainCreateTyped(op, l, r);
    } else {
      CompareCreateTyped(op, l, r);
    }
  }

  lemma BinCreateTyped(op: BinOp, l: Expr, r: Expr)
    requires BinWidth(op, Width(l), Width(r)) > 0
    ensures Width(BinCreate(op, l, r)) == BinWidth(op, Width(l), Width(r))
  {
    hide Width, ConcatCreate, AddCreate, SubCreate, MulCreate, BinCreateRest;
    if op.Mul? {
      MulCreateTyped(l, r);
    } else if !op.Concat? && !op.Add? && !op.Sub? {
      BinCreateRestTyped(op, l, r);
    }
  }

  lemma BinCreateRestLight(op: BinOp, l: Expr, r: Expr)
    requires Matching(l, r) && !op.Concat? && !op.Add? && !op.Sub? && !op.Mul?
    ensures Weight(BinCreateRest(op, l, r)) <= Weight(l) + Weight(r)
  {
    hide Width, Weight, AndCreate, OrCreate, XorCreate, PlainCreate, CompareCreate;
    if op.And? {
      AndCreateLight(l, r);
    } else if op.Or? {
      OrCreateLight(l, r);
    } else if op.Xor? {
      XorCreateLight(l, r);
    } else if IsPlain(op) {
      PlainCreateLight(op, l, r);
    } else {
      CompareCreateLight(op, l, r);
    }
  }

  lemma BinCreateLight(op: BinOp, l: Expr, r: Expr)
    requires BinWidth(op, Width(l), Width(r)) > 0
    ensures Weight(BinCreate(op, l, r)) <= Weight(l) + Weight(r)
  {
    hide Width, Weight, ConcatCreate, AddCreate, SubCreate, MulCreate, BinCreateRest;
    if op.Concat? {
      ConcatCreateLight(l, r);
    } else if op.Add? {
      AddCreateLight(l, r);
    } else if op.Sub? {
      SubCreateLight(l, r);
    } else if op.Mul? {
      MulCreateLight(l, r);
    } else {
      BinCreateRestLight(op, l, r);
    }
  }

  lemma BinCreateRestSound(op: BinOp, l: Expr, r: Expr, a: Assignment)
    requires Matching(l, r) && !op.Concat? && !op.Add? && !op.Sub? && !op.Mul?
    ensures Eval(BinCreateRest(op, l, r), a)
         == EvalBin(op, Width(l), Width(r), Eval(l, a), Eval(r, a))
  {
    hide Width, Eval, Bitwise, Wrap, Pow2, AndCreate, OrCreate, XorCreate, PlainCreate, CompareCreate;
    if op.And? {
      AndCreateSound(l, r, a);
    } else if op.Or? {
      OrCreateSound(l, r, a);
    } else if op.Xor? {
      XorCreateSound(l, r, a);
    } else if IsPlain(op) {
      PlainCreateSound(op, l, r, a);
    } else {
      CompareCreateSound(op, l, r, a);
    }
  }

  /** Every binary constructor builds an expression that evaluates, under every
      assignment, to the plain operator applied to its operands. */
  lemma BinCreateSound(op: BinOp, l: Expr, r: Expr, a: Assignment)
    requires BinWidth(op, Width(l), Width(r)) > 0
    ensures Eval(BinCreate(op, l, r), a)
         == EvalBin(op, Width(l), Width(r), Eval(l, a), Eval(r, a))
  {
    hide Width, Eval, Wrap, Pow2, MulBits, ConcatBits, ConcatCreate, AddCreate, SubCreate, MulCreate, BinCreateRest;
    if op.Concat? {
      ConcatCreateSound(l, r, a);
    } else if op.Add? {
      AddCreateSound(l, r, a);
    } else if op.Sub? {
      SubCreateSound(l, r, a);
    } else if op.Mul? {
      MulCreateSound(l, r, a);
    } else {
      BinCreateRestSound(op, l, r, a);
    }
  }

  // ------------------------------------------------------------- unary dispatch

  /** The widths at which a unary constructor may be called. An extension to a
      smaller width is allowed and cuts. */
  predicate UnCallable(op: UnOp, w: nat) {
    w > 0
    && (op.Extract? ==> op.bits > 0 && op.offset + op.bits <= w)
    && (op.ZExt? || op.SExt? ==> op.to > 0)
  }

  function UnCreate(op: UnOp, x: Expr): Expr
    requires UnCallable(op, Width(x))
  {
    match op
    case NotOptimized => Unary(NotOptimized, x)
    case Not => if x.Constant? then Constant(Complement(x.width, x.value), x.width) else Unary(Not, x)
    case Extract(off, bits) => ExtractCreate(x, off, bits)
    case _ => ExtendCreate(op, x)
  }

  lemma UnCreateTyped(op: UnOp, x: Expr)
    requires UnCallable(op, Width(x))
    ensures Width(UnCreate(op, x))
         == if op.ZExt? || op.SExt? then op.to else UnWidth(op, Width(x))
  {
    hide Pow2, ExtractCreate, ExtendCreate, Wrap;
    if op.ZExt? || op.SExt? {
      ExtendCreateTyped(op, x);
    }
  }

  lemma UnCreateLight(op: UnOp, x: Expr)
    requires UnCallable(op, Width(x))
    ensures Weight(UnCreate(op, x)) <= Weight(x) + (if op.NotOptimized? then 1 else 0)
  {
    hide Pow2, ExtractCreate, ExtendCreate;
    if op.ZExt? || op.SExt? {
      ExtendCreateLight(op, x);
    } else if op.Extract? {
      ExtractCreateLight(x, op.offset, op.bits);
    }
  }

  /** Every unary constructor builds what the plain operator means; an extension to
      a smaller width means the cut. */
  lemma UnCreateSound(op: UnOp, x: Expr, a: Assignment)
    requires UnCallable(op, Width(x))
    ensures Eval(UnCreate(op, x), a)
         == if op.ZExt? || op.SExt? then EvalExtend(op, Width(x), Eval(x, a))
            else EvalUn(op, Width(x), Eval(x, a))
  {
    hide Pow2, Wrap, ExtractCreate, ExtendCreate, ExtractBits, EvalExtend;
    if op.ZExt? || op.SExt? {
      ExtendCreateSound(op, x, a);
    } else if op.Extract? {
      ExtractCreateSound(x, op.offset, op.bits, a);
    }
  }

  // ---------------------------------------------------------------------- reads

  datatype Option<T> = None | Some(value: T)

  /** The most recent write that is provably at `index`, looking past writes that
      are provably elsewhere and stopping at the first undecided one. */
  function RollBack(nodes: seq<UpdateNode>, index: Expr): Option<Expr> {
    if nodes == [] then None
    else
      var cond := EqCreate(index, nodes[0].index);
      if !cond.Constant? then None
      else if cond.value == 1 then Some(nodes[0].value)
      else RollBack(nodes[1..], index)
  }

  function ReadCreate(ul: UpdateList, index: Expr): Expr {
    match RollBack(ul.nodes, index)
    case Some(v) => v
    case None => Read(ul, index)
  }

  /** The loop of the source, which moves a node pointer down the update list. */
  method ReadCreateLoop(ul: UpdateList, index: Expr) returns (e: Expr)
    ensures e == ReadCreate(ul, index)
  {
    var un := 0;
    while un < |ul.nodes|
      invariant 0 <= un <= |ul.nodes|
      invariant RollBack(ul.nodes[un..], index) == RollBack(ul.nodes, index)
    {
      var cond := EqCreate(index, ul.nodes[un].index);
      if cond.Constant? {
        if cond.value == 1 {
          return ul.nodes[un].value;
        }
      } else {
        break;
      }
      assert ul.nodes[un..][1..] == ul.nodes[un + 1..];
      un := un + 1;
    }
    return Read(ul, index);
  }

  lemma {:induction false} RollBackTyped(nodes: seq<UpdateNode>, index: Expr)
    requires ValidNodes(nodes)
    ensures RollBack(nodes, index).Some? ==> Width(RollBack(nodes, index).value) == INT8
  {
    hide Width, EqCreate;
    if nodes != [] {
      assert ValidNode(nodes[0]);
      RollBackTyped(nodes[1..], index);
    }
  }

  lemma {:induction false} RollBackLight(nodes: seq<UpdateNode>, index: Expr)
    ensures RollBack(nodes, index).Some? ==> Weight(RollBack(nodes, index).value) <= NodesWeight(nodes)
  {
    hide Weight, EqCreate;
    if nodes != [] {
      RollBackLight(nodes[1..], index);
    }
  }

  lemma {:induction false} RollBackSound(root: Array, nodes: seq<UpdateNode>, index: Expr, a: Assignment)
    requires ValidNodes(nodes) && Width(index) == INT32
    ensures RollBack(nodes, index).Some?
        ==> Eval(RollBack(nodes, index).value, a) == EvalNodes(root, nodes, Eval(index, a), a)
  {
    hide Width, EqCreate;
    if nodes != [] {
      assert ValidNode(nodes[0]);
      EqCreateSound(index, nodes[0].index, a);
      RollBackSound(root, nodes[1..], index, a);
    }
  }

  /** Among writes at constant positions, a read at a constant position finds the most
      recent one at that position, or none of them if there is none. */
  lemma {:induction false} RollBackFinds(nodes: seq<UpdateNode>, index: Expr, n: nat)
    requires index.Constant? && n <= |nodes|
    requires forall j :: 0 <= j < |nodes| ==> nodes[j].index.Constant?
    requires forall j :: 0 <= j < n ==> nodes[j].index.value != index.value
    requires n < |nodes| ==> nodes[n].index.value == index.value
    ensures RollBack(nodes, index) == if n < |nodes| then Some(nodes[n].value) else None
  {
    if n > 0 {
      RollBackFinds(nodes[1..], index, n - 1);
    }
  }

  lemma ReadCreateTyped(ul: UpdateList, index: Expr)
    requires Width(Read(ul, index)) == INT8
    ensures Width(ReadCreate(ul, index)) == INT8
  {
    RollBackTyped(ul.nodes, index);
  }

  lemma ReadCreateLight(ul: UpdateList, index: Expr)
    ensures Weight(ReadCreate(ul, index)) <= 1 + NodesWeight(ul.nodes) + Weight(index)
  {
    RollBackLight(ul.nodes, index);
  }

  /** Reading past writes that are provably elsewhere changes no value. */
  lemma ReadCreateSound(ul: UpdateList, index: Expr, a: Assignment)
    requires Width(Read(ul, index)) == INT8
    ensures Eval(ReadCreate(ul, index), a) == EvalRead(ul, Eval(index, a), a)
  {
    RollBackSound(ul.root, ul.nodes, index, a);
  }

  // -------------------------------------------------------------------- rebuild

  function Kids(e: Expr): (kids: seq<Expr>)
    ensures |kids| <= 3
    ensures forall i :: 0 <= i < |kids| ==> kids[i] < e && Size(kids[i]) < Size(e)
  {
    match e
    case Constant(_, _) => []
    case Read(_, i) => [i]
    case Unary(_, x) => [x]
    case Binary(_, l, r) => [l, r]
    case Select(c, t, f) => [c, t, f]
  }

  /** The same node over other operands of the same widths. */
  predicate Rebuildable(e: Expr, kids: seq<Expr>) {
    Width(e) > 0 && |kids| == |Kids(e)|
    && forall i :: 0 <= i < |kids| ==> Width(kids[i]) == Width(Kids(e)[i]) > 0
  }

  function Rebuild(e: Expr, kids: seq<Expr>): Expr
    requires Rebuildable(e, kids)
  {
    match e
    case Constant(_, _) => e
    case Read(ul, _) => ReadCreate(ul, kids[0])
    case Unary(op, x) => UnCreate(op, kids[0])
    case Binary(op, _, _) => BinCreate(op, kids[0], kids[1])
    case Select(_, _, _) => SelectCreate(kids[0], kids[1], kids[2])
  }

  /** The weight of a node that does not come from its operands. */
  function OwnWeight(e: Expr): nat {
    match e
    case Read(ul, _) => 1 + NodesWeight(ul.nodes)
    case Unary(op, _) => if op.NotOptimized? then 1 else 0
    case _ => 0
  }

  function SumWeight(s: seq<Expr>): nat {
    if s == [] then 0 else SumWeight(s[..|s| - 1]) + Weight(s[|s| - 1])
  }

  lemma SumWeightSmall(s: seq<Expr>)
    ensures |s| == 1 ==> SumWeight(s) == Weight(s[0])
    ensures |s| == 2 ==> SumWeight(s) == Weight(s[0]) + Weight(s[1])
    ensures |s| == 3 ==> SumWeight(s) == Weight(s[0]) + Weight(s[1]) + Weight(s[2])
  {
    hide Weight;
    if 0 < |s| <= 3 {
      var t := s[..|s| - 1];
      assert SumWeight(s) == SumWeight(t) + Weight(s[|s| - 1]);
      if t != [] {
        var u := t[..|t| - 1];
        assert SumWeight(t) == SumWeight(u) + Weight(t[|t| - 1]);
        if u != [] {
          assert u[..|u| - 1] == [];
        }
      }
    }
  }

  lemma KidsWeight(e: Expr)
    ensures OwnWeight(e) + SumWeight(Kids(e)) <= Weight(e)
  {
    SumWeightSmall(Kids(e));
  }

  lemma KidWeight(e: Expr, i: nat)
    requires i < |Kids(e)|
    ensures Weight(Kids(e)[i]) <= Weight(e)
  {
  }

  lemma KidWidth(e: Expr, i: nat)
    requires i < |Kids(e)| && Width(e) > 0
    ensures Width(Kids(e)[i]) > 0
  {
  }

  lemma RebuildTyped(e: Expr, kids: seq<Expr>)
    requires Rebuildable(e, kids)
    ensures Width(Rebuild(e, kids)) == Width(e)
  {
    hide ReadCreate, UnCreate, BinCreate, SelectCreate, Pow2;
    match e
    case Constant(_, _) =>
    case Read(ul, _) => ReadCreateTyped(ul, kids[0]);
    case Unary(op, x) => UnCreateTyped(op, kids[0]);
    case Binary(op, _, _) => BinCreateTyped(op, kids[0], kids[1]);
    case Select(_, _, _) => SelectCreateTyped(kids[0], kids[1], kids[2]);
  }

  lemma RebuildLight(e: Expr, kids: seq<Expr>)
    requires Rebuildable(e, kids)
    ensures Weight(Rebuild(e, kids)) <= OwnWeight(e) + SumWeight(kids)
  {
    hide ReadCreate, UnCreate, BinCreate, SelectCreate, SumWeight, Weight, Width, Pow2;
    SumWeightSmall(kids);
    match e
    case Constant(_, _) => ConstantWeight(e);
    case Read(ul, _) => ReadCreateLight(ul, kids[0]);
    case Unary(op, x) => RebuildableUnary(e, kids); UnCreateLight(op, kids[0]);
    case Binary(op, _, _) => RebuildableBinary(e, kids); BinCreateLight(op, kids[0], kids[1]);
    case Select(_, _, _) => SelectCreateLight(kids[0], kids[1], kids[2]);
  }

  lemma ConstantWeight(e: Expr)
    requires e.Constant?
    ensures Weight(e) == 0
  {
  }

  lemma RebuildableUnary(e: Expr, kids: seq<Expr>)
    requires Rebuildable(e, kids) && e.Unary?
    ensures UnCallable(e.unop, Width(kids[0]))
    ensures Width(kids[0]) == Width(e.kid) && UnWidth(e.unop, Width(e.kid)) == Width(e) > 0
  {
  }

  lemma RebuildableBinary(e: Expr, kids: seq<Expr>)
    requires Rebuildable(e, kids) && e.Binary?
    ensures Width(kids[0]) == Width(e.left) && Width(kids[1]) == Width(e.right)
    ensures BinWidth(e.op, Width(e.left), Width(e.right)) == Width(e) > 0
  {
  }

  /** Replacing operands by ones of the same value keeps a node's value. */
  lemma RebuildSound(e: Expr, kids: seq<Expr>, a: Assignment)
    requires Rebuildable(e, kids)
    requires forall i :: 0 <= i < |kids| ==> Eval(kids[i], a) == Eval(Kids(e)[i], a)
    ensures Eval(Rebuild(e, kids), a) == Eval(e, a)
  {
    match e
    case Constant(_, _) =>
    case Read(ul, _) => RebuildReadSound(e, kids, a);
    case Unary(op, x) => RebuildUnarySound(e, kids, a);
    case Binary(op, _, _) => RebuildBinarySound(e, kids, a);
    case Select(_, _, _) => RebuildSelectSound(e, kids, a);
  }

  lemma RebuildReadSound(e: Expr, kids: seq<Expr>, a: Assignment)
    requires Rebuildable(e, kids) && e.Read? && Eval(kids[0], a) == Eval(e.index, a)
    ensures Eval(ReadCreate(e.updates, kids[0]), a) == Eval(e, a)
  {
    hide ReadCreate;
    ReadCreateSound(e.updates, kids[0], a);
  }

  lemma RebuildUnarySound(e: Expr, kids: seq<Expr>, a: Assignment)
    requires Rebuildable(e, kids) && e.Unary? && Eval(kids[0], a) == Eval(e.kid, a)
    ensures UnCallable(e.unop, Width(kids[0])) && Eval(UnCreate(e.unop, kids[0]), a) == Eval(e, a)
  {
    hide UnCreate, EvalUn, Width, Pow2, Wrap;
    RebuildableUnary(e, kids);
    UnCreateSound(e.unop, kids[0], a);
    var w := Width(e.kid);
    EvalRange(kids[0], a);
    ExtendSame(e.unop, w, Eval(e.kid, a));
  }

  /** At the widths of a well-formed extension, extending never cuts. */
  lemma ExtendSame(op: UnOp, w: nat, v: nat)
    requires v < Pow2(w) && UnWidth(op, w) > 0
    ensures (op.ZExt? || op.SExt?) ==> EvalExtend(op, w, v) == EvalUn(op, w, v)
  {
    if (op.ZExt? || op.SExt?) && op.to == w {
      WrapId(w, v);
      if op.SExt? {
        SignExtendTruncates(w, w, v);
        WrapId(w, SignExtend(w, w, v));
      }
    }
  }

  lemma RebuildBinarySound(e: Expr, kids: seq<Expr>, a: Assignment)
    requires Rebuildable(e, kids) && e.Binary?
    requires Eval(kids[0], a) == Eval(e.left, a) && Eval(kids[1], a) == Eval(e.right, a)
    ensures BinWidth(e.op, Width(kids[0]), Width(kids[1])) > 0
    ensures Eval(BinCreate(e.op, kids[0], kids[1]), a) == Eval(e, a)
  {
    hide BinCreate, EvalBin, Width;
    RebuildableBinary(e, kids);
    BinCreateSound(e.op, kids[0], kids[1], a);
  }

  lemma RebuildSelectSound(e: Expr, kids: seq<Expr>, a: Assignment)
    requires Rebuildable(e, kids) && e.Select?
    requires forall i :: 0 <= i < |kids| ==> Eval(kids[i], a) == Eval(Kids(e)[i], a)
    ensures Eval(SelectCreate(kids[0], kids[1], kids[2]), a) == Eval(e, a)
  {
    hide SelectCreate, Pow2;
    SelectCreateSound(kids[0], kids[1], kids[2], a);
  }
}
