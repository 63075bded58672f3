/**
 Symbolic bit-vector expressions and what they mean.

 `Eval` is the one denotation against which the constructors, the constraint
 manager, symbolic memory, forking and merging are all specified.
 */
module Exprs {
  import opened Bits

  const INVALID_WIDTH: nat := 0
  const BOOL: nat := 1
  const INT8: nat := 8
  const INT32: nat := 32

  /** An array of bytes indexed by 32-bit values: symbolic when `constantValues`
      is empty, otherwise with the given initial contents. */
  datatype Array = Array(name: string, constantValues: seq<nat>)

  /** One byte written over an array. */
  datatype UpdateNode = UpdateNode(index: Expr, value: Expr)

  /** The writes over `root`, most recent write first. */
  datatype UpdateList = UpdateList(root: Array, nodes: seq<UpdateNode>)

  datatype UnOp =
    | NotOptimized
    | Not
    | Extract(offset: nat, bits: nat)
    | ZExt(to: nat)
    | SExt(to: nat)

  datatype BinOp =
    | Concat
    | Add | Sub | Mul | UDiv | SDiv | URem | SRem
    | And | Or | Xor | Shl | LShr | AShr
    | Eq | Ne | Ult | Ule | Ugt | Uge | Slt | Sle | Sgt | Sge

  datatype Expr =
    | Constant(value: nat, width: nat)
    | Read(updates: UpdateList, index: Expr)
    | Unary(unop: UnOp, kid: Expr)
    | Binary(op: BinOp, left: Expr, right: Expr)
    | Select(cond: Expr, trueExpr: Expr, falseExpr: Expr)

  /** Initial contents of the symbolic arrays. */
  type Assignment = (Array, nat) -> nat

  // ------------------------------------------------------------------ widths

  predicate IsCompare(op: BinOp) {
    op.Eq? || op.Ne? || op.Ult? || op.Ule? || op.Ugt? || op.Uge?
    || op.Slt? || op.Sle? || op.Sgt? || op.Sge?
  }

  function UnWidth(op: UnOp, w: nat): nat {
    match op
    case NotOptimized => w
    case Not => w
    case Extract(off, bits) => if off + bits <= w then bits else INVALID_WIDTH
    case ZExt(to) => if 0 < w <= to then to else INVALID_WIDTH
    case SExt(to) => if 0 < w <= to then to else INVALID_WIDTH
  }

  function BinWidth(op: BinOp, wl: nat, wr: nat): nat {
    if wl == INVALID_WIDTH || wr == INVALID_WIDTH then INVALID_WIDTH
    else if op.Concat? then wl + wr
    else if wl != wr then INVALID_WIDTH
    else if IsCompare(op) then BOOL
    else wl
  }

  /** The width of an expression in bits, or `INVALID_WIDTH` if the expression
      breaks the width discipline that the constructors of the source assert. */
  function Width(e: Expr): nat {
    match e
    case Constant(v, w) => if v < Pow2(w) then w else INVALID_WIDTH
    case Read(ul, i) =>
      if ValidArray(ul.root) && ValidNodes(ul.nodes) && Width(i) == INT32
      then INT8 else INVALID_WIDTH
    case Unary(op, x) => UnWidth(op, Width(x))
    case Binary(op, l, r) => BinWidth(op, Width(l), Width(r))
    case Select(c, t, f) =>
      if Width(c) == BOOL && Width(t) == Width(f) then Width(t) else INVALID_WIDTH
  }

  predicate ValidArray(root: Array) {
    forall i :: 0 <= i < |root.constantValues| ==> root.constantValues[i] < 256
  }

  predicate ValidNodes(nodes: seq<UpdateNode>) {
    forall i :: 0 <= i < |nodes| ==> ValidNode(nodes[i])
  }

  predicate ValidNode(n: UpdateNode) {
    Width(n.index) == INT32 && Width(n.value) == INT8
  }

  // -------------------------------------------------------------- denotation

  function EvalUn(op: UnOp, w: nat, v: nat): nat {
    match op
    case NotOptimized => v
    case Not => Complement(w, v)
    case Extract(off, bits) => ExtractBits(off, bits, v)
    case ZExt(_) => v
    case SExt(to) => SignExtend(w, to, v)
  }

  function EvalBin(op: BinOp, wl: nat, wr: nat, x: nat, y: nat): nat {
    match op
    case Concat => ConcatBits(wr, x, y)
    case Add => Wrap(wl, x + y)
    case Sub => Wrap(wl, x - y)
    case Mul => MulBits(wl, x, y)
    case UDiv => Wrap(wl, TruncDiv(x, y))
    case SDiv => Wrap(wl, TruncDiv(Signed(wl, x), Signed(wl, y)))
    case URem => Wrap(wl, TruncRem(x, y))
    case SRem => Wrap(wl, TruncRem(Signed(wl, x), Signed(wl, y)))
    case And => Bitwise(BitAnd, wl, x, y)
    case Or => Bitwise(BitOr, wl, x, y)
    case Xor => Bitwise(BitXor, wl, x, y)
    case Shl => ShlBits(wl, x, y)
    case LShr => Wrap(wl, ShiftRight(x, y))
    case AShr => AShrBits(wl, x, y)
    case _ => FromBool(Compares(op, wl, x, y))
  }

  predicate Compares(op: BinOp, w: nat, x: nat, y: nat) {
    match op
    case Eq => x == y
    case Ne => x != y
    case Ult => x < y
    case Ule => x <= y
    case Ugt => x > y
    case Uge => x >= y
    case Slt => Signed(w, x) < Signed(w, y)
    case Sle => Signed(w, x) <= Signed(w, y)
    case Sgt => Signed(w, x) > Signed(w, y)
    case Sge => Signed(w, x) >= Signed(w, y)
    case _ => false
  }

  /** Bytes of a constant array are fixed; all others come from the assignment. */
  function InitialByte(root: Array, k: nat, a: Assignment): nat {
    if k < |root.constantValues| then root.constantValues[k] else a(root, k) % 256
  }

  function Eval(e: Expr, a: Assignment): nat
    decreases e
  {
    match e
    case Constant(v, _) => v
    case Read(ul, i) => EvalRead(ul, Eval(i, a), a)
    case Unary(op, x) => EvalUn(op, Width(x), Eval(x, a))
    case Binary(op, l, r) => EvalBin(op, Width(l), Width(r), Eval(l, a), Eval(r, a))
    case Select(c, t, f) => if Eval(c, a) == 1 then Eval(t, a) else Eval(f, a)
  }

  function EvalRead(ul: UpdateList, k: nat, a: Assignment): nat
    decreases ul
  {
    EvalNodes(ul.root, ul.nodes, k, a)
  }

  /** The byte at position `k` after all updates: the most recent write wins. */
  function EvalNodes(root: Array, nodes: seq<UpdateNode>, k: nat, a: Assignment): nat
    decreases nodes
  {
    if nodes == [] then InitialByte(root, k, a)
    else if EvalIndex(nodes[0], a) == k then EvalValue(nodes[0], a)
    else EvalNodes(root, nodes[1..], k, a)
  }

  function EvalIndex(n: UpdateNode, a: Assignment): nat
    decreases n
  {
    Eval(n.index, a)
  }

  function EvalValue(n: UpdateNode, a: Assignment): nat
    decreases n
  {
    Eval(n.value, a)
  }

  // ---------------------------------------------------------------- measures

  function Size(e: Expr): (n: nat)
    ensures n >= 1
  {
    match e
    case Constant(_, _) => 1
    case Read(_, i) => 1 + Size(i)
    case Unary(_, x) => 1 + Size(x)
    case Binary(_, l, r) => 1 + Size(l) + Size(r)
    case Select(c, t, f) => 1 + Size(c) + Size(t) + Size(f)
  }

  function AtLeastOne(n: nat): nat {
    if n == 0 then 1 else n
  }

  /** The number of `Read` and `NotOptimized` nodes, update lists included, but at
      least one for anything that is not a constant. No constructor makes this
      grow, although node counts can grow. */
  function Weight(e: Expr): (n: nat)
    ensures n == 0 <==> e.Constant?
  {
    match e
    case Constant(_, _) => 0
    case Read(ul, i) => 1 + NodesWeight(ul.nodes) + Weight(i)
    case Unary(op, x) => if op.NotOptimized? then 1 + Weight(x) else AtLeastOne(Weight(x))
    case Binary(_, l, r) => AtLeastOne(Weight(l) + Weight(r))
    case Select(c, t, f) => AtLeastOne(Weight(c) + Weight(t) + Weight(f))
  }

  function NodesWeight(nodes: seq<UpdateNode>): nat {
    if nodes == [] then 0
    else NodeWeight(nodes[0]) + NodesWeight(nodes[1..])
  }

  function NodeWeight(n: UpdateNode): nat {
    Weight(n.index) + Weight(n.value)
  }

  // ------------------------------------------------------------------ ranges

  lemma UnRange(op: UnOp, w: nat, v: nat)
    requires v < Pow2(w) && UnWidth(op, w) > 0
    ensures EvalUn(op, w, v) < Pow2(UnWidth(op, w))
  {
    if op.ZExt? {
      Pow2Monotone(w, op.to);
    }
  }

  lemma BinRange(op: BinOp, wl: nat, wr: nat, x: nat, y: nat)
    requires x < Pow2(wl) && y < Pow2(wr) && BinWidth(op, wl, wr) > 0
    ensures EvalBin(op, wl, wr, x, y) < Pow2(BinWidth(op, wl, wr))
  {
    if op.Concat? {
      ConcatRange(wl, wr, x, y);
    } else if IsCompare(op) {
      assert Pow2(1) == 2;
    }
  }

  /** A well-formed expression denotes a value of its width. */
  lemma {:induction false} EvalRange(e: Expr, a: Assignment)
    requires Width(e) > 0
    ensures Eval(e, a) < Pow2(Width(e))
    decreases e
  {
    match e
    case Constant(_, _) =>
    case Read(ul, i) =>
      NodesRange(ul.root, ul.nodes, Eval(i, a), a);
      assert Pow2(8) == 256;
    case Unary(op, x) =>
      EvalRange(x, a);
      UnRange(op, Width(x), Eval(x, a));
    case Binary(op, l, r) =>
      EvalRange(l, a);
      EvalRange(r, a);
      BinRange(op, Width(l), Width(r), Eval(l, a), Eval(r, a));
    case Select(c, t, f) =>
      EvalRange(t, a);
      EvalRange(f, a);
  }

  lemma {:induction false} NodesRange(root: Array, nodes: seq<UpdateNode>, k: nat, a: Assignment)
    requires ValidArray(root) && ValidNodes(nodes)
    ensures EvalNodes(root, nodes, k, a) < 256
    decreases nodes
  {
    if nodes != [] {
      NodeRange(nodes[0], a);
      NodesRange(root, nodes[1..], k, a);
    }
  }

  lemma {:induction false} NodeRange(n: UpdateNode, a: Assignment)
    requires ValidNode(n)
    ensures EvalValue(n, a) < 256
    decreases n
  {
    EvalRange(n.value, a);
    assert Pow2(8) == 256;
  }

  /** A Boolean expression is 0 or 1. */
  lemma BoolRange(e: Expr, a: Assignment)
    requires Width(e) == BOOL
    ensures Eval(e, a) == 0 || Eval(e, a) == 1
  {
    EvalRange(e, a);
    assert Pow2(1) == 2;
  }

  // --------------------------------------------------------------- constants

  function Const(v: int, w: nat): Expr {
    Constant(Wrap(w, v), w)
  }

  const TRUE := Constant(1, BOOL)
  const FALSE := Constant(0, BOOL)

  lemma BoolConstants()
    ensures Width(TRUE) == BOOL && Width(FALSE) == BOOL && Pow2(BOOL) == 2
  {
    assert Pow2(1) == 2;
  }
}
