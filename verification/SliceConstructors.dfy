/**
 Constructors that cut and join bit-vectors. `ExtractCreate` splits across a
 concatenation while `ConcatCreate` merges adjacent extracts, so the two are
 mutually recursive.
 */
module SliceConstructors {
  import opened Bits
  import opened Exprs
  import opened LogicConstructors

  predicate IsExtract(e: Expr) {
    e.Unary? && e.unop.Extract?
  }

  predicate IsConcat(e: Expr) {
    e.Binary? && e.op.Concat?
  }

  /** Two extracts of one expression, the left one directly above the right one. */
  predicate Contiguous(l: Expr, r: Expr) {
    IsExtract(l) && IsExtract(r) && l.kid == r.kid
    && r.unop.offset + r.unop.bits == l.unop.offset
  }

  /** Constants are shifted arithmetically and then cut to the new width. */
  function FoldExtract(c: Expr, off: nat, w: nat): Expr
    requires c.Constant?
  {
    Const(Signed(c.width, c.value) / Pow2(off), w)
  }

  function ConcatCreate(l: Expr, r: Expr): (e: Expr)
    requires Width(l) > 0 && Width(r) > 0
    ensures Width(e) == Width(l) + Width(r)
    ensures Size(e) <= 1 + Size(l) + Size(r)
    decreases Size(l) + Size(r)
  {
    if l.Constant? && r.Constant? then
      FoldTyped(Concat, l, r);
      Fold(Concat, l, r)
    else if Contiguous(l, r) then
      ExtractCreate(l.kid, r.unop.offset, l.unop.bits + r.unop.bits)
    else Binary(Concat, l, r)
  }

  /** An extract that keeps one end of its source adds at most one node, any other
      at most two; termination rests on these bounds. */
  function ExtractCreate(x: Expr, off: nat, w: nat): (e: Expr)
    requires w > 0 && off + w <= Width(x)
    ensures Width(e) == w
    ensures Size(e) <= Size(x) + 2
    ensures off == 0 || off + w == Width(x) ==> Size(e) <= Size(x) + 1
    decreases 2 * Size(x)
  {
    if w == Width(x) then x
    else if x.Constant? then FoldExtract(x, off, w)
    else if IsConcat(x) then ExtractFromConcat(x, off, w)
    else Unary(Extract(off, w), x)
  }

  function ExtractFromConcat(x: Expr, off: nat, w: nat): (e: Expr)
    requires IsConcat(x) && w > 0 && off + w <= Width(x)
    ensures Width(e) == w
    ensures Size(e) <= Size(x) + 2
    ensures off == 0 || off + w == Width(x) ==> Size(e) <= Size(x) + 1
    decreases 2 * Size(x) - 1
  {
    var wr := Width(x.right);
    if off >= wr then ExtractCreate(x.left, off - wr, w)
    else if off + w <= wr then ExtractCreate(x.right, off, w)
    else ConcatCreate(ExtractCreate(x.left, 0, w - wr + off), ExtractCreate(x.right, off, wr - off))
  }

  // ----------------------------------------------------------------- meaning

  lemma {:induction false} ConcatCreateSound(l: Expr, r: Expr, a: Assignment)
    requires Width(l) > 0 && Width(r) > 0
    ensures Eval(ConcatCreate(l, r), a) == ConcatBits(Width(r), Eval(l, a), Eval(r, a))
    decreases Size(l) + Size(r)
  {
    hide Pow2, ConcatBits, ExtractBits, ExtractCreate;
    if !(l.Constant? && r.Constant?) && Contiguous(l, r) {
      ExtractCreateSound(l.kid, r.unop.offset, l.unop.bits + r.unop.bits, a);
      ExtractMerge(Eval(l.kid, a), r.unop.offset, l.unop.bits, r.unop.bits);
    }
  }

  lemma FoldExtractSound(x: Expr, off: nat, w: nat)
    requires x.Constant? && Width(x) > 0 && w > 0 && off + w <= Width(x)
    ensures FoldExtract(x, off, w) == Constant(ExtractBits(off, w, x.value), w)
  {
    hide Pow2, ExtractBits;
    ExtractBySignedShift(x.width, off, w, x.value);
  }

  lemma {:induction false} ExtractCreateSound(x: Expr, off: nat, w: nat, a: Assignment)
    requires w > 0 && off + w <= Width(x)
    ensures Eval(ExtractCreate(x, off, w), a) == ExtractBits(off, w, Eval(x, a))
    decreases 2 * Size(x)
  {
    hide Pow2, ExtractBits, FoldExtract, ExtractFromConcat;
    if w == Width(x) {
      EvalRange(x, a);
      ExtractAll(w, Eval(x, a));
    } else if x.Constant? {
      FoldExtractSound(x, off, w);
    } else if IsConcat(x) {
      ExtractFromConcatSound(x, off, w, a);
    }
  }

  lemma {:induction false} ExtractFromConcatSound(x: Expr, off: nat, w: nat, a: Assignment)
    requires IsConcat(x) && w > 0 && off + w <= Width(x)
    ensures Eval(ExtractFromConcat(x, off, w), a) == ExtractBits(off, w, Eval(x, a))
    decreases 2 * Size(x) - 1
  {
    hide Pow2, ConcatBits, ExtractBits, ExtractCreate, ConcatCreate;
    var wr, l, r := Width(x.right), Eval(x.left, a), Eval(x.right, a);
    EvalRange(x.right, a);
    if off >= wr {
      ExtractCreateSound(x.left, off - wr, w, a);
      ExtractConcatHigh(wr, l, r, off, w);
    } else if off + w <= wr {
      ExtractCreateSound(x.right, off, w, a);
      ExtractConcatLow(wr, l, r, off, w);
    } else {
      var high, low := ExtractCreate(x.left, 0, w - wr + off), ExtractCreate(x.right, off, wr - off);
      ExtractCreateSound(x.left, 0, w - wr + off, a);
      ExtractCreateSound(x.right, off, wr - off, a);
      ConcatCreateSound(high, low, a);
      ExtractConcatSplit(wr, l, r, off, w);
    }
  }

  // ------------------------------------------------------------------ weight

  lemma {:induction false} ConcatCreateLight(l: Expr, r: Expr)
    requires Width(l) > 0 && Width(r) > 0
    ensures Weight(ConcatCreate(l, r)) <= Weight(l) + Weight(r)
    decreases Size(l) + Size(r)
  {
    hide Pow2, ExtractCreate, EvalBin, FoldExtract;
    if !(l.Constant? && r.Constant?) && Contiguous(l, r) {
      ExtractCreateLight(l.kid, r.unop.offset, l.unop.bits + r.unop.bits);
    }
  }

  lemma {:induction false} ExtractCreateLight(x: Expr, off: nat, w: nat)
    requires w > 0 && off + w <= Width(x)
    ensures Weight(ExtractCreate(x, off, w)) <= Weight(x)
    decreases 2 * Size(x)
  {
    hide Pow2, ExtractFromConcat;
    if w != Width(x) && !x.Constant? && IsConcat(x) {
      ExtractFromConcatLight(x, off, w);
    }
  }

  lemma {:induction false} ExtractFromConcatLight(x: Expr, off: nat, w: nat)
    requires IsConcat(x) && w > 0 && off + w <= Width(x)
    ensures Weight(ExtractFromConcat(x, off, w)) <= Weight(x)
    decreases 2 * Size(x) - 1
  {
    hide Pow2, ExtractCreate, ConcatCreate;
    var wr := Width(x.right);
    if off >= wr {
      ExtractCreateLight(x.left, off - wr, w);
    } else if off + w <= wr {
      ExtractCreateLight(x.right, off, w);
    } else {
      ExtractCreateLight(x.left, 0, w - wr + off);
      ExtractCreateLight(x.right, off, wr - off);
      ConcatCreateLight(ExtractCreate(x.left, 0, w - wr + off), ExtractCreate(x.right, off, wr - off));
    }
  }

  // ------------------------------------------------------- the unary operators

  /** Width changes: the extensions cut when the new width is the smaller one. */
  function ExtendCreate(op: UnOp, x: Expr): Expr
    requires (op.ZExt? || op.SExt?) && 0 < op.to && Width(x) > 0
  {
    if op.to == Width(x) then x
    else if op.to < Width(x) then ExtractCreate(x, 0, op.to)
    else if x.Constant? then Constant(EvalUn(op, x.width, x.value), op.to)
    else Unary(op, x)
  }

  /** What an extension means: a cut, or the extension proper. */
  function EvalExtend(op: UnOp, w: nat, v: nat): nat
    requires op.ZExt? || op.SExt?
  {
    if op.to <= w then Wrap(op.to, v) else EvalUn(op, w, v)
  }

  lemma ExtendCreateTyped(op: UnOp, x: Expr)
    requires (op.ZExt? || op.SExt?) && 0 < op.to && Width(x) > 0
    ensures Width(ExtendCreate(op, x)) == op.to
  {
    hide Pow2, ExtractCreate;
    if op.to > Width(x) && x.Constant? {
      UnRange(op, x.width, x.value);
    }
  }

  lemma ExtendCreateLight(op: UnOp, x: Expr)
    requires (op.ZExt? || op.SExt?) && 0 < op.to && Width(x) > 0
    ensures Weight(ExtendCreate(op, x)) <= Weight(x)
  {
    hide Pow2, ExtractCreate;
    if op.to < Width(x) {
      ExtractCreateLight(x, 0, op.to);
    }
  }

  lemma ExtendCreateSound(op: UnOp, x: Expr, a: Assignment)
    requires (op.ZExt? || op.SExt?) && 0 < op.to && Width(x) > 0
    ensures Eval(ExtendCreate(op, x), a) == EvalExtend(op, Width(x), Eval(x, a))
  {
    hide Pow2, ExtractCreate, Wrap, ShiftRight, SignExtend;
    var v := Eval(x, a);
    if op.to == Width(x) {
      EvalRange(x, a);
      WrapId(op.to, v);
    } else if op.to < Width(x) {
      ExtractCreateSound(x, 0, op.to, a);
      ExtractLowBits(op.to, v);
    }
  }

  lemma ExtractLowBits(w: nat, v: nat)
    ensures ExtractBits(0, w, v) == Wrap(w, v)
  {
    assert ShiftRight(v, 0) == v;
  }

  /** Joining a run of expressions, the last one lowest. */
  method ConcatCreateN(kids: seq<Expr>) returns (e: Expr)
    requires kids != [] && forall i :: 0 <= i < |kids| ==> Width(kids[i]) > 0
    ensures Width(e) == ConcatWidth(kids)
    ensures forall a: Assignment :: Eval(e, a) == EvalConcat(kids, a)
  {
    e := kids[|kids| - 1];
    var i := |kids| - 1;
    assert kids[i..] == [e];
    while i > 0
      invariant 0 <= i < |kids|
      invariant Width(e) == ConcatWidth(kids[i..]) > 0
      invariant forall a: Assignment :: Eval(e, a) == EvalConcat(kids[i..], a)
    {
      i := i - 1;
      var rest := e;
      assert kids[i..][1..] == kids[i + 1..];
      e := ConcatCreate(kids[i], rest);
      forall a: Assignment ensures Eval(e, a) == EvalConcat(kids[i..], a) {
        ConcatCreateSound(kids[i], rest, a);
      }
    }
    assert kids[0..] == kids;
  }

  function ConcatWidth(kids: seq<Expr>): nat {
    if kids == [] then 0 else Width(kids[0]) + ConcatWidth(kids[1..])
  }

  function EvalConcat(kids: seq<Expr>, a: Assignment): nat {
    if kids == [] then 0
    else ConcatBits(ConcatWidth(kids[1..]), Eval(kids[0], a), EvalConcat(kids[1..], a))
  }
}
