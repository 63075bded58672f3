/**
 The two replacing visitors. `Rewritten` is what a visit computes; the class
 computes it with the memo table of the source.

 A visitor may visit a rebuilt node again. Rewriting still terminates: every
 replacement puts a constant in the place of something that is not one, so the
 weight falls, and no constructor lets it grow again.
 */
module Visitor {
  import opened Bits
  import opened Exprs
  import opened Constructors
  import opened CanonicalForms

  /** `ReplaceOne` also replaces on the way down; `ReplaceAll` visits a rebuilt
      node again. */
  datatype Replacer =
    | ReplaceOne(src: Expr, dst: Expr)
    | ReplaceAll(equalities: map<Expr, Expr>)

  /** Replacements are constants of the width of what they replace. */
  predicate ValidReplacer(v: Replacer) {
    match v
    case ReplaceOne(src, dst) => dst.Constant? && Width(dst) == Width(src) > 0
    case ReplaceAll(m) =>
      forall k :: k in m ==> m[k].Constant? && Width(m[k]) == Width(k) > 0
  }

  predicate Replaces(v: Replacer, e: Expr) {
    match v
    case ReplaceOne(src, _) => e == src
    case ReplaceAll(m) => e in m
  }

  function Replacement(v: Replacer, e: Expr): Expr
    requires Replaces(v, e)
  {
    match v
    case ReplaceOne(_, dst) => dst
    case ReplaceAll(m) => m[e]
  }

  /** The post-visit hook, which is not asked about constants. */
  function Post(v: Replacer, e: Expr): (r: Expr)
    requires ValidReplacer(v) && Width(e) > 0
    ensures Width(r) == Width(e)
    ensures Weight(r) <= Weight(e)
    ensures r != e ==> Weight(r) < Weight(e)
  {
    if !e.Constant? && Replaces(v, e) then Replacement(v, e) else e
  }

  function Rewritten(v: Replacer, e: Expr): (r: Expr)
    requires ValidReplacer(v) && Width(e) > 0
    ensures Width(r) == Width(e)
    ensures Weight(r) <= Weight(e)
    ensures r != e ==> Weight(r) < Weight(e)
    decreases Weight(e), Size(e), 10
  {
    hide Width, Rebuild, ReadCreate, SumWeight;
    if e.Constant? then e
    else if v.ReplaceOne? && e == v.src then v.dst
    else
      var kids := RewrittenKids(v, e, |Kids(e)|);
      assert Kids(e)[..|Kids(e)|] == Kids(e);
      if kids == Kids(e) then Post(v, e)
      else
        var b := Rebuilt(e, kids);
        if v.ReplaceAll? then Post(v, Rewritten(v, b)) else Post(v, b)
  }

  /** Rebuilding from operands of which at least one was replaced loses weight. */
  function Rebuilt(e: Expr, kids: seq<Expr>): (b: Expr)
    requires Rebuildable(e, kids) && SumWeight(kids) < SumWeight(Kids(e))
    ensures Width(b) == Width(e)
    ensures Weight(b) < Weight(e)
  {
    RebuildTyped(e, kids);
    RebuildLight(e, kids);
    KidsWeight(e);
    Rebuild(e, kids)
  }

  /** The first `n` operands, rewritten. */
  function RewrittenKids(v: Replacer, e: Expr, n: nat): (kids: seq<Expr>)
    requires ValidReplacer(v) && Width(e) > 0 && n <= |Kids(e)|
    ensures |kids| == n
    ensures forall i :: 0 <= i < n ==> Width(kids[i]) == Width(Kids(e)[i]) > 0
    ensures SumWeight(kids) <= SumWeight(Kids(e)[..n])
    ensures kids != Kids(e)[..n] ==> SumWeight(kids) < SumWeight(Kids(e)[..n])
    decreases Weight(e), Size(e), n
  {
    if n == 0 then []
    else
      KidWeight(e, n - 1);
      KidWidth(e, n - 1);
      var before := RewrittenKids(v, e, n - 1);
      var r := Rewritten(v, Kids(e)[n - 1]);
      OneMoreKid(Kids(e), n, before, r);
      before + [r]
  }

  lemma OneMoreKid(kids: seq<Expr>, n: nat, before: seq<Expr>, r: Expr)
    requires 0 < n <= |kids| && |before| == n - 1
    requires SumWeight(before) <= SumWeight(kids[..n - 1])
    requires before != kids[..n - 1] ==> SumWeight(before) < SumWeight(kids[..n - 1])
    requires Weight(r) <= Weight(kids[n - 1])
    requires r != kids[n - 1] ==> Weight(r) < Weight(kids[n - 1])
    ensures SumWeight(before + [r]) <= SumWeight(kids[..n])
    ensures before + [r] != kids[..n] ==> SumWeight(before + [r]) < SumWeight(kids[..n])
  {
    hide Weight;
    SumWeightSnoc(before, r);
    SumWeightSnoc(kids[..n - 1], kids[n - 1]);
    assert kids[..n] == kids[..n - 1] + [kids[n - 1]];
  }

  lemma SumWeightSnoc(s: seq<Expr>, e: Expr)
    ensures SumWeight(s + [e]) == SumWeight(s) + Weight(e)
  {
    hide Weight;
    assert (s + [e])[..|s + [e]| - 1] == s;
  }

  // ----------------------------------------------------------------- meaning

  /** Under `a`, every replacement has the value of what it replaces. */
  ghost predicate Holds(v: Replacer, a: Assignment) {
    match v
    case ReplaceOne(src, dst) => Eval(src, a) == Eval(dst, a)
    case ReplaceAll(m) => forall k :: k in m ==> Eval(k, a) == Eval(m[k], a)
  }

  lemma PostSound(v: Replacer, e: Expr, a: Assignment)
    requires ValidReplacer(v) && Width(e) > 0 && Holds(v, a)
    ensures Eval(Post(v, e), a) == Eval(e, a)
  {
    hide Eval, Width;
  }

  /** Rewriting keeps the value of an expression under every assignment that
      satisfies the replacements. */
  lemma {:induction false} RewrittenSound(v: Replacer, e: Expr, a: Assignment)
    requires ValidReplacer(v) && Width(e) > 0 && Holds(v, a)
    ensures Eval(Rewritten(v, e), a) == Eval(e, a)
    decreases Weight(e), Size(e), 10
  {
    hide Eval, Width, Weight, Post, Rebuild, Kids, Size, SumWeight;
    if !e.Constant? && !(v.ReplaceOne? && e == v.src) {
      var kids := RewrittenKids(v, e, |Kids(e)|);
      assert Kids(e)[..|Kids(e)|] == Kids(e);
      PostSound(v, e, a);
      if kids != Kids(e) {
        RewrittenKidsSound(v, e, |Kids(e)|, a);
        RebuildSound(e, kids, a);
        var b := Rebuilt(e, kids);
        PostSound(v, b, a);
        if v.ReplaceAll? {
          RewrittenSound(v, b, a);
          PostSound(v, Rewritten(v, b), a);
        }
      }
    }
  }

  lemma {:induction false} RewrittenKidsSound(v: Replacer, e: Expr, n: nat, a: Assignment)
    requires ValidReplacer(v) && Width(e) > 0 && n <= |Kids(e)| && Holds(v, a)
    ensures forall i :: 0 <= i < n ==> Eval(RewrittenKids(v, e, n)[i], a) == Eval(Kids(e)[i], a)
    decreases Weight(e), Size(e), n
  {
    hide Eval, Width, Weight, Rewritten, Kids, Size, ValidReplacer, Holds, SumWeight;
    if n > 0 {
      KidWeight(e, n - 1);
      KidWidth(e, n - 1);
      RewrittenKidsSound(v, e, n - 1, a);
      RewrittenSound(v, Kids(e)[n - 1], a);
    }
  }

  // ----------------------------------------------------------- what is replaced

  /** `s` is `e` or a part of it that a visit can reach; constants are not visited. */
  predicate Contains(e: Expr, s: Expr) {
    match e
    case Constant(_, _) => false
    case Read(_, i) => e == s || Contains(i, s)
    case Unary(_, x) => e == s || Contains(x, s)
    case Binary(_, l, r) => e == s || Contains(l, s) || Contains(r, s)
    case Select(c, t, f) => e == s || Contains(c, s) || Contains(t, s) || Contains(f, s)
  }

  lemma ContainsKids(e: Expr, s: Expr)
    ensures Contains(e, s) <==> !e.Constant? && (e == s || exists i :: 0 <= i < |Kids(e)| && Contains(Kids(e)[i], s))
  {
    match e
    case Constant(_, _) =>
    case Read(_, i) => assert Kids(e)[0] == i;
    case Unary(_, x) => assert Kids(e)[0] == x;
    case Binary(_, l, r) => assert Kids(e)[0] == l && Kids(e)[1] == r;
    case Select(c, t, f) => assert Kids(e)[0] == c && Kids(e)[1] == t && Kids(e)[2] == f;
  }

  /** Something that is to be replaced occurs in `e`. */
  ghost predicate Occurs(v: Replacer, e: Expr) {
    exists s :: Replaces(v, s) && Contains(e, s)
  }

  lemma OccursStep(v: Replacer, e: Expr)
    ensures Occurs(v, e) <==>
      !e.Constant? && (Replaces(v, e) || exists i :: 0 <= i < |Kids(e)| && Occurs(v, Kids(e)[i]))
  {
    hide Kids, Replaces, Contains;
    if Occurs(v, e) {
      var s :| Replaces(v, s) && Contains(e, s);
      ContainsKids(e, s);
      if e != s {
        var i :| 0 <= i < |Kids(e)| && Contains(Kids(e)[i], s);
        assert Occurs(v, Kids(e)[i]);
      }
    }
    if !e.Constant? && Replaces(v, e) {
      ContainsKids(e, e);
    }
    if i :| !e.Constant? && 0 <= i < |Kids(e)| && Occurs(v, Kids(e)[i]) {
      var s :| Replaces(v, s) && Contains(Kids(e)[i], s);
      ContainsKids(e, s);
    }
  }

  lemma PostChanges(v: Replacer, e: Expr)
    requires ValidReplacer(v) && Width(e) > 0
    ensures Post(v, e) != e <==> !e.Constant? && Replaces(v, e)
    ensures Post(v, e) != e ==> Post(v, e).Constant?
  {
    hide Width;
  }

  /** A visit changes an expression exactly if something to be replaced occurs in it. */
  lemma {:induction false} RewrittenChanges(v: Replacer, e: Expr)
    requires ValidReplacer(v) && Width(e) > 0
    ensures Rewritten(v, e) != e <==> Occurs(v, e)
    decreases Weight(e), Size(e), 10
  {
    hide Width, Weight, Post, Rebuild, Kids, Size, SumWeight, Occurs;
    OccursStep(v, e);
    if !e.Constant? && !(v.ReplaceOne? && e == v.src) {
      var kids := RewrittenKids(v, e, |Kids(e)|);
      assert Kids(e)[..|Kids(e)|] == Kids(e);
      KidsChange(v, e, |Kids(e)|);
      PostChanges(v, e);
      if kids != Kids(e) {
        var i :| 0 <= i < |Kids(e)| && kids[i] != Kids(e)[i];
        assert Occurs(v, Kids(e)[i]);
      }
    }
  }

  lemma {:induction false} KidsChange(v: Replacer, e: Expr, n: nat)
    requires ValidReplacer(v) && Width(e) > 0 && n <= |Kids(e)|
    ensures forall i :: 0 <= i < n ==> (RewrittenKids(v, e, n)[i] != Kids(e)[i] <==> Occurs(v, Kids(e)[i]))
    decreases Weight(e), Size(e), n
  {
    hide Width, Weight, Rewritten, Kids, Size, ValidReplacer, SumWeight, Occurs;
    if n > 0 {
      KidWeight(e, n - 1);
      KidWidth(e, n - 1);
      KidsChange(v, e, n - 1);
      RewrittenChanges(v, Kids(e)[n - 1]);
    }
  }

  /** What is to be replaced is replaced by the constant given for it, unless a part of
      it goes first. */
  lemma RewrittenKey(v: Replacer, e: Expr)
    requires ValidReplacer(v) && Width(e) > 0 && !e.Constant? && Replaces(v, e)
    requires v.ReplaceOne? || forall i :: 0 <= i < |Kids(e)| ==> !Occurs(v, Kids(e)[i])
    ensures Rewritten(v, e) == Replacement(v, e)
  {
    hide Width, Weight, Rebuild, Kids, Size, SumWeight, Occurs;
    if v.ReplaceAll? {
      KidsChange(v, e, |Kids(e)|);
      assert RewrittenKids(v, e, |Kids(e)|) == Kids(e);
    }
  }

  /** A visit never ends at something that is to be replaced. */
  lemma RewrittenRoot(v: Replacer, e: Expr)
    requires ValidReplacer(v) && Width(e) > 0
    ensures Rewritten(v, e).Constant? || !Replaces(v, Rewritten(v, e))
  {
    hide Width, Weight, Post, Rebuild, Kids, Size, SumWeight;
    if !e.Constant? && !(v.ReplaceOne? && e == v.src) {
      var kids := RewrittenKids(v, e, |Kids(e)|);
      assert Kids(e)[..|Kids(e)|] == Kids(e);
      PostChanges(v, e);
      if kids != Kids(e) {
        var b := Rebuilt(e, kids);
        PostChanges(v, b);
        if v.ReplaceAll? {
          PostChanges(v, Rewritten(v, b));
        }
      }
    }
  }

  /** Simplification goes all the way: nothing that is to be replaced is left, although
      rebuilding can bring new parts about. */
  lemma {:induction false} RewrittenNormal(m: map<Expr, Expr>, e: Expr)
    requires ValidReplacer(ReplaceAll(m)) && Width(e) > 0
    ensures !Occurs(ReplaceAll(m), Rewritten(ReplaceAll(m), e))
    decreases Weight(e)
  {
    hide Width, Weight, Post, Rebuild, Kids, Size, SumWeight, Occurs, ValidReplacer;
    var v := ReplaceAll(m);
    var r := Rewritten(v, e);
    OccursStep(v, r);
    if !e.Constant? {
      var kids := RewrittenKids(v, e, |Kids(e)|);
      assert Kids(e)[..|Kids(e)|] == Kids(e);
      if kids == Kids(e) {
        KidsChange(v, e, |Kids(e)|);
        PostChanges(v, e);
      } else {
        var b := Rebuilt(e, kids);
        RewrittenNormal(m, b);
        OccursStep(v, Rewritten(v, b));
        PostChanges(v, Rewritten(v, b));
      }
    }
  }

  lemma PostCanonical(v: Replacer, e: Expr)
    requires ValidReplacer(v) && Width(e) > 0 && Canonical(e)
    ensures Canonical(Post(v, e))
  {
    hide Width, Canonical;
    PostChanges(v, e);
    if Post(v, e) != e {
      CanonicalConstant(Post(v, e));
    }
  }

  /** Rewriting keeps the canonical form. */
  lemma {:induction false} RewrittenCanonical(v: Replacer, e: Expr)
    requires ValidReplacer(v) && Width(e) > 0 && Canonical(e)
    ensures Canonical(Rewritten(v, e))
    decreases Weight(e), Size(e), 10
  {
    hide Width, Weight, Post, Rebuild, Kids, Size, SumWeight, Canonical;
    if !e.Constant? {
      if v.ReplaceOne? && e == v.src {
        CanonicalConstant(v.dst);
      } else {
        var kids := RewrittenKids(v, e, |Kids(e)|);
        assert Kids(e)[..|Kids(e)|] == Kids(e);
        PostCanonical(v, e);
        if kids != Kids(e) {
          RewrittenKidsCanonical(v, e, |Kids(e)|);
          RebuildCanonical(e, kids);
          var b := Rebuilt(e, kids);
          PostCanonical(v, b);
          if v.ReplaceAll? {
            RewrittenCanonical(v, b);
            PostCanonical(v, Rewritten(v, b));
          }
        }
      }
    }
  }

  lemma {:induction false} RewrittenKidsCanonical(v: Replacer, e: Expr, n: nat)
    requires ValidReplacer(v) && Width(e) > 0 && n <= |Kids(e)| && Canonical(e)
    ensures forall i :: 0 <= i < n ==> Canonical(RewrittenKids(v, e, n)[i])
    decreases Weight(e), Size(e), n
  {
    hide Width, Weight, Rewritten, Kids, Size, ValidReplacer, SumWeight, Canonical;
    if n > 0 {
      KidWeight(e, n - 1);
      KidWidth(e, n - 1);
      KidCanonical(e, n - 1);
      RewrittenKidsCanonical(v, e, n - 1);
      RewrittenCanonical(v, Kids(e)[n - 1]);
    }
  }

  lemma KidCanonical(e: Expr, i: nat)
    requires Canonical(e) && i < |Kids(e)|
    ensures Canonical(Kids(e)[i])
  {
  }

  // ------------------------------------------------------ the memoised visitor

  class ExprVisitor {
    const replacer: Replacer
    var visited: map<Expr, Expr>

    /** The memo table holds results of earlier visits. */
    ghost predicate Valid()
      reads this
    {
      ValidReplacer(replacer)
      && forall k :: k in visited ==> Width(k) > 0 && visited[k] == Rewritten(replacer, k)
    }

    constructor (v: Replacer)
      requires ValidReplacer(v)
      ensures Valid() && replacer == v
    {
      replacer := v;
      visited := map[];
    }

    method Visit(e: Expr) returns (r: Expr)
      requires Valid() && Width(e) > 0
      modifies this
      ensures Valid() && r == Rewritten(replacer, e)
      decreases Weight(e), Size(e), 20
    {
      if e.Constant? {
        r := VisitActual(e);
      } else if e in visited {
        r := visited[e];
      } else {
        r := VisitActual(e);
        visited := visited[e := r];
      }
    }

    method VisitActual(e: Expr) returns (r: Expr)
      requires Valid() && Width(e) > 0
      modifies this
      ensures Valid() && r == Rewritten(replacer, e)
      decreases Weight(e), Size(e), 15
    {
      hide Width, Weight, Rebuild, Kids, Size, SumWeight, Post, ValidReplacer;
      if e.Constant? {
        return e;
      }
      if replacer.ReplaceOne? && e == replacer.src {
        return replacer.dst;
      }
      var kids, rebuild := VisitKids(e);
      assert Kids(e)[..|Kids(e)|] == Kids(e);
      r := e;
      if rebuild {
        r := Rebuilt(e, kids);
        if replacer.ReplaceAll? {
          r := Visit(r);
        }
      }
      r := Post(replacer, r);
    }

    method VisitKids(e: Expr) returns (kids: seq<Expr>, rebuild: bool)
      requires Valid() && Width(e) > 0
      modifies this
      ensures Valid() && kids == RewrittenKids(replacer, e, |Kids(e)|)
      ensures rebuild <==> kids != Kids(e)
      decreases Weight(e), Size(e), 10
    {
      hide Width, Weight, Rewritten, Kids, Size, SumWeight, ValidReplacer;
      rebuild, kids := false, [];
      var i := 0;
      while i < |Kids(e)|
        invariant 0 <= i <= |Kids(e)|
        invariant Valid() && kids == RewrittenKids(replacer, e, i)
        invariant rebuild <==> kids != Kids(e)[..i]
      {
        KidWeight(e, i);
        KidWidth(e, i);
        var kid := Visit(Kids(e)[i]);
        if kid != Kids(e)[i] {
          rebuild := true;
        }
        assert Kids(e)[..i + 1] == Kids(e)[..i] + [Kids(e)[i]];
        kids := kids + [kid];
        i := i + 1;
      }
      assert Kids(e)[..|Kids(e)|] == Kids(e);
    }
  }
}
