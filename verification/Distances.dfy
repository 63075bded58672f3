/**
 Shortest distances through a program with calls, found by relaxing every
 instruction until nothing changes. Zero stands for "unreachable".
 */
module Distances {
  /** Instructions and functions are known by their numbers. */
  datatype Kind = Plain | Return | Call(targets: seq<nat>)

  datatype Instr = Instr(kind: Kind, succs: seq<nat>, parent: nat)

  datatype Function = Defined(entry: nat) | Declared(comesBack: bool)

  datatype Module = Module(instrs: seq<Instr>, functions: seq<Function>)

  predicate InstrOk(p: Module, i: Instr) {
    i.parent < |p.functions|
    && (forall j :: 0 <= j < |i.succs| ==> i.succs[j] < |p.instrs|)
    && (i.kind.Return? ==> i.succs == [])
    && (i.kind.Call? ==> forall t :: 0 <= t < |i.kind.targets| ==> i.kind.targets[t] < |p.functions|)
  }

  predicate ModuleOk(p: Module) {
    (forall i :: 0 <= i < |p.instrs| ==> InstrOk(p, p.instrs[i]))
    && (forall f :: 0 <= f < |p.functions| && p.functions[f].Defined? ==>
          p.functions[f].entry < |p.instrs| && p.instrs[p.functions[f].entry].parent == f)
  }

  predicate IsEntry(p: Module, i: nat)
    requires ModuleOk(p) && i < |p.instrs|
  {
    p.functions[p.instrs[i].parent] == Defined(i)
  }

  // ------------------------------------------------------------------ paths to a return

  /** A way from an instruction to a return of its function. */
  datatype Walk =
    | Stop(at: nat)
    | Go(at: nat, rest: Walk)
    | Pass(at: nat, trip: Trip, rest: Walk)

  /** A way through a function. */
  datatype Trip = Inside(f: nat, body: Walk) | Outside(f: nat)

  function Cost(w: Walk): (c: nat)
    ensures c > 0
  {
    match w
    case Stop(_) => 1
    case Go(_, rest) => 1 + Cost(rest)
    case Pass(_, trip, rest) => 1 + TripCost(trip) + Cost(rest)
  }

  function TripCost(t: Trip): (c: nat)
    ensures c > 0
  {
    match t
    case Inside(_, body) => Cost(body)
    case Outside(_) => 1
  }

  predicate WalkOk(p: Module, w: Walk)
    requires ModuleOk(p)
  {
    w.at < |p.instrs|
    && match w
       case Stop(i) => p.instrs[i].kind.Return?
       case Go(i, rest) => p.instrs[i].kind.Plain? && rest.at in p.instrs[i].succs && WalkOk(p, rest)
       case Pass(i, trip, rest) =>
         p.instrs[i].kind.Call? && trip.f in p.instrs[i].kind.targets && TripOk(p, trip)
         && rest.at in p.instrs[i].succs && WalkOk(p, rest)
  }

  predicate TripOk(p: Module, t: Trip)
    requires ModuleOk(p)
  {
    t.f < |p.functions|
    && match t
       case Inside(f, body) => p.functions[f] == Defined(body.at) && WalkOk(p, body)
       case Outside(f) => p.functions[f] == Declared(true)
  }

  // --------------------------------------------------------------- one relaxation

  /** The least cost of passing an instruction, given what is known of its first `k`
      targets. */
  function Through(shortest: seq<nat>, targets: seq<nat>, k: nat): nat
    requires k <= |targets| && forall t :: 0 <= t < |targets| ==> targets[t] < |shortest|
  {
    if k == 0 then 0
    else
      var best, dist := Through(shortest, targets, k - 1), shortest[targets[k - 1]];
      if dist > 0 && (best == 0 || 1 + dist < best) then 1 + dist else best
  }

  function PassCost(p: Module, shortest: seq<nat>, i: nat): nat
    requires ModuleOk(p) && |shortest| == |p.functions| && i < |p.instrs|
  {
    var inst := p.instrs[i];
    assert InstrOk(p, inst);
    if inst.kind.Call? then Through(shortest, inst.kind.targets, |inst.kind.targets|) else 1
  }

  /** The better of `cur` and of going on to one of the first `k` successors. */
  function Best(dist: seq<nat>, through: nat, cur: nat, succs: seq<nat>, k: nat): nat
    requires k <= |succs| && forall j :: 0 <= j < |succs| ==> succs[j] < |dist|
  {
    if k == 0 then cur
    else
      var best, d := Best(dist, through, cur, succs, k - 1), dist[succs[k - 1]];
      if d > 0 && (best == 0 || through + d < best) then through + d else best
  }

  lemma {:induction false} ThroughLeast(shortest: seq<nat>, targets: seq<nat>, k: nat)
    requires k <= |targets| && forall t :: 0 <= t < |targets| ==> targets[t] < |shortest|
    ensures var r := Through(shortest, targets, k);
            (r > 0 ==> exists t :: 0 <= t < k && shortest[targets[t]] > 0 && r == 1 + shortest[targets[t]])
            && (forall t :: 0 <= t < k && shortest[targets[t]] > 0 ==> 0 < r <= 1 + shortest[targets[t]])
  {
    if k > 0 {
      ThroughLeast(shortest, targets, k - 1);
    }
  }

  lemma {:induction false} BestLeast(dist: seq<nat>, through: nat, cur: nat, succs: seq<nat>, k: nat)
    requires k <= |succs| && forall j :: 0 <= j < |succs| ==> succs[j] < |dist|
    ensures var r := Best(dist, through, cur, succs, k);
            (r == cur || exists j :: 0 <= j < k && dist[succs[j]] > 0 && r == through + dist[succs[j]])
            && (forall j :: 0 <= j < k && dist[succs[j]] > 0 ==> 0 < r <= through + dist[succs[j]])
            && (cur > 0 ==> 0 < r <= cur)
  {
    if k > 0 {
      BestLeast(dist, through, cur, succs, k - 1);
    }
  }

  // ------------------------------------------------------------------- what is known

  ghost predicate Walkable(p: Module, i: nat, c: nat)
    requires ModuleOk(p)
  {
    exists w :: WalkOk(p, w) && w.at == i && Cost(w) == c
  }

  ghost predicate Trippable(p: Module, f: nat, c: nat)
    requires ModuleOk(p)
  {
    exists t :: TripOk(p, t) && t.f == f && TripCost(t) == c
  }

  predicate Sized(p: Module, dist: seq<nat>, shortest: seq<nat>) {
    |dist| == |p.instrs| && |shortest| == |p.functions|
  }

  /** What is known of one instruction: a found distance is that of a real walk. */
  ghost predicate InstrKnown(p: Module, dist: seq<nat>, shortest: seq<nat>, i: nat)
    requires ModuleOk(p) && Sized(p, dist, shortest) && i < |dist|
  {
    (dist[i] > 0 ==> Walkable(p, i, dist[i]) && PassCost(p, shortest, i) > 0)
    && (p.instrs[i].kind.Return? ==> dist[i] == 1)
  }

  ghost predicate FunctionKnown(p: Module, dist: seq<nat>, shortest: seq<nat>, f: nat)
    requires ModuleOk(p) && Sized(p, dist, shortest) && f < |shortest|
  {
    (shortest[f] > 0 ==> Trippable(p, f, shortest[f]))
    && match p.functions[f]
       case Defined(entry) => shortest[f] == 0 || shortest[f] == dist[entry]
       case Declared(comesBack) => shortest[f] == if comesBack then 1 else 0
  }

  ghost predicate Known(p: Module, dist: seq<nat>, shortest: seq<nat>)
    requires ModuleOk(p)
  {
    Sized(p, dist, shortest)
    && (forall i :: 0 <= i < |dist| ==> InstrKnown(p, dist, shortest, i))
    && (forall f :: 0 <= f < |shortest| ==> FunctionKnown(p, dist, shortest, f))
  }

  /** Relaxing instruction `i` would change nothing. */
  predicate Settled(p: Module, dist: seq<nat>, shortest: seq<nat>, i: nat)
    requires ModuleOk(p) && Sized(p, dist, shortest) && i < |dist|
  {
    assert InstrOk(p, p.instrs[i]);
    var through := PassCost(p, shortest, i);
    through > 0 ==>
      (Best(dist, through, dist[i], p.instrs[i].succs, |p.instrs[i].succs|) == dist[i]
       && (IsEntry(p, i) ==> shortest[p.instrs[i].parent] == dist[i]))
  }

  /** A distance of zero means that there is no walk, any other is that of a shortest
      one; and so for the functions. */
  ghost predicate Exact(p: Module, dist: seq<nat>, shortest: seq<nat>)
    requires ModuleOk(p)
  {
    Sized(p, dist, shortest)
    && (forall i :: 0 <= i < |dist| && dist[i] > 0 ==> Walkable(p, i, dist[i]))
    && (forall w :: WalkOk(p, w) ==> 0 < dist[w.at] <= Cost(w))
    && (forall f :: 0 <= f < |shortest| && shortest[f] > 0 ==> Trippable(p, f, shortest[f]))
    && (forall t :: TripOk(p, t) ==> 0 < shortest[t.f] <= TripCost(t))
  }

  /** When everything is settled, no walk is cheaper than what was found. */
  lemma {:induction false} WalkBound(p: Module, dist: seq<nat>, shortest: seq<nat>, w: Walk)
    requires ModuleOk(p) && Known(p, dist, shortest) && WalkOk(p, w)
    requires forall i :: 0 <= i < |dist| ==> Settled(p, dist, shortest, i)
    ensures 0 < dist[w.at] <= Cost(w)
    decreases w
  {
    hide Walkable, FunctionKnown, IsEntry, Best, Through;
    assert InstrKnown(p, dist, shortest, w.at) && Settled(p, dist, shortest, w.at);
    match w
    case Stop(_) =>
    case Go(i, rest) =>
      WalkBound(p, dist, shortest, rest);
      NextBound(p, dist, shortest, i, rest.at);
    case Pass(i, trip, rest) =>
      WalkBound(p, dist, shortest, rest);
      TripBound(p, dist, shortest, trip);
      PassBound(p, shortest, i, trip.f);
      NextBound(p, dist, shortest, i, rest.at);
  }

  lemma {:induction false} TripBound(p: Module, dist: seq<nat>, shortest: seq<nat>, t: Trip)
    requires ModuleOk(p) && Known(p, dist, shortest) && TripOk(p, t)
    requires forall i :: 0 <= i < |dist| ==> Settled(p, dist, shortest, i)
    ensures 0 < shortest[t.f] <= TripCost(t)
    decreases t
  {
    hide Walkable, Trippable, Best, Through;
    assert FunctionKnown(p, dist, shortest, t.f);
    match t
    case Outside(_) =>
    case Inside(f, body) =>
      WalkBound(p, dist, shortest, body);
      assert InstrKnown(p, dist, shortest, body.at) && Settled(p, dist, shortest, body.at);
  }

  lemma NextBound(p: Module, dist: seq<nat>, shortest: seq<nat>, i: nat, j: nat)
    requires ModuleOk(p) && Sized(p, dist, shortest) && i < |dist| && j in p.instrs[i].succs && j < |dist|
    requires Settled(p, dist, shortest, i) && PassCost(p, shortest, i) > 0 && dist[j] > 0
    ensures 0 < dist[i] <= PassCost(p, shortest, i) + dist[j]
  {
    hide Best, PassCost;
    assert InstrOk(p, p.instrs[i]);
    var succs := p.instrs[i].succs;
    BestLeast(dist, PassCost(p, shortest, i), dist[i], succs, |succs|);
    var k :| 0 <= k < |succs| && succs[k] == j;
  }

  lemma PassBound(p: Module, shortest: seq<nat>, i: nat, f: nat)
    requires ModuleOk(p) && |shortest| == |p.functions| && i < |p.instrs| && p.instrs[i].kind.Call?
    requires f in p.instrs[i].kind.targets && f < |shortest| && shortest[f] > 0
    ensures 0 < PassCost(p, shortest, i) <= 1 + shortest[f]
  {
    hide Through;
    assert InstrOk(p, p.instrs[i]);
    var targets := p.instrs[i].kind.targets;
    ThroughLeast(shortest, targets, |targets|);
    var k :| 0 <= k < |targets| && targets[k] == f;
  }

  /** The end of the iteration: nothing left to relax means the distances are exact. */
  lemma SettledExact(p: Module, dist: seq<nat>, shortest: seq<nat>)
    requires ModuleOk(p) && Known(p, dist, shortest)
    requires forall i :: 0 <= i < |dist| ==> Settled(p, dist, shortest, i)
    ensures Exact(p, dist, shortest)
  {
    hide Settled, Walkable, Trippable;
    forall w | WalkOk(p, w) ensures 0 < dist[w.at] <= Cost(w) {
      WalkBound(p, dist, shortest, w);
    }
    forall t | TripOk(p, t) ensures 0 < shortest[t.f] <= TripCost(t) {
      TripBound(p, dist, shortest, t);
    }
    forall i | 0 <= i < |dist| && dist[i] > 0 ensures Walkable(p, i, dist[i]) {
      assert InstrKnown(p, dist, shortest, i);
    }
    forall f | 0 <= f < |shortest| && shortest[f] > 0 ensures Trippable(p, f, shortest[f]) {
      assert FunctionKnown(p, dist, shortest, f);
    }
  }

  // ----------------------------------------------------- what relaxation keeps

  /** The tables after relaxing instruction `i` to `best`. */
  function NewShortest(p: Module, shortest: seq<nat>, i: nat, best: nat): (s: seq<nat>)
    requires ModuleOk(p) && |shortest| == |p.functions| && i < |p.instrs|
    ensures |s| == |shortest|
  {
    if IsEntry(p, i) then shortest[p.instrs[i].parent := best] else shortest
  }

  function BestAt(p: Module, dist: seq<nat>, shortest: seq<nat>, i: nat): nat
    requires ModuleOk(p) && Sized(p, dist, shortest) && i < |dist|
  {
    assert InstrOk(p, p.instrs[i]);
    Best(dist, PassCost(p, shortest, i), dist[i], p.instrs[i].succs, |p.instrs[i].succs|)
  }

  lemma ThroughPositive(shortest: seq<nat>, shortest': seq<nat>, targets: seq<nat>)
    requires |shortest'| == |shortest| && forall t :: 0 <= t < |targets| ==> targets[t] < |shortest|
    requires forall f :: 0 <= f < |shortest| && shortest[f] > 0 ==> shortest'[f] > 0
    requires Through(shortest, targets, |targets|) > 0
    ensures Through(shortest', targets, |targets|) > 0
  {
    ThroughLeast(shortest, targets, |targets|);
    ThroughLeast(shortest', targets, |targets|);
  }

  /** A found distance is that of a walk made of what was known before. */
  lemma BestWalkable(p: Module, dist: seq<nat>, shortest: seq<nat>, i: nat)
    requires ModuleOk(p) && Known(p, dist, shortest) && i < |dist| && PassCost(p, shortest, i) > 0
    requires BestAt(p, dist, shortest, i) > 0
    ensures Walkable(p, i, BestAt(p, dist, shortest, i))
  {
    hide Best, Through, FunctionKnown;
    assert InstrOk(p, p.instrs[i]) && InstrKnown(p, dist, shortest, i);
    var inst, through, best := p.instrs[i], PassCost(p, shortest, i), BestAt(p, dist, shortest, i);
    BestLeast(dist, through, dist[i], inst.succs, |inst.succs|);
    if best != dist[i] {
      var k :| 0 <= k < |inst.succs| && dist[inst.succs[k]] > 0 && best == through + dist[inst.succs[k]];
      var j := inst.succs[k];
      assert InstrKnown(p, dist, shortest, j);
      var rest :| WalkOk(p, rest) && rest.at == j && Cost(rest) == dist[j];
      if inst.kind.Plain? {
        var w := Go(i, rest);
        assert WalkOk(p, w) && w.at == i && Cost(w) == best;
      } else {
        var trip := CheapTrip(p, dist, shortest, i);
        var w := Pass(i, trip, rest);
        assert WalkOk(p, w) && w.at == i && Cost(w) == best;
      }
    }
  }

  lemma CheapTrip(p: Module, dist: seq<nat>, shortest: seq<nat>, i: nat) returns (trip: Trip)
    requires ModuleOk(p) && Known(p, dist, shortest) && i < |dist| && p.instrs[i].kind.Call?
    requires PassCost(p, shortest, i) > 0
    ensures TripOk(p, trip) && trip.f in p.instrs[i].kind.targets && 1 + TripCost(trip) == PassCost(p, shortest, i)
  {
    hide Best, Through, InstrKnown;
    assert InstrOk(p, p.instrs[i]);
    var targets := p.instrs[i].kind.targets;
    ThroughLeast(shortest, targets, |targets|);
    var t :| 0 <= t < |targets| && shortest[targets[t]] > 0 && PassCost(p, shortest, i) == 1 + shortest[targets[t]];
    assert FunctionKnown(p, dist, shortest, targets[t]);
    trip :| TripOk(p, trip) && trip.f == targets[t] && TripCost(trip) == shortest[targets[t]];
  }

  lemma RelaxedInstr(p: Module, dist: seq<nat>, shortest: seq<nat>, i: nat, j: nat)
    requires ModuleOk(p) && Known(p, dist, shortest) && i < |dist| && j < |dist|
    requires PassCost(p, shortest, i) > 0 && BestAt(p, dist, shortest, i) > 0
    ensures var best := BestAt(p, dist, shortest, i);
            InstrKnown(p, dist[i := best], NewShortest(p, shortest, i, best), j)
  {
    hide Best, Through, Walkable, FunctionKnown;
    var best := BestAt(p, dist, shortest, i);
    assert InstrOk(p, p.instrs[j]) && InstrOk(p, p.instrs[i]);
    assert InstrKnown(p, dist, shortest, j);
    BestWalkable(p, dist, shortest, i);
    if p.instrs[j].kind.Call? && PassCost(p, shortest, j) > 0 {
      ThroughPositive(shortest, NewShortest(p, shortest, i, best), p.instrs[j].kind.targets);
    }
    if p.instrs[i].kind.Return? {
      BestLeast(dist, PassCost(p, shortest, i), dist[i], [], 0);
    }
  }

  lemma RelaxedFunction(p: Module, dist: seq<nat>, shortest: seq<nat>, i: nat, f: nat)
    requires ModuleOk(p) && Known(p, dist, shortest) && i < |dist| && f < |shortest|
    requires PassCost(p, shortest, i) > 0 && BestAt(p, dist, shortest, i) > 0
    requires BestAt(p, dist, shortest, i) != dist[i] || IsEntry(p, i)
    ensures var best := BestAt(p, dist, shortest, i);
            FunctionKnown(p, dist[i := best], NewShortest(p, shortest, i, best), f)
  {
    hide Best, Through, InstrKnown;
    var best := BestAt(p, dist, shortest, i);
    assert FunctionKnown(p, dist, shortest, f);
    BestWalkable(p, dist, shortest, i);
    if p.functions[f] == Defined(i) {
      assert p.instrs[i].parent == f;
      var w :| WalkOk(p, w) && w.at == i && Cost(w) == best;
      assert TripOk(p, Inside(f, w)) && TripCost(Inside(f, w)) == best;
    }
  }

  lemma RelaxedKnown(p: Module, dist: seq<nat>, shortest: seq<nat>, i: nat)
    requires ModuleOk(p) && Known(p, dist, shortest) && i < |dist|
    requires PassCost(p, shortest, i) > 0 && BestAt(p, dist, shortest, i) > 0
    requires BestAt(p, dist, shortest, i) != dist[i] || IsEntry(p, i)
    ensures var best := BestAt(p, dist, shortest, i);
            Known(p, dist[i := best], NewShortest(p, shortest, i, best))
  {
    hide InstrKnown, FunctionKnown, BestAt, PassCost;
    var best := BestAt(p, dist, shortest, i);
    var dist', shortest' := dist[i := best], NewShortest(p, shortest, i, best);
    forall j | 0 <= j < |dist'| ensures InstrKnown(p, dist', shortest', j) {
      RelaxedInstr(p, dist, shortest, i, j);
    }
    forall f | 0 <= f < |shortest'| ensures FunctionKnown(p, dist', shortest', f) {
      RelaxedFunction(p, dist, shortest, i, f);
    }
  }

  // -------------------------------------------------------------------- termination

  function Zeros(s: seq<nat>): nat {
    if s == [] then 0 else Zeros(s[..|s| - 1]) + if s[|s| - 1] == 0 then 1 else 0
  }

  function Sum(s: seq<nat>): nat {
    if s == [] then 0 else Sum(s[..|s| - 1]) + s[|s| - 1]
  }

  lemma {:induction false} Updated(s: seq<nat>, i: nat, v: nat)
    requires i < |s|
    ensures Zeros(s[i := v]) == Zeros(s) - (if s[i] == 0 then 1 else 0) + (if v == 0 then 1 else 0)
    ensures Sum(s[i := v]) == Sum(s) - s[i] + v
  {
    var n := |s| - 1;
    if i == n {
      assert s[i := v][..n] == s[..n];
    } else {
      Updated(s[..n], i, v);
      assert s[i := v][..n] == s[..n][i := v];
    }
  }

  /** Fewer unreachable entries, or as many and smaller distances. */
  predicate Progress(dist: seq<nat>, shortest: seq<nat>, dist': seq<nat>, shortest': seq<nat>) {
    var z, z' := Zeros(dist) + Zeros(shortest), Zeros(dist') + Zeros(shortest');
    z' < z || (z' == z && Sum(dist') + Sum(shortest') < Sum(dist) + Sum(shortest))
  }

  lemma RelaxedProgress(p: Module, dist: seq<nat>, shortest: seq<nat>, i: nat)
    requires ModuleOk(p) && Known(p, dist, shortest) && i < |dist| && PassCost(p, shortest, i) > 0
    requires var best := BestAt(p, dist, shortest, i);
             best != dist[i] || (IsEntry(p, i) && shortest[p.instrs[i].parent] != best)
    ensures var best := BestAt(p, dist, shortest, i);
            best > 0 && Progress(dist, shortest, dist[i := best], NewShortest(p, shortest, i, best))
  {
    hide Best, Through, Walkable, Trippable, Zeros, Sum;
    var best := BestAt(p, dist, shortest, i);
    assert InstrOk(p, p.instrs[i]);
    var succs, f := p.instrs[i].succs, p.instrs[i].parent;
    BestLeast(dist, PassCost(p, shortest, i), dist[i], succs, |succs|);
    assert FunctionKnown(p, dist, shortest, f);
    Updated(dist, i, best);
    Updated(shortest, f, best);
  }

  // ---------------------------------------------------------------------- the loops

  /** The scan over the targets of a call. */
  method BestThrough(p: Module, shortest: array<nat>, i: nat) returns (best: nat)
    requires ModuleOk(p) && shortest.Length == |p.functions| && i < |p.instrs|
    ensures best == PassCost(p, shortest[..], i)
  {
    assert InstrOk(p, p.instrs[i]);
    if !p.instrs[i].kind.Call? {
      return 1;
    }
    var targets := p.instrs[i].kind.targets;
    best := 0;
    for k := 0 to |targets|
      invariant best == Through(shortest[..], targets, k)
    {
      var dist := shortest[targets[k]];
      if dist > 0 {
        dist := 1 + dist;
        if best == 0 || dist < best {
          best := dist;
        }
      }
    }
  }

  /** The scan over the successors. */
  method BestNext(dist: array<nat>, through: nat, cur: nat, succs: seq<nat>) returns (best: nat)
    requires forall j :: 0 <= j < |succs| ==> succs[j] < dist.Length
    ensures best == Best(dist[..], through, cur, succs, |succs|)
  {
    best := cur;
    for k := 0 to |succs|
      invariant best == Best(dist[..], through, cur, succs, k)
    {
      var d := dist[succs[k]];
      if d > 0 {
        var val := through + d;
        if best == 0 || val < best {
          best := val;
        }
      }
    }
  }

  /** One instruction: the shortest way through its function is updated with its entry. */
  method Relax(p: Module, dist: array<nat>, shortest: array<nat>, i: nat) returns (changed: bool)
    requires ModuleOk(p) && Known(p, dist[..], shortest[..]) && i < |p.instrs| && dist != shortest
    modifies dist, shortest
    ensures Known(p, dist[..], shortest[..])
    ensures !changed ==>
      dist[..] == old(dist[..]) && shortest[..] == old(shortest[..]) && Settled(p, dist[..], shortest[..], i)
    ensures changed ==> Progress(old(dist[..]), old(shortest[..]), dist[..], shortest[..])
  {
    hide InstrKnown, FunctionKnown, Best, PassCost, Progress;
    assert InstrOk(p, p.instrs[i]);
    ghost var d, s := dist[..], shortest[..];
    changed := false;
    var through := BestThrough(p, shortest, i);
    if through > 0 {
      var cur := dist[i];
      var best := BestNext(dist, through, cur, p.instrs[i].succs);
      var f := p.instrs[i].parent;
      if best != cur || (IsEntry(p, i) && shortest[f] != best) {
        RelaxedProgress(p, d, s, i);
        RelaxedKnown(p, d, s, i);
        dist[i] := best;
        changed := true;
        if IsEntry(p, i) {
          shortest[f] := best;
        }
        assert dist[..] == d[i := best] && shortest[..] == NewShortest(p, s, i, best);
      }
    }
  }

  /** One pass over all instructions, the last first. */
  method Sweep(p: Module, dist: array<nat>, shortest: array<nat>) returns (changed: bool)
    requires ModuleOk(p) && Known(p, dist[..], shortest[..]) && dist != shortest
    modifies dist, shortest
    ensures Known(p, dist[..], shortest[..])
    ensures !changed ==> forall i :: 0 <= i < |p.instrs| ==> Settled(p, dist[..], shortest[..], i)
    ensures changed ==> Progress(old(dist[..]), old(shortest[..]), dist[..], shortest[..])
  {
    hide InstrKnown, FunctionKnown, Settled, Zeros, Sum;
    changed := false;
    var i := |p.instrs|;
    while i > 0
      invariant 0 <= i <= |p.instrs| && Known(p, dist[..], shortest[..])
      invariant !changed ==> dist[..] == old(dist[..]) && shortest[..] == old(shortest[..])
      invariant !changed ==> forall j :: i <= j < |p.instrs| ==> Settled(p, dist[..], shortest[..], j)
      invariant changed ==> Progress(old(dist[..]), old(shortest[..]), dist[..], shortest[..])
    {
      i := i - 1;
      var c := Relax(p, dist, shortest, i);
      changed := changed || c;
    }
  }

  /** Distances to a return for all instructions and functions of a program, recursive
      or not. */
  method MinDistToReturn(p: Module) returns (dist: array<nat>, shortest: array<nat>)
    requires ModuleOk(p)
    ensures fresh(dist) && fresh(shortest) && Exact(p, dist[..], shortest[..])
  {
    hide InstrKnown, FunctionKnown, Settled, Exact, Zeros, Sum;
    shortest := new nat[|p.functions|](f requires 0 <= f < |p.functions| =>
      if p.functions[f].Declared? && p.functions[f].comesBack then 1 else 0);
    dist := new nat[|p.instrs|](i requires 0 <= i < |p.instrs| => if p.instrs[i].kind.Return? then 1 else 0);
    InitiallyKnown(p, dist[..], shortest[..]);
    var changed := true;
    while changed
      invariant Known(p, dist[..], shortest[..])
      invariant !changed ==> forall i :: 0 <= i < |p.instrs| ==> Settled(p, dist[..], shortest[..], i)
      decreases changed, Zeros(dist[..]) + Zeros(shortest[..]), Sum(dist[..]) + Sum(shortest[..])
    {
      changed := Sweep(p, dist, shortest);
    }
    SettledExact(p, dist[..], shortest[..]);
  }

  lemma InitiallyKnown(p: Module, dist: seq<nat>, shortest: seq<nat>)
    requires ModuleOk(p) && Sized(p, dist, shortest)
    requires forall f :: 0 <= f < |shortest| ==>
      shortest[f] == if p.functions[f].Declared? && p.functions[f].comesBack then 1 else 0
    requires forall i :: 0 <= i < |dist| ==> dist[i] == if p.instrs[i].kind.Return? then 1 else 0
    ensures Known(p, dist, shortest)
  {
    forall i | 0 <= i < |dist| ensures InstrKnown(p, dist, shortest, i) {
      if dist[i] > 0 {
        assert WalkOk(p, Stop(i)) && Cost(Stop(i)) == 1;
      }
    }
    forall f | 0 <= f < |shortest| ensures FunctionKnown(p, dist, shortest, f) {
      if shortest[f] > 0 {
        assert TripOk(p, Outside(f)) && TripCost(Outside(f)) == 1;
      }
    }
  }
}
