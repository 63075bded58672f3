/**
 Distances to uncovered instructions, which may be further on in the function, inside
 a called function, or behind a call that returns.
 */
module Uncovered {
  import opened Distances

  /** A way to an uncovered instruction. */
  datatype Hunt =
    | Here(at: nat)
    | Skip(at: nat, rest: Hunt)
    | Past(at: nat, trip: Trip, rest: Hunt)
    | Into(at: nat, f: nat, rest: Hunt)

  /** `uncovered` is positive at the instructions to be found. */
  function HuntCost(uncovered: seq<nat>, h: Hunt): nat {
    match h
    case Here(i) => if i < |uncovered| then uncovered[i] else 0
    case Skip(_, rest) => 1 + HuntCost(uncovered, rest)
    case Past(_, trip, rest) => 1 + TripCost(trip) + HuntCost(uncovered, rest)
    case Into(_, _, rest) => 1 + HuntCost(uncovered, rest)
  }

  predicate HuntOk(p: Module, uncovered: seq<nat>, h: Hunt)
    requires ModuleOk(p)
  {
    h.at < |p.instrs|
    && match h
       case Here(i) => i < |uncovered| && uncovered[i] > 0
       case Skip(i, rest) => !p.instrs[i].kind.Call? && rest.at in p.instrs[i].succs && HuntOk(p, uncovered, rest)
       case Past(i, trip, rest) =>
         p.instrs[i].kind.Call? && trip.f in p.instrs[i].kind.targets && TripOk(p, trip)
         && rest.at in p.instrs[i].succs && HuntOk(p, uncovered, rest)
       case Into(i, f, rest) =>
         p.instrs[i].kind.Call? && f in p.instrs[i].kind.targets && f < |p.functions|
         && p.functions[f] == Defined(rest.at) && HuntOk(p, uncovered, rest)
  }

  ghost predicate Huntable(p: Module, uncovered: seq<nat>, i: nat, c: nat)
    requires ModuleOk(p)
  {
    exists h :: HuntOk(p, uncovered, h) && h.at == i && HuntCost(uncovered, h) == c
  }

  // --------------------------------------------------------------- one relaxation

  /** What is known at the start of a function that has a body, else zero. */
  function CalleeDist(p: Module, dist: seq<nat>, f: nat): nat
    requires ModuleOk(p) && |dist| == |p.instrs| && f < |p.functions|
  {
    if p.functions[f].Defined? then dist[p.functions[f].entry] else 0
  }

  /** The better of `cur` and of going into one of the first `k` targets. */
  function BestInto(p: Module, dist: seq<nat>, cur: nat, targets: seq<nat>, k: nat): nat
    requires ModuleOk(p) && |dist| == |p.instrs|
    requires k <= |targets| && forall t :: 0 <= t < |targets| ==> targets[t] < |p.functions|
  {
    if k == 0 then cur
    else
      var best, d := BestInto(p, dist, cur, targets, k - 1), CalleeDist(p, dist, targets[k - 1]);
      if d > 0 && (best == 0 || 1 + d < best) then 1 + d else best
  }

  function BestInside(p: Module, dist: seq<nat>, i: nat): nat
    requires ModuleOk(p) && |dist| == |p.instrs| && i < |dist|
  {
    assert InstrOk(p, p.instrs[i]);
    if p.instrs[i].kind.Call? then
      BestInto(p, dist, dist[i], p.instrs[i].kind.targets, |p.instrs[i].kind.targets|)
    else dist[i]
  }

  function BestHunt(p: Module, shortest: seq<nat>, dist: seq<nat>, i: nat): nat
    requires ModuleOk(p) && Sized(p, dist, shortest) && i < |dist|
  {
    assert InstrOk(p, p.instrs[i]);
    var through, inside := PassCost(p, shortest, i), BestInside(p, dist, i);
    if through > 0 then Best(dist, through, inside, p.instrs[i].succs, |p.instrs[i].succs|) else inside
  }

  lemma {:induction false} IntoLeast(p: Module, dist: seq<nat>, cur: nat, targets: seq<nat>, k: nat)
    requires ModuleOk(p) && |dist| == |p.instrs|
    requires k <= |targets| && forall t :: 0 <= t < |targets| ==> targets[t] < |p.functions|
    ensures var r := BestInto(p, dist, cur, targets, k);
            (r == cur || exists t :: 0 <= t < k && CalleeDist(p, dist, targets[t]) > 0
                                     && r == 1 + CalleeDist(p, dist, targets[t]))
            && (forall t :: 0 <= t < k && CalleeDist(p, dist, targets[t]) > 0 ==>
                  0 < r <= 1 + CalleeDist(p, dist, targets[t]))
            && (cur > 0 ==> 0 < r <= cur)
  {
    if k > 0 {
      IntoLeast(p, dist, cur, targets, k - 1);
    }
  }

  /** Relaxing never makes a distance worse. */
  lemma BestHuntBetter(p: Module, shortest: seq<nat>, dist: seq<nat>, i: nat)
    requires ModuleOk(p) && Sized(p, dist, shortest) && i < |dist|
    ensures dist[i] > 0 ==> 0 < BestHunt(p, shortest, dist, i) <= dist[i]
  {
    hide Best, BestInto, PassCost;
    assert InstrOk(p, p.instrs[i]);
    var inst := p.instrs[i];
    if inst.kind.Call? {
      IntoLeast(p, dist, dist[i], inst.kind.targets, |inst.kind.targets|);
    }
    BestLeast(dist, PassCost(p, shortest, i), BestInside(p, dist, i), inst.succs, |inst.succs|);
  }

  // ------------------------------------------------------------------- what is known

  /** Found distances are those of real hunts, and an uncovered instruction is found. */
  ghost predicate HuntsKnown(p: Module, uncovered: seq<nat>, dist: seq<nat>)
    requires ModuleOk(p)
  {
    |dist| == |p.instrs| == |uncovered|
    && (forall i :: 0 <= i < |dist| && dist[i] > 0 ==> Huntable(p, uncovered, i, dist[i]))
    && (forall i :: 0 <= i < |dist| && uncovered[i] > 0 ==> 0 < dist[i] <= uncovered[i])
  }

  ghost predicate HuntsExact(p: Module, uncovered: seq<nat>, dist: seq<nat>)
    requires ModuleOk(p)
  {
    |dist| == |p.instrs| == |uncovered|
    && (forall i :: 0 <= i < |dist| && dist[i] > 0 ==> Huntable(p, uncovered, i, dist[i]))
    && (forall h :: HuntOk(p, uncovered, h) ==> 0 < dist[h.at] <= HuntCost(uncovered, h))
  }

  lemma IntoHuntable(p: Module, uncovered: seq<nat>, dist: seq<nat>, i: nat)
    requires ModuleOk(p) && HuntsKnown(p, uncovered, dist) && i < |dist|
    requires BestInside(p, dist, i) > 0
    ensures Huntable(p, uncovered, i, BestInside(p, dist, i))
  {
    hide BestInto;
    assert InstrOk(p, p.instrs[i]);
    var inst, best := p.instrs[i], BestInside(p, dist, i);
    if best != dist[i] {
      var targets := inst.kind.targets;
      IntoLeast(p, dist, dist[i], targets, |targets|);
      var t :| 0 <= t < |targets| && CalleeDist(p, dist, targets[t]) > 0 && best == 1 + CalleeDist(p, dist, targets[t]);
      var entry := p.functions[targets[t]].entry;
      assert Huntable(p, uncovered, entry, dist[entry]);
      var rest :| HuntOk(p, uncovered, rest) && rest.at == entry && HuntCost(uncovered, rest) == dist[entry];
      var h := Into(i, targets[t], rest);
      assert HuntOk(p, uncovered, h) && HuntCost(uncovered, h) == best;
    }
  }

  lemma BestHuntable(p: Module, uncovered: seq<nat>, ret: seq<nat>, shortest: seq<nat>, dist: seq<nat>, i: nat)
    requires ModuleOk(p) && HuntsKnown(p, uncovered, dist) && Exact(p, ret, shortest) && i < |dist|
    requires BestHunt(p, shortest, dist, i) > 0
    ensures Huntable(p, uncovered, i, BestHunt(p, shortest, dist, i))
  {
    hide Best, BestInside, PassCost, Exact;
    SizedTables(p, ret, shortest);
    assert InstrOk(p, p.instrs[i]);
    var inst, best := p.instrs[i], BestHunt(p, shortest, dist, i);
    var through, inside := PassCost(p, shortest, i), BestInside(p, dist, i);
    BestLeast(dist, through, inside, inst.succs, |inst.succs|);
    if best == inside {
      IntoHuntable(p, uncovered, dist, i);
    } else {
      var k :| 0 <= k < |inst.succs| && dist[inst.succs[k]] > 0 && best == through + dist[inst.succs[k]];
      OnwardHuntable(p, uncovered, ret, shortest, dist, i, inst.succs[k]);
    }
  }

  lemma SizedTables(p: Module, ret: seq<nat>, shortest: seq<nat>)
    requires ModuleOk(p) && Exact(p, ret, shortest)
    ensures |shortest| == |p.functions|
  {
  }

  lemma OnwardHuntable(p: Module, uncovered: seq<nat>, ret: seq<nat>, shortest: seq<nat>, dist: seq<nat>, i: nat, j: nat)
    requires ModuleOk(p) && HuntsKnown(p, uncovered, dist) && Exact(p, ret, shortest) && i < |dist|
    requires j in p.instrs[i].succs && j < |dist| && dist[j] > 0 && PassCost(p, shortest, i) > 0
    ensures Huntable(p, uncovered, i, PassCost(p, shortest, i) + dist[j])
  {
    hide Exact, PassCost;
    SizedTables(p, ret, shortest);
    assert Huntable(p, uncovered, j, dist[j]);
    var rest :| HuntOk(p, uncovered, rest) && rest.at == j && HuntCost(uncovered, rest) == dist[j];
    if p.instrs[i].kind.Call? {
      var trip := ExactTrip(p, ret, shortest, i);
      var h := Past(i, trip, rest);
      assert HuntOk(p, uncovered, h) && HuntCost(uncovered, h) == PassCost(p, shortest, i) + dist[j];
    } else {
      PlainCost(p, shortest, i);
      var h := Skip(i, rest);
      assert HuntOk(p, uncovered, h) && HuntCost(uncovered, h) == PassCost(p, shortest, i) + dist[j];
    }
  }

  lemma PlainCost(p: Module, shortest: seq<nat>, i: nat)
    requires ModuleOk(p) && |shortest| == |p.functions| && i < |p.instrs| && !p.instrs[i].kind.Call?
    ensures PassCost(p, shortest, i) == 1
  {
  }

  lemma ExactTrip(p: Module, ret: seq<nat>, shortest: seq<nat>, i: nat) returns (trip: Trip)
    requires ModuleOk(p) && Exact(p, ret, shortest) && i < |p.instrs| && p.instrs[i].kind.Call?
    requires PassCost(p, shortest, i) > 0
    ensures TripOk(p, trip) && trip.f in p.instrs[i].kind.targets && 1 + TripCost(trip) == PassCost(p, shortest, i)
  {
    hide Through, Walkable;
    assert InstrOk(p, p.instrs[i]);
    var targets := p.instrs[i].kind.targets;
    ThroughLeast(shortest, targets, |targets|);
    var t :| 0 <= t < |targets| && shortest[targets[t]] > 0 && PassCost(p, shortest, i) == 1 + shortest[targets[t]];
    assert Trippable(p, targets[t], shortest[targets[t]]);
    trip :| TripOk(p, trip) && trip.f == targets[t] && TripCost(trip) == shortest[targets[t]];
  }

  lemma RelaxedHunts(p: Module, uncovered: seq<nat>, ret: seq<nat>, shortest: seq<nat>, dist: seq<nat>, i: nat)
    requires ModuleOk(p) && HuntsKnown(p, uncovered, dist) && Exact(p, ret, shortest) && i < |dist|
    requires BestHunt(p, shortest, dist, i) != dist[i]
    ensures HuntsKnown(p, uncovered, dist[i := BestHunt(p, shortest, dist, i)])
    ensures Progress(dist, shortest, dist[i := BestHunt(p, shortest, dist, i)], shortest)
  {
    hide BestHunt, Huntable, Exact, Zeros, Sum;
    SizedTables(p, ret, shortest);
    var best := BestHunt(p, shortest, dist, i);
    BestHuntBetter(p, shortest, dist, i);
    if best > 0 {
      BestHuntable(p, uncovered, ret, shortest, dist, i);
    }
    Updated(dist, i, best);
  }

  // --------------------------------------------------------------- nothing is missed

  predicate HuntSettled(p: Module, shortest: seq<nat>, dist: seq<nat>, i: nat)
    requires ModuleOk(p) && Sized(p, dist, shortest) && i < |dist|
  {
    BestHunt(p, shortest, dist, i) == dist[i]
  }

  lemma OnwardBound(p: Module, shortest: seq<nat>, dist: seq<nat>, i: nat, j: nat)
    requires ModuleOk(p) && Sized(p, dist, shortest) && i < |dist| && HuntSettled(p, shortest, dist, i)
    requires j in p.instrs[i].succs && j < |dist| && dist[j] > 0 && PassCost(p, shortest, i) > 0
    ensures 0 < dist[i] <= PassCost(p, shortest, i) + dist[j]
  {
    hide Best, PassCost, BestInside;
    assert InstrOk(p, p.instrs[i]);
    var succs := p.instrs[i].succs;
    BestLeast(dist, PassCost(p, shortest, i), BestInside(p, dist, i), succs, |succs|);
    var k :| 0 <= k < |succs| && succs[k] == j;
  }

  lemma IntoBound(p: Module, shortest: seq<nat>, dist: seq<nat>, i: nat, f: nat)
    requires ModuleOk(p) && Sized(p, dist, shortest) && i < |dist| && HuntSettled(p, shortest, dist, i)
    requires p.instrs[i].kind.Call? && f in p.instrs[i].kind.targets && f < |p.functions|
    requires CalleeDist(p, dist, f) > 0
    ensures 0 < dist[i] <= 1 + CalleeDist(p, dist, f)
  {
    hide Best, PassCost, BestInto, CalleeDist;
    assert InstrOk(p, p.instrs[i]);
    var inst := p.instrs[i];
    IntoLeast(p, dist, dist[i], inst.kind.targets, |inst.kind.targets|);
    var k :| 0 <= k < |inst.kind.targets| && inst.kind.targets[k] == f;
    BestLeast(dist, PassCost(p, shortest, i), BestInside(p, dist, i), inst.succs, |inst.succs|);
  }

  lemma {:induction false} HuntBound(p: Module, uncovered: seq<nat>, ret: seq<nat>, shortest: seq<nat>, dist: seq<nat>, h: Hunt)
    requires ModuleOk(p) && HuntsKnown(p, uncovered, dist) && Exact(p, ret, shortest) && HuntOk(p, uncovered, h)
    requires forall i :: 0 <= i < |dist| ==> HuntSettled(p, shortest, dist, i)
    ensures 0 < dist[h.at] <= HuntCost(uncovered, h)
    decreases h
  {
    hide Huntable, HuntSettled, PassCost, Walkable, Trippable;
    match h
    case Here(_) =>
    case Skip(i, rest) =>
      HuntBound(p, uncovered, ret, shortest, dist, rest);
      PlainCost(p, shortest, i);
      OnwardBound(p, shortest, dist, i, rest.at);
    case Past(i, trip, rest) =>
      HuntBound(p, uncovered, ret, shortest, dist, rest);
      PassBound(p, shortest, i, trip.f);
      OnwardBound(p, shortest, dist, i, rest.at);
    case Into(i, f, rest) =>
      HuntBound(p, uncovered, ret, shortest, dist, rest);
      IntoBound(p, shortest, dist, i, f);
  }

  lemma HuntSettledExact(p: Module, uncovered: seq<nat>, ret: seq<nat>, shortest: seq<nat>, dist: seq<nat>)
    requires ModuleOk(p) && HuntsKnown(p, uncovered, dist) && Exact(p, ret, shortest)
    requires forall i :: 0 <= i < |dist| ==> HuntSettled(p, shortest, dist, i)
    ensures HuntsExact(p, uncovered, dist)
  {
    hide Huntable, HuntSettled, Exact;
    forall h | HuntOk(p, uncovered, h) ensures 0 < dist[h.at] <= HuntCost(uncovered, h) {
      HuntBound(p, uncovered, ret, shortest, dist, h);
    }
  }

  // ---------------------------------------------------------------------- the loops

  method RelaxHunt(p: Module, shortest: array<nat>, dist: array<nat>, i: nat,
                   ghost uncovered: seq<nat>, ghost ret: seq<nat>) returns (changed: bool)
    requires ModuleOk(p) && HuntsKnown(p, uncovered, dist[..]) && Exact(p, ret, shortest[..]) && i < |p.instrs|
    requires dist != shortest
    modifies dist
    ensures HuntsKnown(p, uncovered, dist[..])
    ensures !changed ==> dist[..] == old(dist[..]) && HuntSettled(p, shortest[..], dist[..], i)
    ensures changed ==> Progress(old(dist[..]), shortest[..], dist[..], shortest[..])
  {
    hide Exact, HuntsKnown, Progress, Best, PassCost;
    SizedTables(p, ret, shortest[..]);
    KnownSize(p, uncovered, dist[..]);
    assert InstrOk(p, p.instrs[i]);
    ghost var d := dist[..];
    var cur := dist[i];
    var through := BestThrough(p, shortest, i);
    var best := BestCallee(p, dist, i);
    if through > 0 {
      best := BestNext(dist, through, best, p.instrs[i].succs);
    }
    changed := best != cur;
    if changed {
      RelaxedHunts(p, uncovered, ret, shortest[..], d, i);
      dist[i] := best;
      assert dist[..] == d[i := best];
    }
  }

  lemma KnownSize(p: Module, uncovered: seq<nat>, dist: seq<nat>)
    requires ModuleOk(p) && HuntsKnown(p, uncovered, dist)
    ensures |dist| == |p.instrs|
  {
  }

  /** The scan over the bodies of the targets of a call. */
  method BestCallee(p: Module, dist: array<nat>, i: nat) returns (best: nat)
    requires ModuleOk(p) && dist.Length == |p.instrs| && i < |p.instrs|
    ensures best == BestInside(p, dist[..], i)
  {
    assert InstrOk(p, p.instrs[i]);
    best := dist[i];
    if p.instrs[i].kind.Call? {
      var targets := p.instrs[i].kind.targets;
      for k := 0 to |targets|
        invariant best == BestInto(p, dist[..], dist[i], targets, k)
      {
        if p.functions[targets[k]].Defined? {
          var d := dist[p.functions[targets[k]].entry];
          if d > 0 {
            d := 1 + d;
            if best == 0 || d < best {
              best := d;
            }
          }
        }
      }
    }
  }

  method SweepHunts(p: Module, shortest: array<nat>, dist: array<nat>, ghost uncovered: seq<nat>, ghost ret: seq<nat>)
    returns (changed: bool)
    requires ModuleOk(p) && HuntsKnown(p, uncovered, dist[..]) && Exact(p, ret, shortest[..]) && dist != shortest
    modifies dist
    ensures HuntsKnown(p, uncovered, dist[..])
    ensures !changed ==> forall i :: 0 <= i < |p.instrs| ==> HuntSettled(p, shortest[..], dist[..], i)
    ensures changed ==> Progress(old(dist[..]), shortest[..], dist[..], shortest[..])
  {
    hide Huntable, HuntSettled, Zeros, Sum, Exact;
    SizedTables(p, ret, shortest[..]);
    changed := false;
    var i := |p.instrs|;
    while i > 0
      invariant 0 <= i <= |p.instrs| && HuntsKnown(p, uncovered, dist[..])
      invariant !changed ==> dist[..] == old(dist[..])
      invariant !changed ==> forall j :: i <= j < |p.instrs| ==> HuntSettled(p, shortest[..], dist[..], j)
      invariant changed ==> Progress(old(dist[..]), shortest[..], dist[..], shortest[..])
    {
      i := i - 1;
      var c := RelaxHunt(p, shortest, dist, i, uncovered, ret);
      changed := changed || c;
    }
  }

  /** Distances to uncovered instructions, for given shortest ways through functions. */
  method MinDistToUncovered(p: Module, uncovered: seq<nat>, shortest: array<nat>, ghost ret: seq<nat>)
    returns (dist: array<nat>)
    requires ModuleOk(p) && |uncovered| == |p.instrs| && Exact(p, ret, shortest[..])
    ensures fresh(dist) && HuntsExact(p, uncovered, dist[..])
  {
    hide HuntSettled, HuntsExact, Zeros, Sum, Exact, Huntable;
    SizedTables(p, ret, shortest[..]);
    dist := new nat[|p.instrs|](i requires 0 <= i < |uncovered| => uncovered[i]);
    assert dist[..] == uncovered;
    InitialHunts(p, uncovered);
    var changed := true;
    while changed
      invariant HuntsKnown(p, uncovered, dist[..])
      invariant !changed ==> forall i :: 0 <= i < |p.instrs| ==> HuntSettled(p, shortest[..], dist[..], i)
      decreases changed, Zeros(dist[..]) + Zeros(shortest[..]), Sum(dist[..]) + Sum(shortest[..])
    {
      changed := SweepHunts(p, shortest, dist, uncovered, ret);
    }
    HuntSettledExact(p, uncovered, ret, shortest[..], dist[..]);
  }

  lemma InitialHunts(p: Module, uncovered: seq<nat>)
    requires ModuleOk(p) && |uncovered| == |p.instrs|
    ensures HuntsKnown(p, uncovered, uncovered)
  {
    forall i | 0 <= i < |uncovered| && uncovered[i] > 0 ensures Huntable(p, uncovered, i, uncovered[i]) {
      assert HuntOk(p, uncovered, Here(i)) && HuntCost(uncovered, Here(i)) == uncovered[i];
    }
  }
}
