/**
 Copy-on-write ownership by epoch, as values: every space has a key and a table of
 shared objects, every object the key under which it was bound.
 */
module Ownership {
  datatype Table<M(==), O> = Table(cowKey: nat, objects: map<M, O>)

  /** Owners are never ahead of a space that binds the object. An object is bound
      under one name only, and if in two spaces, it is behind the key of both. */
  ghost predicate Stamped<S, M, O>(tables: map<S, Table<M, O>>, owners: map<O, nat>) {
    (forall s :: s in tables ==> 1 <= tables[s].cowKey)
    && (forall s, mo :: s in tables && mo in tables[s].objects ==> InEpoch(tables[s], mo, owners))
    && (forall s, t, mo, mo' ::
          s in tables && t in tables && mo in tables[s].objects && mo' in tables[t].objects ==>
          Shared(s, t, tables[s], tables[t], mo, mo', owners))
  }

  ghost predicate InEpoch<M, O>(table: Table<M, O>, mo: M, owners: map<O, nat>)
    requires mo in table.objects
  {
    table.objects[mo] in owners && 1 <= owners[table.objects[mo]] <= table.cowKey
  }

  ghost predicate Shared<S, M, O>(s: S, t: S, ts: Table<M, O>, tt: Table<M, O>, mo: M, mo': M, owners: map<O, nat>)
    requires mo in ts.objects && mo' in tt.objects
  {
    ts.objects[mo] == tt.objects[mo'] ==>
      (mo == mo' && (s != t ==> ts.objects[mo] in owners && owners[ts.objects[mo]] < ts.cowKey))
  }

  /** An object that a space owns at its current key is bound nowhere else. */
  lemma Exclusive<S, M, O>(tables: map<S, Table<M, O>>, owners: map<O, nat>, s: S, mo: M, t: S, mo': M)
    requires Stamped(tables, owners) && s in tables && t in tables
    requires mo in tables[s].objects && mo' in tables[t].objects
    requires tables[s].objects[mo] in owners && owners[tables[s].objects[mo]] == tables[s].cowKey
    requires s != t || mo != mo'
    ensures tables[t].objects[mo'] != tables[s].objects[mo]
  {
    assert Shared(s, t, tables[s], tables[t], mo, mo', owners);
  }

  lemma StampedEmpty<S, M, O>(tables: map<S, Table<M, O>>, owners: map<O, nat>, s: S)
    requires Stamped(tables, owners) && s !in tables
    ensures Stamped(tables[s := Table(1, map[])], owners)
  {
  }

  /** A copy moves both spaces to the next key, so everything shared is behind it. */
  lemma StampedCopy<S, M, O>(tables: map<S, Table<M, O>>, owners: map<O, nat>, b: S, s: S)
    requires Stamped(tables, owners) && b in tables && s !in tables
    ensures Stamped(tables[b := tables[b].(cowKey := tables[b].cowKey + 1)]
                          [s := tables[b].(cowKey := tables[b].cowKey + 1)], owners)
  {
    var table := tables[b].(cowKey := tables[b].cowKey + 1);
    var tables' := tables[b := table][s := table];
    forall x, mo | x in tables' && mo in tables'[x].objects ensures InEpoch(tables'[x], mo, owners) {
      var x' := if x == s then b else x;
      assert InEpoch(tables[x'], mo, owners);
    }
    forall x, y, mo, mo' | x in tables' && y in tables' && mo in tables'[x].objects && mo' in tables'[y].objects
      ensures Shared(x, y, tables'[x], tables'[y], mo, mo', owners)
    {
      var x', y' := if x == s then b else x, if y == s then b else y;
      assert Shared(x', y', tables[x'], tables[y'], mo, mo', owners);
      assert InEpoch(tables[x'], mo, owners);
    }
  }

  /** Binding an object that no space has yet. */
  lemma StampedBind<S, M, O>(tables: map<S, Table<M, O>>, owners: map<O, nat>, s: S, mo: M, o: O)
    requires Stamped(tables, owners) && s in tables && (o in owners ==> owners[o] == 0)
    ensures Stamped(tables[s := tables[s].(objects := tables[s].objects[mo := o])], owners[o := tables[s].cowKey])
  {
    var tables' := tables[s := tables[s].(objects := tables[s].objects[mo := o])];
    var owners' := owners[o := tables[s].cowKey];
    forall x, m | x in tables' && m in tables'[x].objects ensures InEpoch(tables'[x], m, owners') {
      if x != s || m != mo {
        assert InEpoch(tables[x], m, owners);
      }
    }
    forall x, y, m, m' | x in tables' && y in tables' && m in tables'[x].objects && m' in tables'[y].objects
      ensures Shared(x, y, tables'[x], tables'[y], m, m', owners')
    {
      if x != s || m != mo {
        assert InEpoch(tables[x], m, owners);
      }
      if y != s || m' != mo {
        assert InEpoch(tables[y], m', owners);
      }
      if (x != s || m != mo) && (y != s || m' != mo) {
        assert Shared(x, y, tables[x], tables[y], m, m', owners);
      }
    }
  }

  lemma StampedUnbind<S, M, O>(tables: map<S, Table<M, O>>, owners: map<O, nat>, s: S, mo: M)
    requires Stamped(tables, owners) && s in tables
    ensures Stamped(tables[s := tables[s].(objects := tables[s].objects - {mo})], owners)
  {
  }

  lemma BoundStates<S, M, O>(tables: map<S, Table<M, O>>, owners: map<O, nat>, s: S, mo: M)
    requires Stamped(tables, owners) && s in tables && mo in tables[s].objects
    ensures tables[s].objects[mo] in owners
  {
    assert InEpoch(tables[s], mo, owners);
  }
}
