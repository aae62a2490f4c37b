/**
 Bookkeeping of a dependency graph while its nodes are finished one by one: how
 many dependencies of each node are still pending, and who is ready. A pair
 (v, d) of the graph says that v depends on d.
 */
module DependencyCounts {

  ghost predicate Over<T(!new)>(g: set<(T, T)>, nodes: set<T>) {
    forall e :: e in g ==> e.0 in nodes && e.1 in nodes
  }

  // The dependencies of v that are not done yet.
  function Pending<T(==,!new)>(v: T, done: set<T>, nodes: set<T>, g: set<(T, T)>): set<T> {
    set d | d in nodes && (v, d) in g && d !in done
  }

  function Ready<T(==,!new)>(done: set<T>, nodes: set<T>, g: set<(T, T)>): set<T> {
    set v | v in nodes && v !in done && Pending(v, done, nodes, g) == {}
  }

  // dependents[p] lists the dependents of p, and count the pending dependencies of each node.
  ghost predicate Counted<T(!new)>(dependents: map<T, set<T>>, incoming: map<T, nat>,
                                   done: set<T>, nodes: set<T>, g: set<(T, T)>) {
    Counts(incoming, done, nodes, g) && Inverse(dependents, nodes, g)
  }

  ghost predicate Counts<T(!new)>(incoming: map<T, nat>, done: set<T>, nodes: set<T>, g: set<(T, T)>) {
    && (forall v :: v in incoming <==> v in nodes)
    && (forall v {:trigger CountedAt(incoming, v, done, nodes, g)} ::
          v in nodes ==> CountedAt(incoming, v, done, nodes, g))
  }

  // Named, so that the solver looks at a count only where a proof mentions it.
  ghost predicate CountedAt<T(!new)>(incoming: map<T, nat>, v: T, done: set<T>, nodes: set<T>, g: set<(T, T)>) {
    v in incoming && incoming[v] == |Pending(v, done, nodes, g)|
  }

  ghost predicate Inverse<T(!new)>(dependents: map<T, set<T>>, nodes: set<T>, g: set<(T, T)>) {
    && (forall v :: v in dependents <==> v in nodes)
    && (forall p :: p in nodes ==> dependents[p] == DependentsOf(p, nodes, g))
  }

  function DependentsOf<T(==,!new)>(p: T, nodes: set<T>, g: set<(T, T)>): set<T> {
    set v | v in nodes && (v, p) in g
  }

  lemma CountsGrow<T(!new)>(incoming: map<T, nat>, nodes: set<T>, g: set<(T, T)>, v: T, p: T)
    requires Counts(incoming, {}, nodes, g) && p in nodes && v in nodes && (v, p) !in g
    ensures Counts(incoming[v := incoming[v] + 1], {}, nodes, g + {(v, p)})
  {
    assert CountedAt(incoming, v, {}, nodes, g);
    forall w | w in nodes
      ensures CountedAt(incoming[v := incoming[v] + 1], w, {}, nodes, g + {(v, p)})
    {
      assert CountedAt(incoming, w, {}, nodes, g);
      PendingGrows(g, v, p, nodes, w);
    }
  }

  lemma InverseGrows<T(!new)>(dependents: map<T, set<T>>, nodes: set<T>, g: set<(T, T)>, v: T, p: T)
    requires Inverse(dependents, nodes, g) && p in nodes && v in nodes
    ensures Inverse(dependents[p := dependents[p] + {v}], nodes, g + {(v, p)})
  {
    forall q | q in nodes
      ensures dependents[p := dependents[p] + {v}][q] == DependentsOf(q, nodes, g + {(v, p)})
    {
      assert DependentsOf(q, nodes, g + {(v, p)}) == DependentsOf(q, nodes, g) + (if q == p then {v} else {});
    }
  }

  lemma NothingCounted<T(!new)>(nodes: set<T>, dependents: map<T, set<T>>, incoming: map<T, nat>)
    requires forall v :: v in dependents <==> v in nodes
    requires forall v :: v in incoming <==> v in nodes
    requires forall v :: v in nodes ==> incoming[v] == 0 && dependents[v] == {}
    ensures Counts(incoming, {}, nodes, {}) && Inverse(dependents, nodes, {})
  {
    forall v | v in nodes
      ensures CountedAt(incoming, v, {}, nodes, {})
    {
      assert Pending(v, {}, nodes, {}) == {};
    }
  }

  lemma InitiallyReady<T(!new)>(incoming: map<T, nat>, nodes: set<T>, g: set<(T, T)>)
    requires Counts(incoming, {}, nodes, g)
    ensures (set v | v in incoming && incoming[v] == 0) == Ready({}, nodes, g)
  {
    forall v | v in nodes
      ensures incoming[v] == 0 <==> v in Ready({}, nodes, g)
    {
      assert CountedAt(incoming, v, {}, nodes, g);
    }
  }

  // A requirement is counted once, however many edges state it.
  method CountOne<T(==,!new)>(dependents: map<T, set<T>>, incoming: map<T, nat>, dependent: T, dependency: T,
                              ghost nodes: set<T>, ghost g: set<(T, T)>)
      returns (dependents': map<T, set<T>>, incoming': map<T, nat>)
    requires Counts(incoming, {}, nodes, g) && Inverse(dependents, nodes, g)
    requires dependent in nodes && dependency in nodes
    ensures Counts(incoming', {}, nodes, g + {(dependent, dependency)})
    ensures Inverse(dependents', nodes, g + {(dependent, dependency)})
  {
    if dependent in dependents[dependency] {
      assert g + {(dependent, dependency)} == g;
      dependents', incoming' := dependents, incoming;
    } else {
      CountsGrow(incoming, nodes, g, dependent, dependency);
      InverseGrows(dependents, nodes, g, dependent, dependency);
      dependents' := dependents[dependency := dependents[dependency] + {dependent}];
      incoming' := incoming[dependent := incoming[dependent] + 1];
    }
  }

  lemma PendingGrows<T(!new)>(g: set<(T, T)>, v: T, p: T, nodes: set<T>, w: T)
    requires p in nodes && (v, p) !in g
    ensures Pending(w, {}, nodes, g + {(v, p)}) == Pending(w, {}, nodes, g) + (if w == v then {p} else {})
    ensures p !in Pending(v, {}, nodes, g)
  {
  }

  // Finishing p takes one from the counts of its dependents.
  lemma CountAfter<T(!new)>(dependents: map<T, set<T>>, incoming: map<T, nat>, done: set<T>,
                   nodes: set<T>, g: set<(T, T)>, p: T, v: T)
    requires Counted(dependents, incoming, done, nodes, g) && p in nodes && p !in done && v in nodes
    ensures incoming[v] == |Pending(v, done + {p}, nodes, g)| + (if v in dependents[p] then 1 else 0)
  {
    assert CountedAt(incoming, v, done, nodes, g);
    PendingAfter(v, done, p, nodes, g);
    assert v in dependents[p] <==> (v, p) in g;
  }

  lemma PendingAfter<T(!new)>(v: T, done: set<T>, p: T, nodes: set<T>, g: set<(T, T)>)
    requires p !in done && p in nodes
    ensures Pending(v, done + {p}, nodes, g) == Pending(v, done, nodes, g) - {p}
    ensures p in Pending(v, done, nodes, g) <==> (v, p) in g
  {
  }

  // The counts of p's dependents drop by one, and whoever reaches zero becomes ready.
  method Release<T(==,!new)>(dependents: set<T>, incoming: map<T, nat>, ready: set<T>,
                 ghost left: map<T, nat>)
      returns (incoming': map<T, nat>, ready': set<T>)
    requires incoming.Keys == left.Keys && dependents <= left.Keys
    requires forall v :: v in left ==> incoming[v] == left[v] + (if v in dependents then 1 else 0)
    ensures incoming' == left
    ensures ready' == ready + set v | v in dependents && left[v] == 0
  {
    incoming', ready' := incoming, ready;
    var rest := dependents;
    while rest != {}
      invariant rest <= dependents && incoming'.Keys == left.Keys
      invariant forall v :: v in left ==> incoming'[v] == left[v] + (if v in rest then 1 else 0)
      invariant ready' == ready + set v | v in dependents && v !in rest && left[v] == 0
      decreases rest
    {
      var v :| v in rest;
      rest := rest - {v};
      incoming' := incoming'[v := incoming'[v] - 1];
      if incoming'[v] == 0 {
        ready' := ready' + {v};
      }
    }
  }

  // Who is ready once p is done: who was, except p, and the dependents that reached zero.
  lemma ReadyAfter<T(!new)>(dependents: map<T, set<T>>, incoming: map<T, nat>, done: set<T>,
                   nodes: set<T>, g: set<(T, T)>, p: T, left: map<T, nat>)
    requires Counted(dependents, incoming, done, nodes, g) && p in Ready(done, nodes, g)
    requires (p, p) !in g && forall v :: v in done ==> Pending(v, done, nodes, g) == {}
    requires Over(g, nodes)
    requires Counts(left, done + {p}, nodes, g)
    ensures Ready(done, nodes, g) - {p} + (set v | v in dependents[p] && v in left && left[v] == 0) ==
            Ready(done + {p}, nodes, g)
    ensures Counted(dependents, left, done + {p}, nodes, g)
    ensures dependents[p] <= nodes
  {
    forall v | v in dependents[p]
      ensures v in nodes && v !in done && v != p
    {
      assert (v, p) in g;
      PendingAfter(v, done, p, nodes, g);
    }
    forall v | v in nodes
      ensures Pending(v, done + {p}, nodes, g) == Pending(v, done, nodes, g) - {p}
      ensures v !in dependents[p] ==> p !in Pending(v, done, nodes, g)
      ensures v in left && (left[v] == 0 <==> Pending(v, done + {p}, nodes, g) == {})
    {
      PendingAfter(v, done, p, nodes, g);
      assert v in dependents[p] <==> (v, p) in g;
      assert CountedAt(left, v, done + {p}, nodes, g);
    }
  }
}
