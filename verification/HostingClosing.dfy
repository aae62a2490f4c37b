/**
 What a whole RequestEnd does to the scope table when no EndScope fails and no
 handler re-enters, in closed form: the recursion down the subtree and the
 recursion up the closing ancestors are both replaced by one expression.
 */
module HostingClosing {
  import opened Common
  import opened HostingModel

  // The table after TryFinalize(id) has climbed as far as it can.
  ghost function Finalized(m: ScopeTable, id: ScopeId): ScopeTable
    decreases m.Keys
  {
    if Settled(m, id) then m
    else if m[id].handler.Some? then m[id := Fired(m[id])]
    else Finalized(Without(m, id), m[id].parent)
  }

  // The record of a scope that outlives the closing of its subtree.
  ghost function Closed(m: ScopeTable, x: ScopeId): ScopeRecord
    requires Forest(m) && x in m
  {
    var r := m[x].(requested := true);
    if r.handler.Some? && !r.pending && !(exists c :: c in Children(m, x) && Blocked(m, c))
    then Fired(r)
    else r
  }

  ghost predicate Under(m: ScopeTable, x: ScopeId, D: set<ScopeId>)
    requires Forest(m)
  {
    exists d :: d in D && Below(m, x, d)
  }

  ghost predicate Stays(m: ScopeTable, D: set<ScopeId>, x: ScopeId)
    requires Forest(m)
  {
    Under(m, x, D) ==> Blocked(m, x)
  }

  ghost function SweptRecord(m: ScopeTable, id: ScopeId, D: set<ScopeId>, x: ScopeId): (r: ScopeRecord)
    requires Forest(m) && x in m
    ensures r.parent == m[x].parent
  {
    if x == id then m[x].(requested := true)
    else if Under(m, x, D) then Closed(m, x)
    else m[x]
  }

  // The table once id is close-requested and the subtrees of its children in D are closed.
  ghost function Swept(m: ScopeTable, id: ScopeId, D: set<ScopeId>): ScopeTable
    requires Forest(m)
  {
    map x | x in m && Stays(m, D, x) :: SweptRecord(m, id, D, x)
  }

  // The closed form: close everything strictly below id, then finalise id.
  ghost function Ended(m: ScopeTable, id: ScopeId): ScopeTable
    requires Forest(m)
  {
    if id !in m then m else Finalized(Swept(m, id, Children(m, id)), id)
  }

  lemma SweptKeepsForest(m: ScopeTable, id: ScopeId, D: set<ScopeId>)
    requires Forest(m) && D <= Children(m, id) && id in m
    ensures Forest(Swept(m, id, D))
    ensures id in Swept(m, id, D)
  {
    var s := Swept(m, id, D);
    if Under(m, id, D) {
      var d :| d in D && Below(m, id, d);
      assert Rooted(m, d);
      AncestorsAreOlder(m, id, d);
    }
    forall x | x in s
      ensures Rooted(s, x)
    {
      assert Rooted(m, x);
      if m[x].parent != GLOBAL {
        SweptKeepsParent(m, D, x);
      }
    }
  }

  lemma SweptKeepsParent(m: ScopeTable, D: set<ScopeId>, x: ScopeId)
    requires Forest(m) && x in m && m[x].parent != GLOBAL
    requires Under(m, x, D) ==> Blocked(m, x)
    ensures Under(m, m[x].parent, D) ==> Blocked(m, m[x].parent)
  {
    var p := m[x].parent;
    assert Rooted(m, x);
    if Under(m, p, D) {
      var d :| d in D && Below(m, p, d);
      assert Below(m, x, d);
      assert Below(m, x, p) by { assert Below(m, p, p); }
      BlockedUpward(m, x, p);
    }
  }

  // Inside a subtree the sweep has not touched, nothing looks different.
  lemma SweptElsewhere(m: ScopeTable, id: ScopeId, D: set<ScopeId>, c: ScopeId)
    requires Forest(m) && id in m && D <= Children(m, id) && c in Children(m, id) - D
    ensures var s := Swept(m, id, D);
      && Forest(s)
      && (forall x :: Below(m, x, c) ==> x in s && s[x] == m[x])
      && (forall x :: Below(s, x, c) <==> Below(m, x, c))
      && (forall x, a :: Below(m, x, c) ==> (Below(s, x, a) <==> Below(m, x, a)))
  {
    var s := Swept(m, id, D);
    SweptKeepsForest(m, id, D);
    forall x | Below(m, x, c)
      ensures x in s && s[x] == m[x]
    {
      if Under(m, x, D) {
        var d :| d in D && Below(m, x, d);
        SiblingsAreDisjoint(m, x, c, d);
      }
      AncestorsAreOlder(m, x, c);
      assert Rooted(m, c);
    }
    forall x | x in s
      ensures Ancestors(s, x) == Ancestors(m, x)
    {
      AncestorsAgree(m, s, x);
    }
  }

  // Blocked, Children and Closed are functions of the subtree alone.
  lemma SubtreeDecides(m: ScopeTable, s: ScopeTable, c: ScopeId, x: ScopeId)
    requires Forest(m) && Forest(s) && Below(m, x, c)
    requires forall y :: Below(m, y, c) ==> y in s && s[y] == m[y]
    requires forall y :: Below(s, y, c) <==> Below(m, y, c)
    requires forall y, a :: Below(m, y, c) ==> (Below(s, y, a) <==> Below(m, y, a))
    ensures Blocked(s, x) <==> Blocked(m, x)
    ensures Children(s, x) == Children(m, x)
    ensures Closed(s, x) == Closed(m, x)
  {
    SameBlocked(m, s, c, x);
    forall y
      ensures y in Children(m, x) <==> y in Children(s, x)
      ensures y in Children(m, x) ==> (Blocked(s, y) <==> Blocked(m, y))
    {
      if y in Children(m, x) {
        ChildBelow(m, y, x, c);
        SameBlocked(m, s, c, y);
      }
      if y in Children(s, x) {
        ChildBelow(s, y, x, c);
      }
    }
    assert Children(s, x) == Children(m, x);
  }

  lemma ChildBelow(m: ScopeTable, y: ScopeId, x: ScopeId, c: ScopeId)
    requires Forest(m) && Below(m, x, c) && y in Children(m, x)
    ensures Below(m, y, c) && Below(m, y, x) && y > x
  {
    assert Rooted(m, y);
    BelowStep(m, y);
    BelowStep(m, x);
    AncestorsAreOlder(m, x, c);
  }

  lemma SameBlocked(m: ScopeTable, s: ScopeTable, c: ScopeId, x: ScopeId)
    requires Forest(m) && Forest(s) && Below(m, x, c)
    requires forall y :: Below(m, y, c) ==> y in s && s[y] == m[y]
    requires forall y :: Below(s, y, c) <==> Below(m, y, c)
    requires forall y, a :: Below(m, y, c) ==> (Below(s, y, a) <==> Below(m, y, a))
    ensures Blocked(s, x) <==> Blocked(m, x)
  {
    assert Below(s, x, c);
    forall y | Below(m, y, x) && HasHandler(m[y])
      ensures Below(s, y, x) && HasHandler(s[y])
    {
      BelowTransitive(m, y, x, c);
    }
    forall y | Below(s, y, x) && HasHandler(s[y])
      ensures Below(m, y, x) && HasHandler(m[y])
    {
      BelowTransitive(s, y, x, c);
    }
  }

  // One round of RequestEnd's loop over the children of id.
  lemma ClosingOneChild(m: ScopeTable, id: ScopeId, D: set<ScopeId>, c: ScopeId)
    requires Forest(m) && id in m && D <= Children(m, id) && c in Children(m, id) - D
    ensures Forest(Swept(m, id, D))
    ensures Ended(Swept(m, id, D), c) == Finalized(Swept(m, id, D + {c}), id)
  {
    var s := Swept(m, id, D);
    SweptKeepsForest(m, id, D);
    var t := Swept(s, c, Children(s, c));
    var e := Swept(m, id, D + {c});
    ChildAfterSweep(m, id, D, c);
    SweepingTheChild(m, id, D, c);
    SameElsewhere(t, e, c);
    if Blocked(m, c) {
      assert e[c].parent == id;
      assert HasChild(e, id);
      assert Finalized(t, c) == e;
    }
  }

  lemma SameElsewhere(t: ScopeTable, e: ScopeTable, c: ScopeId)
    requires Without(t, c) == Without(e, c) && c in t
    ensures c in e ==> e == t[c := e[c]]
    ensures c !in e ==> e == Without(t, c)
  {
    assert forall x :: x != c && x in t ==> x in Without(t, c) && Without(t, c)[x] == t[x];
    assert forall x :: x != c && x in e ==> x in Without(e, c) && Without(e, c)[x] == e[x];
  }

  // How the swept child ends: kept, fired, or ready to be removed.
  lemma ChildAfterSweep(m: ScopeTable, id: ScopeId, D: set<ScopeId>, c: ScopeId)
    requires Forest(m) && id in m && D <= Children(m, id) && c in Children(m, id) - D
    requires Forest(Swept(m, id, D))
    ensures var s := Swept(m, id, D);
      var t := Swept(s, c, Children(s, c));
      var e := Swept(m, id, D + {c});
      && c in s && c in t && t[c].parent == id
      && (c in e <==> Blocked(m, c))
      && (c in e ==> e[c] == (if Settled(t, c) then t[c] else Fired(t[c])))
      && (!Blocked(m, c) ==> !Settled(t, c))
      && (!Settled(t, c) ==> (t[c].handler.Some? <==> Blocked(m, c)))
  {
    var s := Swept(m, id, D);
    SweptElsewhere(m, id, D, c);
    BelowStep(m, c);
    BelowStep(s, c);
    SubtreeDecides(m, s, c, c);
    BlockedWhere(s, c);
    ChildrenOfSwept(s, c);
    assert Under(m, c, D + {c});
    assert Rooted(m, c);
  }

  // In the swept table, id's remaining children are its blocked ones.
  lemma ChildrenOfSwept(m: ScopeTable, id: ScopeId)
    requires Forest(m) && id in m
    ensures HasChild(Swept(m, id, Children(m, id)), id) <==>
            exists c :: c in Children(m, id) && Blocked(m, c)
    ensures id in Swept(m, id, Children(m, id))
    ensures Swept(m, id, Children(m, id))[id] == m[id].(requested := true)
  {
    var s := Swept(m, id, Children(m, id));
    SweptKeepsForest(m, id, Children(m, id));
    forall c | c in Children(m, id)
      ensures c in s <==> Blocked(m, c)
    {
      SweptChild(m, id, c);
    }
    if exists c :: c in Children(m, id) && Blocked(m, c) {
      var c :| c in Children(m, id) && Blocked(m, c);
      assert s[c].parent == id;
    }
  }

  lemma SweptChild(m: ScopeTable, id: ScopeId, c: ScopeId)
    requires Forest(m) && id in m && c in Children(m, id)
    ensures c in Swept(m, id, Children(m, id)) <==> Blocked(m, c)
  {
    BelowStep(m, c);
    assert Under(m, c, Children(m, id));
  }

  lemma SweepingTheChild(m: ScopeTable, id: ScopeId, D: set<ScopeId>, c: ScopeId)
    requires Forest(m) && id in m && D <= Children(m, id) && c in Children(m, id) - D
    requires Forest(Swept(m, id, D))
    ensures var s := Swept(m, id, D);
      Without(Swept(s, c, Children(s, c)), c) == Without(Swept(m, id, D + {c}), c)
  {
    var s := Swept(m, id, D);
    var t := Swept(s, c, Children(s, c));
    var e := Swept(m, id, D + {c});
    forall x | x != c
      ensures x in t <==> x in e
      ensures x in t ==> t[x] == e[x]
    {
      SweepingOne(m, id, D, c, x);
    }
    AgreeBut(t, e, c);
  }

  lemma AgreeBut(t: ScopeTable, e: ScopeTable, c: ScopeId)
    requires forall x :: x != c ==> (x in t <==> x in e)
    requires forall x :: x != c && x in t ==> t[x] == e[x]
    ensures Without(t, c) == Without(e, c)
  {
  }

  lemma SweepingOne(m: ScopeTable, id: ScopeId, D: set<ScopeId>, c: ScopeId, x: ScopeId)
    requires Forest(m) && id in m && D <= Children(m, id) && c in Children(m, id) - D
    requires Forest(Swept(m, id, D)) && x != c
    ensures var s := Swept(m, id, D);
      var t := Swept(s, c, Children(s, c));
      var e := Swept(m, id, D + {c});
      (x in t <==> x in e) && (x in t ==> t[x] == e[x])
  {
    if Below(m, x, c) {
      SweepingInside(m, id, D, c, x);
    } else {
      SweepingOutside(m, id, D, c, x);
    }
  }

  lemma SweepingInside(m: ScopeTable, id: ScopeId, D: set<ScopeId>, c: ScopeId, x: ScopeId)
    requires Forest(m) && id in m && D <= Children(m, id) && c in Children(m, id) - D
    requires Forest(Swept(m, id, D)) && Below(m, x, c) && x != c
    ensures var s := Swept(m, id, D);
      && x in s && (Stays(s, Children(s, c), x) <==> Stays(m, D + {c}, x))
      && SweptRecord(s, c, Children(s, c), x) == SweptRecord(m, id, D + {c}, x)
  {
    var s := Swept(m, id, D);
    SweptElsewhere(m, id, D, c);
    BelowStep(m, c);
    var k := ChildTowards(m, x, c);
    SubtreeDecides(m, s, c, x);
    SubtreeDecides(m, s, c, c);
    assert k in Children(s, c) && Below(s, x, k);
    assert Under(s, x, Children(s, c));
    assert Under(m, x, D + {c});
    AncestorsAreOlder(m, x, c);
    assert Rooted(m, c);
  }

  lemma SweepingOutside(m: ScopeTable, id: ScopeId, D: set<ScopeId>, c: ScopeId, x: ScopeId)
    requires Forest(m) && id in m && D <= Children(m, id) && c in Children(m, id) - D
    requires Forest(Swept(m, id, D)) && !Below(m, x, c)
    ensures var s := Swept(m, id, D);
      && (x in s && Stays(s, Children(s, c), x) <==> x in m && Stays(m, D + {c}, x))
      && (x in s ==> SweptRecord(s, c, Children(s, c), x) == SweptRecord(m, id, D + {c}, x))
  {
    var s := Swept(m, id, D);
    SweptElsewhere(m, id, D, c);
    BelowStep(m, c);
    if Under(s, x, Children(s, c)) {
      var k :| k in Children(s, c) && Below(s, x, k);
      BelowStep(s, c);
      ChildBelow(s, k, c, c);
      BelowTransitive(s, x, k, c);
    }
    if x in m {
      assert Under(m, x, D + {c}) <==> Under(m, x, D);
    }
  }

  // Trying to finalise a second time changes nothing.
  lemma {:induction false} FinalizedTwice(m: ScopeTable, id: ScopeId)
    ensures Finalized(Finalized(m, id), id) == Finalized(m, id)
  {
    if !Settled(m, id) && m[id].handler.None? {
      FinalizedShrinks(Without(m, id), m[id].parent);
    }
  }

  lemma {:induction false} FinalizedShrinks(m: ScopeTable, id: ScopeId)
    ensures Finalized(m, id).Keys <= m.Keys
    decreases m.Keys
  {
    if !Settled(m, id) && m[id].handler.None? {
      FinalizedShrinks(Without(m, id), m[id].parent);
    }
  }

  // Finalisation works on the chain above id and keeps the forest.
  lemma {:induction false} FinalizedOnlyClimbs(m: ScopeTable, id: ScopeId)
    requires Forest(m)
    ensures Forest(Finalized(m, id)) && Finalized(m, id).Keys <= m.Keys
    ensures forall x :: x in m && !(id in m && x in Ancestors(m, id)) ==>
              x in Finalized(m, id) && Finalized(m, id)[x] == m[x]
    decreases m.Keys
  {
    if Settled(m, id) {
    } else if m[id].handler.Some? {
      SameShape(m, m[id := Fired(m[id])]);
      BelowStep(m, id);
    } else {
      var p := m[id].parent;
      var m' := Without(m, id);
      assert Rooted(m, id);
      BelowStep(m, id);
      RemovingChildless(m, id);
      GlobalIsNotActive(m);
      FinalizedOnlyClimbs(m', p);
      if p != GLOBAL {
        AncestorsAgree(m, m', p);
      }
    }
  }

  // A blocked scope keeps a pending handler at or below it through the sweep
  // of everything below id and the finalisation of id.
  lemma {:induction false} PendingSomewhere(m: ScopeTable, id: ScopeId, x: ScopeId, next: ScopeId)
      returns (y: ScopeId)
    requires Forest(m) && id in m && Below(m, x, id) && Blocked(m, x)
    requires forall k <- m :: k < next
    ensures Below(m, y, x) && y in Ended(m, id) && Ended(m, id)[y].pending
    decreases next - x
  {
    BlockedWhere(m, x);
    if exists c :: c in Children(m, x) && Blocked(m, c) {
      var c :| c in Children(m, x) && Blocked(m, c);
      ChildBelow(m, c, x, id);
      y := PendingSomewhere(m, id, c, next);
      BelowTransitive(m, y, c, x);
    } else {
      y := x;
      SubtreeAfterEnd(m, id, x);
    }
  }

  // Inside id's subtree, the closed form is "drop the unblocked, close the rest".
  lemma SubtreeAfterEnd(m: ScopeTable, id: ScopeId, x: ScopeId)
    requires Forest(m) && id in m && Below(m, x, id)
    ensures x in Ended(m, id) <==> Blocked(m, x)
    ensures x in Ended(m, id) ==> Ended(m, id)[x] == Closed(m, x)
  {
    var s := Swept(m, id, Children(m, id));
    SweptKeepsForest(m, id, Children(m, id));
    ChildrenOfSwept(m, id);
    BlockedWhere(m, id);
    FinalizedOnlyClimbs(s, id);
    AncestorsAgree(m, s, id);
    if x != id {
      var c := ChildTowards(m, x, id);
      assert Under(m, x, Children(m, id));
      if x in Ancestors(m, id) {
        AncestorsAreOlder(m, id, x);
        AncestorsAreOlder(m, x, id);
      }
    } else if !Blocked(m, id) {
      assert !Settled(s, id);
      FinalizedShrinks(Without(s, id), s[id].parent);
    }
  }

  /**
   The contract of a completed RequestEnd(id). In id's subtree exactly the
   scopes with no registered or pending handler at or below them are removed,
   every survivor is close-requested with a pending handler at or below it, and
   outside the subtree only the chain above id can change.
   */
  lemma RequestEndOutcome(m: ScopeTable, id: ScopeId)
    requires Forest(m) && id in m
    ensures var m' := Ended(m, id);
      && (forall x :: Below(m, x, id) ==> (x in m' <==> Blocked(m, x)))
      && (forall x :: Below(m, x, id) && x in m' ==>
            m'[x].requested && exists y :: Below(m, y, x) && y in m' && m'[y].pending)
      && (forall x :: x in m && !Below(m, x, id) && x !in Ancestors(m, id) ==>
            x in m' && m'[x] == m[x])
  {
    var m' := Ended(m, id);
    var next := Above(m.Keys);
    forall x | Below(m, x, id)
      ensures x in m' <==> Blocked(m, x)
      ensures x in m' ==> m'[x].requested && exists y :: Below(m, y, x) && y in m' && m'[y].pending
    {
      SubtreeAfterEnd(m, id, x);
      if x in m' {
        var y := PendingSomewhere(m, id, x, next);
      }
    }
    forall x | x in m && !Below(m, x, id) && x !in Ancestors(m, id)
      ensures x in m' && m'[x] == m[x]
    {
      OutsideTheSubtree(m, id, x);
    }
  }

  lemma OutsideTheSubtree(m: ScopeTable, id: ScopeId, x: ScopeId)
    requires Forest(m) && id in m && x in m && !Below(m, x, id) && x !in Ancestors(m, id)
    ensures x in Ended(m, id) && Ended(m, id)[x] == m[x]
  {
    var s := Swept(m, id, Children(m, id));
    SweptKeepsForest(m, id, Children(m, id));
    FinalizedOnlyClimbs(s, id);
    AncestorsAgree(m, s, id);
    BelowStep(m, id);
    if Under(m, x, Children(m, id)) {
      var d :| d in Children(m, id) && Below(m, x, d);
      ChildBelow(m, d, id, id);
      BelowTransitive(m, x, d, id);
    }
  }

  // A strict upper bound of a finite set.
  ghost function Above(s: set<nat>): (n: nat)
    ensures forall x <- s :: x < n
  {
    if s == {} then 0
    else
      var x :| x in s;
      var n := Above(s - {x});
      assert s == (s - {x}) + {x};
      if x < n then n else x + 1
  }

  // Everything active belongs to the application and nothing waits for its owner.
  ghost predicate Unattended(h: Hosted)
    requires Forest(h.scopes)
  {
    forall x <- h.scopes :: Below(h.scopes, x, h.application) && !HasHandler(h.scopes[x])
  }

  /** Ending the application scope empties the table exactly when every scope
      lies below it and none has a registered or pending handler. */
  lemma ShutdownDrains(h: Hosted)
    requires WellFormed(h)
    ensures Ended(h.scopes, h.application) == map[] <==> Unattended(h)
  {
    var m, a := h.scopes, h.application;
    GlobalIsNotActive(m);
    if a in m {
      EndedKeys(m, a);
      forall x | x in m
        ensures x in Ended(m, a) <==> !Below(m, x, a) || Blocked(m, x)
      {
        BelowStep(m, a);
        if Below(m, x, a) {
          SubtreeAfterEnd(m, a, x);
        } else {
          OutsideTheSubtree(m, a, x);
        }
      }
      UnattendedExactly(h);
    } else {
      forall x | x in m
        ensures !Below(m, x, a)
      {
        if Below(m, x, a) {
          AncestorsAreOlder(m, x, a);
        }
      }
    }
  }

  lemma UnattendedExactly(h: Hosted)
    requires Forest(h.scopes)
    ensures Unattended(h) <==>
            forall x <- h.scopes :: Below(h.scopes, x, h.application) && !Blocked(h.scopes, x)
  {
    var m := h.scopes;
    forall x | x in m
      ensures HasHandler(m[x]) ==> Blocked(m, x)
    {
      BelowStep(m, x);
    }
  }

  // However far the sweep has got, nothing has gone that the closed form keeps.
  lemma SweepingKeepsTheEnd(m: ScopeTable, id: ScopeId, D: set<ScopeId>)
    requires Forest(m) && id in m && D <= Children(m, id)
    ensures Ended(m, id).Keys <= Finalized(Swept(m, id, D), id).Keys
  {
    if forall c <- Children(m, id) :: c in D {
      assert D == Children(m, id);
    } else {
      var c :| c in Children(m, id) && c !in D;
      UnsweptChild(m, id, D, c);
      FinalizedShrinks(Swept(m, id, Children(m, id)), id);
    }
  }

  // While a child is still to be closed, id itself cannot be finalised.
  lemma UnsweptChild(m: ScopeTable, id: ScopeId, done: set<ScopeId>, child: ScopeId)
    requires Forest(m) && id in m && done <= Children(m, id) && child in Children(m, id) - done
    ensures Finalized(Swept(m, id, done), id) == Swept(m, id, done)
  {
    SweptElsewhere(m, id, done, child);
    BelowStep(m, child);
    assert Swept(m, id, done)[child].parent == id;
  }

  lemma EndedKeys(m: ScopeTable, id: ScopeId)
    requires Forest(m) && id in m
    ensures Forest(Ended(m, id)) && Ended(m, id).Keys <= m.Keys
  {
    SweptKeepsForest(m, id, Children(m, id));
    FinalizedOnlyClimbs(Swept(m, id, Children(m, id)), id);
  }
}
