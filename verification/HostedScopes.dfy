/**
 `HostedUIScope::State` and the service registry it drives, as objects that are
 updated in place. Every locked section is the corresponding function of
 HostingModel; RequestEnd and TryFinalize recurse as the source does and are
 proved against the closed form of HostingClosing.
 */
module HostedScopes {
  import opened Common
  import opened HostingModel
  import opened HostingClosing

  class ServiceRegistry {
    var nextScopeId: ScopeId
    var live: set<ScopeId>

    // No identifier is handed out twice.
    ghost predicate Valid()
      reads this
    {
      nextScopeId > GLOBAL && forall x <- live :: GLOBAL < x < nextScopeId
    }

    constructor ()
      ensures Valid() && nextScopeId == 1 && live == {}
    {
      nextScopeId, live := 1, {};
    }

    method BeginScope() returns (id: ScopeId)
      requires Valid()
      modifies this
      ensures Valid() && id !in old(live) && id != GLOBAL
      ensures id == old(nextScopeId) && nextScopeId == id + 1
      ensures live == old(live) + {id}
    {
      id := nextScopeId;
      nextScopeId := nextScopeId + 1;
      live := live + {id};
    }

    method EndScope(id: ScopeId) returns (ok: bool)
      modifies this`live
      ensures old(Valid()) ==> Valid()
      ensures ok == (id in old(live) && id != GLOBAL)
      ensures live == old(live) - (if ok then {id} else {})
    {
      ok := id in live && id != GLOBAL;
      if ok {
        live := live - {id};
      }
    }
  }

  /**
   Closing work took the table from h0 to h1. No scope appears; scopes with a
   handler stay; a record changes only by becoming close-requested or by its
   waiting handler being run, and `ran` grows by exactly those handlers.
   */
  ghost predicate Closing(h0: Hosted, ran0: multiset<(ScopeId, HandlerId)>,
                          h1: Hosted, ran1: multiset<(ScopeId, HandlerId)>) {
    forall s {:trigger Opened(s)} :: Opened(s) ==>
      && Closes(h0.scopes, h1.scopes)
      && ran1 == ran0 + multiset(FiredBetween(h0.scopes, h1.scopes))
      && (WindowsAgree(h0) ==> WindowsAgree(h1))
  }

  ghost predicate Closes(m0: ScopeTable, m: ScopeTable) {
    && (forall x :: x in m ==> x in m0)
    && (forall x :: x in m0 && HasHandler(m0[x]) ==> x in m)
    && (forall x :: x in m ==>
          && m[x].parent == m0[x].parent && m[x].window == m0[x].window
          && (m0[x].requested ==> m[x].requested)
          && ((m[x].handler == m0[x].handler && m[x].pending == m0[x].pending)
              || (m0[x].handler.Some? && !m0[x].pending && m[x].handler.None? && m[x].pending)))
  }

  // Scopes m0 had with a handler waiting, whose handler m no longer holds.
  ghost function FiredBetween(m0: ScopeTable, m: ScopeTable): set<(ScopeId, HandlerId)> {
    set x | x in m0 && x in m && m0[x].handler.Some? && m[x].handler.None? :: (x, m0[x].handler.value)
  }

  lemma ClosingTransitive(a: Hosted, ra: multiset<(ScopeId, HandlerId)>,
                          b: Hosted, rb: multiset<(ScopeId, HandlerId)>,
                          c: Hosted, rc: multiset<(ScopeId, HandlerId)>)
    requires Closing(a, ra, b, rb) && Closing(b, rb, c, rc)
    ensures Closing(a, ra, c, rc)
  {
    assert Opened(Seal);
    ClosesTransitive(a.scopes, b.scopes, c.scopes);
    FiredTransitive(a.scopes, b.scopes, c.scopes);
    DisjointUnion(FiredBetween(a.scopes, b.scopes), FiredBetween(b.scopes, c.scopes));
  }

  lemma ClosesTransitive(a: ScopeTable, b: ScopeTable, c: ScopeTable)
    requires Closes(a, b) && Closes(b, c)
    ensures Closes(a, c)
  {
  }

  lemma DisjointUnion<T>(s: set<T>, t: set<T>)
    requires s !! t
    ensures multiset(s + t) == multiset(s) + multiset(t)
  {
  }

  lemma FiredTransitive(a: ScopeTable, b: ScopeTable, c: ScopeTable)
    requires Closes(a, b) && Closes(b, c)
    ensures FiredBetween(a, c) == FiredBetween(a, b) + FiredBetween(b, c)
    ensures FiredBetween(a, b) !! FiredBetween(b, c)
  {
    var ac, ab, bc := FiredBetween(a, c), FiredBetween(a, b), FiredBetween(b, c);
    forall p: (ScopeId, HandlerId)
      ensures p in ac <==> p in ab || p in bc
      ensures !(p in ab && p in bc)
    {
      var (x, h) := p;
      assert p in ac <==> x in a && x in c && a[x].handler == Some(h) && c[x].handler.None?;
      assert p in ab <==> x in a && x in b && a[x].handler == Some(h) && b[x].handler.None?;
      assert p in bc <==> x in b && x in c && b[x].handler == Some(h) && c[x].handler.None?;
    }
  }

  // EndScope calls in the order they were issued: once per scope, never for an
  // active scope, and never before the scope's children.
  ghost predicate EndsInOrder(ended: seq<ScopeId>, active: set<ScopeId>,
                              begun: map<ScopeId, ScopeId>, unannounced: set<ScopeId>) {
    && (forall i :: 0 <= i < |ended| ==>
          ended[i] in begun && ended[i] !in active && ended[i] !in unannounced)
    && (forall i, j :: 0 <= i < j < |ended| ==> ended[i] != ended[j])
    && (forall x :: x in begun ==> x in active || x in unannounced || x in ended)
    && (forall c, j {:trigger ChildFirst(ended, begun, unannounced, c, j)} ::
          c in begun && 0 <= j < |ended| ==> ChildFirst(ended, begun, unannounced, c, j))
  }

  // If c was begun under the j-th scope ended, c was ended before it.
  ghost predicate ChildFirst(ended: seq<ScopeId>, begun: map<ScopeId, ScopeId>,
                             unannounced: set<ScopeId>, c: ScopeId, j: nat)
    requires c in begun && j < |ended|
  {
    begun[c] == ended[j] ==> c in unannounced || c in ended[..j]
  }

  lemma EndsInOrderAppend(ended: seq<ScopeId>, active: set<ScopeId>,
                          begun: map<ScopeId, ScopeId>, unannounced: set<ScopeId>, id: ScopeId)
    requires EndsInOrder(ended, active, begun, unannounced)
    requires id in active && id in begun && id !in unannounced
    requires forall c :: c in active && c in begun ==> begun[c] != id
    ensures EndsInOrder(ended + [id], active - {id}, begun, unannounced)
  {
    var e := ended + [id];
    forall c, j | c in begun && 0 <= j < |e|
      ensures ChildFirst(e, begun, unannounced, c, j)
    {
      if j < |ended| {
        assert ChildFirst(ended, begun, unannounced, c, j);
        assert e[..j] == ended[..j];
      } else {
        assert e[..j] == ended;
      }
    }
    forall x | x in begun
      ensures x in active - {id} || x in unannounced || x in e
    {
      assert id == e[|ended|];
      assert x in ended ==> x in e;
    }
  }

  // A scope dropped without a registry is simply never announced.
  lemma EndsInOrderDrop(ended: seq<ScopeId>, active: set<ScopeId>,
                        begun: map<ScopeId, ScopeId>, unannounced: set<ScopeId>, id: ScopeId)
    requires EndsInOrder(ended, active, begun, unannounced)
    requires id in active
    ensures EndsInOrder(ended, active - {id}, begun, unannounced + {id})
  {
    forall c, j | c in begun && 0 <= j < |ended|
      ensures ChildFirst(ended, begun, unannounced + {id}, c, j)
    {
      assert ChildFirst(ended, begun, unannounced, c, j);
    }
  }

  // A scope begun under an active parent owes nothing to the past.
  lemma EndsInOrderBegin(ended: seq<ScopeId>, active: set<ScopeId>, begun: map<ScopeId, ScopeId>,
                         unannounced: set<ScopeId>, id: ScopeId, parent: ScopeId)
    requires EndsInOrder(ended, active, begun, unannounced)
    requires id !in begun && (parent in active || parent !in begun) && unannounced <= begun.Keys
    ensures EndsInOrder(ended, active + {id}, begun[id := parent], unannounced)
  {
    var b := begun[id := parent];
    forall c, j | c in b && 0 <= j < |ended|
      ensures ChildFirst(ended, b, unannounced, c, j)
    {
      if c != id {
        assert ChildFirst(ended, begun, unannounced, c, j);
      }
    }
  }

  // The table together with its history.
  ghost predicate HistoryOk(h: Hosted, begun: map<ScopeId, ScopeId>, ended: seq<ScopeId>,
                            unannounced: set<ScopeId>) {
    forall s {:trigger Opened(s)} :: Opened(s) ==> HistoryBody(h, begun, ended, unannounced)
  }

  ghost predicate HistoryBody(h: Hosted, begun: map<ScopeId, ScopeId>, ended: seq<ScopeId>,
                              unannounced: set<ScopeId>) {
    && WellFormed(h)
    && (forall x :: x in h.scopes ==> x in begun && begun[x] == h.scopes[x].parent)
    && (forall x :: x in begun ==> x < h.nextScopeId && begun[x] < x)
    && unannounced <= begun.Keys && unannounced !! h.scopes.Keys
    && EndsInOrder(ended, h.scopes.Keys, begun, unannounced)
  }

  // Locked sections that neither begin nor drop a scope.
  lemma SameScopesKeepHistory(h: Hosted, h': Hosted, begun: map<ScopeId, ScopeId>,
                              ended: seq<ScopeId>, unannounced: set<ScopeId>)
    requires HistoryOk(h, begun, ended, unannounced)
    requires h'.scopes.Keys == h.scopes.Keys && h'.nextScopeId == h.nextScopeId
    requires h'.application == h.application
    requires forall x :: x in h.scopes ==> h'.scopes[x].parent == h.scopes[x].parent
    ensures HistoryOk(h', begun, ended, unannounced) && Forest(h'.scopes)
  {
    assert Opened(Seal);
    SameShape(h.scopes, h'.scopes);
  }

  lemma BeginKeepsHistory(h: Hosted, h': Hosted, parent: ScopeId, begun: map<ScopeId, ScopeId>,
                          ended: seq<ScopeId>, unannounced: set<ScopeId>)
    requires HistoryOk(h, begun, ended, unannounced)
    requires parent == GLOBAL || parent in h.scopes
    requires var id := h.nextScopeId;
      && h'.nextScopeId == id + 1
      && (h'.application == h.application || (h'.application == id && parent == GLOBAL))
      && id in h'.scopes && h'.scopes[id].parent == parent
      && h'.scopes == h.scopes[id := h'.scopes[id]]
    ensures HistoryOk(h', begun[h.nextScopeId := parent], ended, unannounced) && Forest(h'.scopes)
  {
    assert Opened(Seal);
    var id := h.nextScopeId;
    EndsInOrderBegin(ended, h.scopes.Keys, begun, unannounced, id, parent);
    AddingKeepsForest(h.scopes, id, h'.scopes[id]);
    assert h'.scopes.Keys == h.scopes.Keys + {id};
  }

  lemma FinalizeKeepsHistory(h: Hosted, id: ScopeId, begun: map<ScopeId, ScopeId>,
                             ended: seq<ScopeId>, unannounced: set<ScopeId>)
    requires HistoryOk(h, begun, ended, unannounced)
    ensures var (h', o) := Finalize(h, id);
      && (!o.Erased? ==> HistoryOk(h', begun, ended, unannounced))
      && (o.Erased? && o.endScope ==> HistoryOk(h', begun, ended + [id], unannounced))
      && (o.Erased? && !o.endScope ==> HistoryOk(h', begun, ended, unannounced + {id}))
      && Forest(h'.scopes) && UnchangedByClosing(h, h') && (o.Erased? ==> id > GLOBAL)
      && h'.scopes.Keys == h.scopes.Keys - (if o.Erased? then {id} else {})
  {
    assert Opened(Seal);
    var (h', o) := Finalize(h, id);
    FinalizeKeepsWellFormed(h, id);
    GlobalIsNotActive(h.scopes);
    if o.Erased? {
      FinalizeMeans(h, id);
      assert h'.scopes.Keys == h.scopes.Keys - {id};
      if o.endScope {
        EndsInOrderAppend(ended, h.scopes.Keys, begun, unannounced, id);
      } else {
        EndsInOrderDrop(ended, h.scopes.Keys, begun, unannounced, id);
      }
    }
  }

  // What closing never touches.
  ghost predicate UnchangedByClosing(h: Hosted, h': Hosted) {
    && h'.bound == h.bound && h'.acceptsWork == h.acceptsWork && h'.nextScopeId == h.nextScopeId
    && h'.application in {h.application, GLOBAL}
  }

  // The locked section of TryFinalize, outcome by outcome.
  lemma FinalizeKeepsWellFormed(h: Hosted, id: ScopeId)
    requires WellFormed(h)
    ensures var (h', o) := Finalize(h, id);
      && WellFormed(h') && UnchangedByClosing(h, h')
      && h'.scopes.Keys == h.scopes.Keys - (if o.Erased? then {id} else {})
  {
    var (h', o) := Finalize(h, id);
    if o.RunHandler? {
      SameShape(h.scopes, h'.scopes);
    } else if o.Erased? {
      RemovingChildless(h.scopes, id);
    }
  }

  lemma FinalizeMeans(h: Hosted, id: ScopeId)
    ensures var (h', o) := Finalize(h, id);
      && (!o.Erased? ==> h'.scopes == Finalized(h.scopes, id))
      && (o.Erased? ==> Finalized(h.scopes, id) == Finalized(h'.scopes, o.parent))
      && (o.Erased? ==> id in h.scopes && !HasChild(h.scopes, id) && o.parent == h.scopes[id].parent
                        && o.endScope == h.bound)
  {
  }

  lemma FinalizeIsClosing(h: Hosted, id: ScopeId, ran: multiset<(ScopeId, HandlerId)>)
    ensures var (h', o) := Finalize(h, id);
      Closing(h, ran, h', if o.RunHandler? then ran + multiset{(id, o.handler)} else ran)
  {
    assert Opened(Seal);
    FinalizeCloses(h.scopes, h, id);
    if WindowsAgree(h) {
      FinalizeKeepsWindows(h, id);
    }
  }

  lemma FinalizeKeepsWindows(h: Hosted, id: ScopeId)
    requires WindowsAgree(h)
    ensures WindowsAgree(Finalize(h, id).0)
  {
  }

  lemma FinalizeCloses(m: ScopeTable, h: Hosted, id: ScopeId)
    requires m == h.scopes
    ensures var (h', o) := Finalize(h, id);
      && Closes(m, h'.scopes)
      && FiredBetween(m, h'.scopes) == if o.RunHandler? then {(id, o.handler)} else {}
  {
  }

  lemma ClosingReflexive(h: Hosted, ran: multiset<(ScopeId, HandlerId)>)
    ensures Closing(h, ran, h, ran)
  {
    assert Opened(Seal);
    assert FiredBetween(h.scopes, h.scopes) == {};
  }

  // The first locked section of RequestEnd.
  lemma RequestingEffects(a: Trail, id: ScopeId, unannounced: set<ScopeId>)
    requires HistoryOk(a.h, a.begun, a.ended, unannounced) && id in a.h.scopes && Forest(a.h.scopes)
    ensures var m' := Requested(a.h.scopes, id); var h' := a.h.(scopes := m');
      && HistoryOk(h', a.begun, a.ended, unannounced) && Forest(m')
      && Progress(a, m', a.(h := h'), Ok(()))
      && Children(m', id) == Children(a.h.scopes, id)
      && m' == Swept(a.h.scopes, id, {})
      && (forall c :: c in Children(m', id) ==> id < c < a.h.nextScopeId)
  {
    var m' := Requested(a.h.scopes, id);
    SameScopesKeepHistory(a.h, a.h.(scopes := m'), a.begun, a.ended, unannounced);
    RequestingIsClosing(a.h, id, a.ran);
    SweptNothing(a.h.scopes, id);
    ChildrenAreYounger(a.h.(scopes := m'), a.begun, a.ended, unannounced, id);
    AnnouncedNothing(a, a.(h := a.h.(scopes := m')));
  }

  lemma SweptNothing(m: ScopeTable, id: ScopeId)
    requires Forest(m) && id in m
    ensures Requested(m, id) == Swept(m, id, {})
    ensures Children(Requested(m, id), id) == Children(m, id)
  {
  }

  lemma RequestingIsClosing(h: Hosted, id: ScopeId, ran: multiset<(ScopeId, HandlerId)>)
    requires id in h.scopes
    ensures Closing(h, ran, h.(scopes := Requested(h.scopes, id)), ran)
  {
    assert Opened(Seal);
    assert FiredBetween(h.scopes, Requested(h.scopes, id)) == {};
  }

  lemma ChildrenAreYounger(h: Hosted, begun: map<ScopeId, ScopeId>, ended: seq<ScopeId>,
                           unannounced: set<ScopeId>, id: ScopeId)
    requires HistoryOk(h, begun, ended, unannounced)
    ensures forall c :: c in Children(h.scopes, id) ==> id < c < h.nextScopeId
  {
    assert Opened(Seal);
    forall c | c in Children(h.scopes, id)
      ensures id < c < h.nextScopeId
    {
      assert Rooted(h.scopes, c);
    }
  }

  // The table once the subtrees of id's children in D are closed: after the last,
  // id itself may have been finalised on the way up.
  ghost function SweptSoFar(m: ScopeTable, id: ScopeId, D: set<ScopeId>): ScopeTable
    requires Forest(m)
  {
    if D == {} then Swept(m, id, {}) else Finalized(Swept(m, id, D), id)
  }

  lemma SweepingOn(m: ScopeTable, id: ScopeId, done: set<ScopeId>, child: ScopeId)
    requires Forest(m) && id in m && done <= Children(m, id) && child in Children(m, id) - done
    ensures Forest(SweptSoFar(m, id, done))
    ensures Ended(SweptSoFar(m, id, done), child) == SweptSoFar(m, id, done + {child})
    ensures Ended(m, id).Keys <= SweptSoFar(m, id, done + {child}).Keys
  {
    UnsweptChild(m, id, done, child);
    ClosingOneChild(m, id, done, child);
    SweepingKeepsTheEnd(m, id, done + {child});
  }

  lemma SweptSoFarEnds(m: ScopeTable, id: ScopeId)
    requires Forest(m) && id in m
    ensures Finalized(SweptSoFar(m, id, Children(m, id)), id) == Ended(m, id)
  {
    FinalizedTwice(Swept(m, id, Children(m, id)), id);
  }

  // Nothing is left to do above the root.
  lemma FinalizedGlobal(m: ScopeTable)
    requires Forest(m)
    ensures Finalized(m, GLOBAL) == m
  {
    GlobalIsNotActive(m);
  }

  // What a pump of the UI queue brings while shutting down.
  datatype Work =
    | EndWork(id: ScopeId)
    | ClearWork(id: ScopeId)
    | HandlerWork(id: ScopeId, handler: HandlerId)
    | BeginWork(parent: ScopeId, window: Option<WindowId>)

  datatype Pump = Pump(ok: bool, work: seq<Work>)

  const ATTEMPTS: nat := 256

  // The effect of such work once new scopes are refused.
  ghost function Performed(m: ScopeTable, work: Work): (r: ScopeTable)
    requires Forest(m)
    ensures Forest(r) && r.Keys <= m.Keys
  {
    match work
    case EndWork(id) => EndedShrinks(m, id); Ended(m, id)
    case ClearWork(id) =>
      var r := if id in m then m[id := m[id].(handler := None, pending := false)] else m;
      SameShape(m, r);
      r
    case HandlerWork(id, handler) =>
      var r := if id in m && m[id].handler.None? then m[id := m[id].(handler := Some(handler))] else m;
      SameShape(m, r);
      r
    case BeginWork(_, _) => m
  }

  lemma EndedShrinks(m: ScopeTable, id: ScopeId)
    requires Forest(m)
    ensures Forest(Ended(m, id)) && Ended(m, id).Keys <= m.Keys
  {
    if id in m {
      EndedKeys(m, id);
    }
  }

  ghost function PerformedAll(m: ScopeTable, work: seq<Work>, n: nat): (r: ScopeTable)
    requires Forest(m) && n <= |work|
    ensures Forest(r) && r.Keys <= m.Keys
  {
    if n == 0 then m else Performed(PerformedAll(m, work, n - 1), work[n - 1])
  }

  // The table after k pumps.
  ghost function Pumped(m: ScopeTable, pumps: seq<Pump>, k: nat): (r: ScopeTable)
    requires Forest(m) && k <= |pumps|
    ensures Forest(r) && r.Keys <= m.Keys
  {
    if k == 0 then m else PerformedAll(Pumped(m, pumps, k - 1), pumps[k - 1].work, |pumps[k - 1].work|)
  }

  // k pumps can be made, none fails, and the table is empty after them.
  ghost predicate DrainedBy(m: ScopeTable, running: bool, pumps: seq<Pump>, k: nat)
    requires Forest(m) && k <= |pumps|
  {
    (k > 0 ==> running) && (forall j :: 0 <= j < k ==> pumps[j].ok) && Pumped(m, pumps, k) == map[]
  }

  // The table is not empty up to pump k, which is the first to fail.
  ghost predicate FailsAt(m: ScopeTable, running: bool, pumps: seq<Pump>, k: nat)
    requires Forest(m) && k < |pumps|
  {
    && running && !pumps[k].ok && (forall j :: 0 <= j < k ==> pumps[j].ok)
    && forall j :: 0 <= j <= k ==> Pumped(m, pumps, j) != map[]
  }

  // Some pump before the last empties the table and none before it fails.
  ghost predicate Drains(m: ScopeTable, running: bool, pumps: seq<Pump>)
    requires Forest(m) && |pumps| >= 256
  {
    exists k: nat :: k < 256 && DrainedBy(m, running, pumps, k)
  }

  // A pump fails before the table is empty.
  ghost predicate Fails(m: ScopeTable, running: bool, pumps: seq<Pump>)
    requires Forest(m) && |pumps| >= 256
  {
    exists k: nat :: k < 256 && FailsAt(m, running, pumps, k)
  }

  // The k-th attempt is made.
  ghost predicate Pumping(m: ScopeTable, running: bool, pumps: seq<Pump>, k: nat)
    requires Forest(m) && k <= |pumps|
  {
    (k > 0 ==> running) && forall j :: 0 <= j < k ==> pumps[j].ok && Pumped(m, pumps, j) != map[]
  }

  // The attempt decides.
  lemma AttemptDecides(m: ScopeTable, running: bool, pumps: seq<Pump>, k: nat)
    requires Forest(m) && k <= 256 <= |pumps| && Pumping(m, running, pumps, k)
    ensures var empty := Pumped(m, pumps, k) == map[];
      && (k < 256 && empty ==> Drains(m, running, pumps) && !Fails(m, running, pumps))
      && (k < 256 && !empty && !running ==> !Drains(m, running, pumps) && !Fails(m, running, pumps))
      && (k < 256 && !empty && running && !pumps[k].ok ==>
            Fails(m, running, pumps) && !Drains(m, running, pumps))
      && (k == 256 ==> !Drains(m, running, pumps) && !Fails(m, running, pumps))
  {
    if k < 256 {
      if Pumped(m, pumps, k) == map[] {
        assert DrainedBy(m, running, pumps, k);
      } else if running && !pumps[k].ok {
        assert FailsAt(m, running, pumps, k);
      }
    }
  }

  /** Shutdown needs no pump exactly when every scope lies below the application
      scope and none has a registered or pending handler; without a UI runtime
      that is the only way it can succeed. */
  lemma DrainsAtOnce(h: Hosted, running: bool, pumps: seq<Pump>)
    requires WellFormed(h) && |pumps| >= 256
    ensures var m := Ended(h.scopes, h.application);
      && Forest(m)
      && (DrainedBy(m, running, pumps, 0) <==> Unattended(h))
      && (Unattended(h) ==> Drains(m, running, pumps))
      && (!running ==> (Drains(m, running, pumps) <==> Unattended(h)))
  {
    EndedShrinks(h.scopes, h.application);
    ShutdownDrains(h);
  }

  /** A table that only the 256th pump empties is emptied too late. */
  lemma LastPumpComesTooLate(id: ScopeId, pumps: seq<Pump>)
    requires id > GLOBAL && |pumps| == 256 && pumps[255].work == [ClearWork(id), EndWork(id)]
    requires forall k :: 0 <= k < 256 ==> pumps[k].ok && (k < 255 ==> pumps[k].work == [])
    ensures var m := map[id := ScopeRecord(GLOBAL, None, None, true, true)];
      && Forest(m) && Pumped(m, pumps, 256) == map[]
      && !Drains(m, true, pumps) && !Fails(m, true, pumps)
  {
    var m := map[id := ScopeRecord(GLOBAL, None, None, true, true)];
    assert Rooted(m, id);
    forall k: nat | k < 256
      ensures Pumped(m, pumps, k) == m
    {
      PumpedIdly(m, pumps, k);
    }
    var work := pumps[255].work;
    assert PerformedAll(m, work, 0) == m;
    var cleared := PerformedAll(m, work, 1);
    assert cleared == map[id := ScopeRecord(GLOBAL, None, None, false, true)];
    BelowStep(cleared, id);
    ShutdownDrains(Hosted(true, id, cleared, map[], false, id + 1));
    assert PerformedAll(m, work, 2) == Ended(cleared, id);
  }

  lemma {:induction false} PumpedIdly(m: ScopeTable, pumps: seq<Pump>, k: nat)
    requires Forest(m) && k <= |pumps| && forall j :: 0 <= j < k ==> pumps[j].work == []
    ensures Pumped(m, pumps, k) == m
  {
    if k > 0 {
      PumpedIdly(m, pumps, k - 1);
    }
  }

  lemma HistoryWellFormed(h: Hosted, begun: map<ScopeId, ScopeId>, ended: seq<ScopeId>, unannounced: set<ScopeId>)
    requires HistoryOk(h, begun, ended, unannounced)
    ensures WellFormed(h)
  {
    assert Opened(Seal);
  }

  // A scope table with its history and what the registry knows.
  datatype Trail = Trail(
    h: Hosted,
    begun: map<ScopeId, ScopeId>,
    ended: seq<ScopeId>,
    ran: multiset<(ScopeId, HandlerId)>,
    live: set<ScopeId>)

  /**
   Closing work that is to take the table to `goal` led from a to b. It erases
   nothing beyond the goal, calls EndScope once for each scope it erases, and the
   registry forgets those. It succeeds when it reaches the goal, having ended only
   scopes the registry knew; it fails right at the first scope that was not.
   */
  ghost predicate Progress(a: Trail, goal: ScopeTable, b: Trail, r: Result<(), Error>) {
    forall s {:trigger Opened(s)} :: Opened(s) ==>
      && Closing(a.h, a.ran, b.h, b.ran) && UnchangedByClosing(a.h, b.h) && a.begun == b.begun
      && Reached(a, goal, b, r) && Announced(a, b)
  }

  ghost predicate Reached(a: Trail, goal: ScopeTable, b: Trail, r: Result<(), Error>) {
    var erased := ErasedBetween(a, b);
    && goal.Keys <= b.h.scopes.Keys <= a.h.scopes.Keys
    && b.live == a.live - (if a.h.bound then erased else {})
    && (r.Ok? ==> b.h.scopes == goal && (a.h.bound ==> erased <= a.live))
    && (r.Err? ==> a.h.bound && b.ended != [] && erased - a.live == {b.ended[|b.ended| - 1]})
  }

  // The log grew by exactly the erased scopes, or not at all without a registry.
  ghost predicate Announced(a: Trail, b: Trail) {
    && a.ended <= b.ended
    && multiset(b.ended[|a.ended|..]) == if a.h.bound then multiset(ErasedBetween(a, b)) else multiset{}
  }

  ghost function ErasedBetween(a: Trail, b: Trail): set<ScopeId> {
    a.h.scopes.Keys - b.h.scopes.Keys
  }

  /** A closing succeeds, and then reaches its goal, exactly when there is no
      registry or it knows every scope to be erased. */
  lemma SucceedsExactly(a: Trail, goal: ScopeTable, b: Trail, r: Result<(), Error>)
    requires Progress(a, goal, b, r)
    ensures r.Ok? <==> (a.h.bound ==> a.h.scopes.Keys - goal.Keys <= a.live)
    ensures r.Ok? ==> b.h.scopes == goal
    ensures r.Err? ==> goal.Keys <= b.h.scopes.Keys
    ensures Announced(a, b) && (r.Err? ==> b.ended != [] && ErasedBetween(a, b) - a.live == {b.ended[|b.ended| - 1]})
  {
    assert Opened(Seal);
  }

  /** Whether or not a closing succeeds, what it leaves active keeps its place, its
      window and any request to close; a handler goes only by being taken, leaves
      its scope pending and is then counted as run. */
  lemma ClosingLeaves(a: Trail, goal: ScopeTable, b: Trail, r: Result<(), Error>, x: ScopeId)
    requires Progress(a, goal, b, r) && x in b.h.scopes
    ensures x in a.h.scopes
    ensures var (before, after) := (a.h.scopes[x], b.h.scopes[x]);
      && after.parent == before.parent && after.window == before.window && (before.requested ==> after.requested)
      && (after.handler == before.handler || after.handler.None?)
      && (after.handler != before.handler ==>
            !before.pending && after.pending && b.ran[(x, before.handler.value)] > a.ran[(x, before.handler.value)])
      && (after.handler == before.handler ==> after.pending == before.pending)
    ensures b.h.bound == a.h.bound && b.h.acceptsWork == a.h.acceptsWork && b.h.nextScopeId == a.h.nextScopeId
    ensures b.h.application in {a.h.application, GLOBAL}
  {
    assert Opened(Seal);
    var before := a.h.scopes[x];
    if b.h.scopes[x].handler != before.handler {
      assert (x, before.handler.value) in FiredBetween(a.h.scopes, b.h.scopes);
    }
  }

  lemma ProgressTwice(a: Trail, b: Trail, goal: ScopeTable, c: Trail, r: Result<(), Error>)
    requires Progress(a, b.h.scopes, b, Ok(())) && Progress(b, goal, c, r)
    ensures Progress(a, goal, c, r)
  {
    assert Opened(Seal);
    ClosingTransitive(a.h, a.ran, b.h, b.ran, c.h, c.ran);
    ReachedTwice(a, b, goal, c, r);
    AnnouncedTwice(a, b, c);
  }

  lemma ReachedTwice(a: Trail, b: Trail, goal: ScopeTable, c: Trail, r: Result<(), Error>)
    requires Reached(a, b.h.scopes, b, Ok(())) && Reached(b, goal, c, r) && b.h.bound == a.h.bound
    ensures Reached(a, goal, c, r)
  {
    ErasedTwice(a, b, c);
  }

  lemma ErasedTwice(a: Trail, b: Trail, c: Trail)
    requires c.h.scopes.Keys <= b.h.scopes.Keys <= a.h.scopes.Keys
    ensures ErasedBetween(a, c) == ErasedBetween(a, b) + ErasedBetween(b, c)
    ensures ErasedBetween(a, b) !! ErasedBetween(b, c)
  {
  }

  lemma AnnouncedTwice(a: Trail, b: Trail, c: Trail)
    requires c.h.scopes.Keys <= b.h.scopes.Keys <= a.h.scopes.Keys && b.h.bound == a.h.bound
    requires Announced(a, b) && Announced(b, c)
    ensures Announced(a, c)
  {
    ErasedTwice(a, b, c);
    DisjointUnion(ErasedBetween(a, b), ErasedBetween(b, c));
    LogTwice(a.ended, b.ended, c.ended);
  }

  lemma LogTwice<T>(a: seq<T>, b: seq<T>, c: seq<T>)
    requires a <= b <= c
    ensures multiset(c[|a|..]) == multiset(b[|a|..]) + multiset(c[|b|..])
  {
    assert c[|a|..] == b[|a|..] + c[|b|..];
  }

  // A closing that failed has not gone past any later goal either.
  lemma ProgressShort(a: Trail, goal: ScopeTable, b: Trail, r: Result<(), Error>, later: ScopeTable)
    requires Progress(a, goal, b, r) && r.Err? && later.Keys <= goal.Keys
    ensures Progress(a, later, b, r)
  {
    assert Opened(Seal);
  }

  lemma ProgressOk(a: Trail, goal: ScopeTable, b: Trail)
    requires Progress(a, goal, b, Ok(()))
    ensures b.h.scopes == goal
  {
    assert Opened(Seal);
  }

  lemma ProgressUnchanged(a: Trail, goal: ScopeTable, b: Trail, r: Result<(), Error>)
    requires Progress(a, goal, b, r)
    ensures UnchangedByClosing(a.h, b.h) && b.h.scopes.Keys <= a.h.scopes.Keys
    ensures a.h.scopes.Keys <= a.live ==> r.Ok? && b.h.scopes == goal && b.h.scopes.Keys <= b.live
  {
    assert Opened(Seal);
  }

  lemma NoProgress(a: Trail)
    ensures Progress(a, a.h.scopes, a, Ok(()))
  {
    ClosingReflexive(a.h, a.ran);
    AnnouncedNothing(a, a);
  }

  lemma AnnouncedNothing(a: Trail, b: Trail)
    requires a.h.scopes.Keys == b.h.scopes.Keys && a.ended == b.ended
    ensures ErasedBetween(a, b) == {} && Announced(a, b)
  {
  }

  // What TryFinalize leads to when it takes a handler and runs it.
  lemma RunningProgresses(a: Trail, id: ScopeId)
    requires Finalize(a.h, id).1.RunHandler?
    ensures var (h, o) := Finalize(a.h, id);
      Progress(a, h.scopes, a.(h := h, ran := a.ran + multiset{(id, o.handler)}), Ok(()))
  {
    FinalizeIsClosing(a.h, id, a.ran);
    AnnouncedNothing(a, a.(h := Finalize(a.h, id).0));
  }

  // What it leads to when it erases a scope, by how EndScope turns out.
  lemma ErasingProgresses(a: Trail, id: ScopeId)
    requires Finalize(a.h, id).1.Erased?
    ensures var (h, o) := Finalize(a.h, id);
      && (!o.endScope ==> Progress(a, h.scopes, a.(h := h), Ok(())))
      && (o.endScope && id in a.live ==>
            Progress(a, h.scopes, a.(h := h, ended := a.ended + [id], live := a.live - {id}), Ok(())))
      && (o.endScope && id !in a.live ==>
            Progress(a, Finalized(a.h.scopes, id), a.(h := h, ended := a.ended + [id]), Err(EndScopeFailed)))
  {
    var (h, o) := Finalize(a.h, id);
    FinalizeIsClosing(a.h, id, a.ran);
    FinalizeMeans(a.h, id);
    FinalizedShrinks(h.scopes, o.parent);
    assert a.h.scopes.Keys - h.scopes.Keys == {id};
    assert id !in a.live ==> a.live - {id} == a.live;
    assert (a.ended + [id])[|a.ended|..] == [id];
  }

  class HostedScopes {
    const services: ServiceRegistry
    var bound: bool
    var applicationScope: ScopeId
    var scopes: ScopeTable
    var windows: map<WindowId, ScopeId>
    var acceptsWork: bool

    // History: the parent each scope was begun under, the EndScope calls issued,
    // scopes dropped while no registry was bound, and the handlers run.
    ghost var begun: map<ScopeId, ScopeId>
    ghost var ended: seq<ScopeId>
    ghost var unannounced: set<ScopeId>
    ghost var ran: multiset<(ScopeId, HandlerId)>

    ghost function Table(): Hosted
      reads this, services
    {
      Hosted(bound, applicationScope, scopes, windows, acceptsWork, services.nextScopeId)
    }

    ghost function Now(): Trail
      reads this, services
    {
      Trail(Table(), begun, ended, ran, services.live)
    }

    ghost predicate Valid()
      reads this, services
    {
      services.Valid() && Forest(scopes) && HistoryOk(Table(), begun, ended, unannounced)
    }

    // Nobody else ended one of these scopes at the registry.
    ghost predicate AllLive()
      reads this, services
    {
      scopes.Keys <= services.live
    }

    constructor (registry: ServiceRegistry)
      requires registry.Valid()
      ensures services == registry && Valid() && AllLive()
      ensures Table() == Hosted(false, GLOBAL, map[], map[], false, registry.nextScopeId)
    {
      services := registry;
      bound, applicationScope, scopes, windows, acceptsWork := false, GLOBAL, map[], map[], false;
      begun, ended, unannounced, ran := map[], [], {}, multiset{};
      new;
      assert Opened(Seal);
    }

    method Bind() returns (r: Result<(), Error>)
      requires Valid()
      modifies this, services
      ensures Valid() && (old(AllLive()) ==> AllLive())
      ensures r == if old(bound) then Err(InvalidState) else Ok(())
      ensures Table() == if r.Ok? then HostingModel.Bind(old(Table())) else old(Table())
    {
      if bound {
        return Err(InvalidState);
      }
      ghost var h := Table();
      var id := services.BeginScope();
      bound := true;
      applicationScope := id;
      scopes := scopes[id := ScopeRecord(GLOBAL, None, None, false, false)];
      acceptsWork := true;
      BeginKeepsHistory(h, Table(), GLOBAL, begun, ended, unannounced);
      begun := begun[id := GLOBAL];
      return Ok(());
    }

    method BeginScope(parent: ScopeId, window: Option<WindowId>) returns (r: Result<ScopeId, Error>)
      requires Valid()
      modifies this, services
      ensures Valid() && (old(AllLive()) ==> AllLive())
      ensures match HostingModel.BeginScope(old(Table()), parent, window)
              case Ok(h) => r == Ok(old(services.nextScopeId)) && Table() == h
              case Err(e) => r == Err(e) && Table() == old(Table())
    {
      if !acceptsWork || !bound {
        return Err(InvalidState);
      }
      if parent != GLOBAL && parent !in scopes {
        return Err(NotFound);
      }
      ghost var h := Table();
      var id := services.BeginScope();
      scopes := scopes[id := ScopeRecord(parent, window, None, false, false)];
      if window.Some? {
        windows := windows[window.value := id];
      }
      BeginKeepsHistory(h, Table(), parent, begun, ended, unannounced);
      begun := begun[id := parent];
      return Ok(id);
    }

    method SetCloseHandler(id: ScopeId, handler: HandlerId) returns (r: Result<(), Error>)
      requires Valid()
      modifies this
      ensures Valid() && (old(AllLive()) ==> AllLive())
      ensures match HostingModel.SetCloseHandler(old(Table()), id, handler)
              case Ok(h) => r == Ok(()) && Table() == h
              case Err(e) => r == Err(e) && Table() == old(Table())
    {
      if id !in scopes {
        return Err(NotFound);
      }
      if scopes[id].handler.Some? {
        return Err(AlreadyExists);
      }
      ghost var h := Table();
      scopes := scopes[id := scopes[id].(handler := Some(handler))];
      SameScopesKeepHistory(h, Table(), begun, ended, unannounced);
      return Ok(());
    }

    method ClearCloseHandler(id: ScopeId)
      requires Valid()
      modifies this
      ensures Valid() && (old(AllLive()) ==> AllLive())
      ensures Table() == HostingModel.ClearCloseHandler(old(Table()), id)
    {
      if id in scopes {
        ghost var h := Table();
        scopes := scopes[id := scopes[id].(handler := None, pending := false)];
        SameScopesKeepHistory(h, Table(), begun, ended, unannounced);
      }
    }

    // The locked section of TryFinalize.
    method FinalizeSection(id: ScopeId) returns (outcome: Outcome)
      requires Valid()
      modifies this`applicationScope, this`scopes, this`windows
      ensures (Table(), outcome) == Finalize(old(Table()), id)
      ensures Forest(scopes) && scopes.Keys == old(scopes).Keys - (if outcome.Erased? then {id} else {})
      ensures HistoryOk(Table(), begun,
                if outcome.Erased? && outcome.endScope then ended + [id] else ended,
                if outcome.Erased? && !outcome.endScope then unannounced + {id} else unannounced)
      ensures outcome.Erased? ==> id in old(scopes) && id > GLOBAL
      ensures Finalized(old(scopes), id) ==
                if outcome.Erased? then Finalized(scopes, outcome.parent) else scopes
      ensures Finalized(scopes, GLOBAL) == scopes
    {
      ghost var h := Table();
      var (h', o) := Finalize(Hosted(bound, applicationScope, scopes, windows, acceptsWork, services.nextScopeId), id);
      FinalizeKeepsHistory(h, id, begun, ended, unannounced);
      FinalizeMeans(h, id);
      applicationScope, scopes, windows := h'.application, h'.scopes, h'.windows;
      FinalizedGlobal(scopes);
      outcome := o;
    }

    // What TryFinalize does with an erased scope outside the lock.
    method Announce(id: ScopeId, endScope: bool, ghost start: Trail) returns (ok: bool)
      requires services.Valid() && Forest(scopes) && id > GLOBAL
      requires Now() == start.(h := Table())
      requires Finalize(start.h, id).0 == Table() && Finalize(start.h, id).1.Erased?
      requires endScope == Finalize(start.h, id).1.endScope
      requires HistoryOk(Table(), begun, if endScope then ended + [id] else ended,
                         if endScope then unannounced else unannounced + {id})
      modifies this`ended, this`unannounced, services`live
      ensures Valid() && Table() == old(Table())
      ensures ok ==> Progress(start, scopes, Now(), Ok(()))
      ensures !ok ==> Progress(start, Finalized(start.h.scopes, id), Now(), Err(EndScopeFailed))
    {
      ErasingProgresses(start, id);
      ok := true;
      if endScope {
        ended := ended + [id];
        ok := services.EndScope(id);
        assert Now() == start.(h := Table(), ended := start.ended + [id], live := services.live);
        assert !ok ==> services.live == start.live;
      } else {
        unannounced := unannounced + {id};
        assert Now() == start.(h := Table());
      }
    }

    // Ends one scope, or runs its handler, and then climbs to its parent.
    method TryFinalize(id: ScopeId) returns (r: Result<(), Error>)
      requires Valid()
      modifies this, services
      ensures Valid() && services.nextScopeId == old(services.nextScopeId)
      ensures Progress(old(Now()), Finalized(old(scopes), id), Now(), r)
      decreases scopes.Keys
    {
      ghost var start := Now();
      var outcome := FinalizeSection(id);
      match outcome {
        case Idle =>
          NoProgress(start);
          r := Ok(());
        case RunHandler(handler) =>
          RunningProgresses(start, id);
          ran := ran + multiset{(id, handler)};
          r := Ok(());
        case Erased(parent, endScope) =>
          var ok := Announce(id, endScope, start);
          if !ok {
            r := Err(EndScopeFailed);
          } else if parent != GLOBAL {
            ghost var between := Now();
            r := TryFinalize(parent);
            ProgressTwice(start, between, Finalized(start.h.scopes, id), Now(), r);
          } else {
            r := Ok(());
          }
      }
    }

    // The locked section of RequestEnd.
    method RequestSection(id: ScopeId) returns (children: set<ScopeId>)
      requires Valid() && id in scopes
      modifies this`scopes
      ensures Valid() && scopes == Swept(old(scopes), id, {})
      ensures children == Children(old(scopes), id) && forall c <- children :: id < c < services.nextScopeId
      ensures Progress(old(Now()), scopes, Now(), Ok(()))
    {
      ghost var start := Now();
      scopes := scopes[id := scopes[id].(requested := true)];
      RequestingEffects(start, id, unannounced);
      children := set c | c in scopes && scopes[c].parent == id;
      assert children == Children(scopes, id);
    }

    // Closes the subtree of id, children first, then id itself.
    method RequestEnd(id: ScopeId) returns (r: Result<(), Error>)
      requires Valid()
      modifies this, services
      ensures Valid() && services.nextScopeId == old(services.nextScopeId)
      ensures Progress(old(Now()), Ended(old(scopes), id), Now(), r)
      decreases if id < services.nextScopeId then services.nextScopeId - id else 0
    {
      GlobalIsNotActive(scopes);
      ghost var m, start := scopes, Now();
      if id == GLOBAL || id !in scopes {
        NoProgress(start);
        return Ok(());
      }
      var rest := RequestSection(id);
      ghost var done: set<ScopeId> := {};
      while rest != {}
        invariant Valid() && services.nextScopeId == start.h.nextScopeId
        invariant rest + done == Children(m, id) && rest !! done
        invariant scopes == SweptSoFar(m, id, done)
        invariant Progress(start, scopes, Now(), Ok(()))
        decreases rest
      {
        var child :| child in rest;
        rest := rest - {child};
        ghost var before := Now();
        SweepingOn(m, id, done, child);
        r := RequestEnd(child);
        done := done + {child};
        ProgressTwice(start, before, SweptSoFar(m, id, done), Now(), r);
        if r.Err? {
          ProgressShort(start, SweptSoFar(m, id, done), Now(), r, Ended(m, id));
          return;
        }
        ProgressOk(start, SweptSoFar(m, id, done), Now());
      }
      assert done == Children(m, id);
      ghost var before := Now();
      SweptSoFarEnds(m, id);
      r := TryFinalize(id);
      ProgressTwice(start, before, Ended(m, id), Now(), r);
    }

    // Stops new work, then closes everything below the application scope.
    method BeginShutdown() returns (ghost r: Result<(), Error>)
      requires Valid()
      modifies this, services
      ensures Valid() && !acceptsWork && bound == old(bound)
      ensures Progress(old(Now()).(h := old(Table()).(acceptsWork := false)),
                       Ended(old(scopes), old(applicationScope)), Now(), r)
    {
      acceptsWork := false;
      SameScopesKeepHistory(old(Table()), Table(), begun, ended, unannounced);
      ghost var start := Now();
      var result := RequestEnd(applicationScope);
      r := result;
      ProgressUnchanged(start, Ended(start.h.scopes, start.h.application), Now(), r);
    }

    // Work that a pump of the UI queue may bring.
    method Perform(work: Work)
      requires Valid()
      modifies this, services
      ensures Valid() && acceptsWork == old(acceptsWork) && bound == old(bound)
      ensures !acceptsWork ==> scopes.Keys <= old(scopes).Keys
      ensures !acceptsWork && old(AllLive()) ==> AllLive() && scopes == Performed(old(scopes), work)
    {
      match work {
        case EndWork(id) =>
          ghost var start := Now();
          var r := RequestEnd(id);
          ProgressUnchanged(start, Ended(start.h.scopes, id), Now(), r);
        case ClearWork(id) => ClearCloseHandler(id);
        case HandlerWork(id, handler) => var _ := SetCloseHandler(id, handler);
        case BeginWork(parent, window) => var _ := BeginScope(parent, window);
      }
    }

    method PerformAll(work: seq<Work>)
      requires Valid()
      modifies this, services
      ensures Valid() && acceptsWork == old(acceptsWork) && bound == old(bound)
      ensures !acceptsWork ==> scopes.Keys <= old(scopes).Keys
      ensures !acceptsWork && old(AllLive()) ==> AllLive() && scopes == PerformedAll(old(scopes), work, |work|)
    {
      for k := 0 to |work|
        invariant Valid() && acceptsWork == old(acceptsWork) && bound == old(bound)
        invariant !acceptsWork ==> scopes.Keys <= old(scopes).Keys
        invariant !acceptsWork && old(AllLive()) ==> AllLive() && scopes == PerformedAll(old(scopes), work, k)
      {
        Perform(work[k]);
      }
    }

    method Unbind()
      requires Valid()
      modifies this`bound
      ensures Valid() && !bound
    {
      ghost var h := Table();
      bound := false;
      SameScopesKeepHistory(h, Table(), begun, ended, unannounced);
    }

    // The loop that pumps the UI queue until the table is empty.
    method Drain(running: bool, pumps: seq<Pump>) returns (r: Result<(), Error>)
      requires Valid() && !acceptsWork && |pumps| >= 256
      modifies this, services
      ensures Valid() && !acceptsWork && scopes.Keys <= old(scopes).Keys
      ensures r.Ok? ==> scopes == map[] && !bound
      ensures r.Err? ==> r.error in {PumpFailed, InvalidState} && bound == (r.error == PumpFailed && old(bound))
      ensures old(AllLive()) ==>
        && (r.Ok? <==> Drains(old(scopes), running, pumps))
        && (r == Err(PumpFailed) <==> Fails(old(scopes), running, pumps))
    {
      ghost var m, known := scopes, AllLive();
      for attempt := 0 to ATTEMPTS
        invariant Valid() && !acceptsWork && bound == old(bound) && scopes.Keys <= old(scopes).Keys
        invariant known ==> AllLive() && scopes == Pumped(m, pumps, attempt) && Pumping(m, running, pumps, attempt)
      {
        if scopes == map[] || !running {
          if known {
            AttemptDecides(m, running, pumps, attempt);
          }
          r := if scopes == map[] then Ok(()) else Err(InvalidState);
          Unbind();
          return;
        }
        if known {
          AttemptDecides(m, running, pumps, attempt);
        }
        PerformAll(pumps[attempt].work);
        if !pumps[attempt].ok {
          return Err(PumpFailed);
        }
      }
      if known {
        AttemptDecides(m, running, pumps, 256);
      }
      Unbind();
      return Err(InvalidState);
    }

    /**
     Shutdown lets no scope in and succeeds only with an empty table. While the
     registry knows all active scopes, it succeeds exactly when fewer than 256
     pumps, none of them failing, empty the table; a failing pump is reported
     exactly when it comes first. It succeeds at once, and without a UI runtime
     only, when all scopes belong to the application and none has a handler. What
     each pump brings is a parameter.
     */
    method DrainAndShutdown(running: bool, pumps: seq<Pump>) returns (r: Result<(), Error>)
      requires Valid() && |pumps| >= 256
      modifies this, services
      ensures Valid() && !acceptsWork && scopes.Keys <= old(scopes).Keys
      ensures r.Ok? ==> scopes == map[] && !bound
      ensures r.Err? ==> r.error in {PumpFailed, InvalidState} && bound == (r.error == PumpFailed && old(bound))
      ensures old(AllLive()) ==>
        var m := Ended(old(scopes), old(applicationScope));
        && Forest(m) && (r.Ok? <==> Drains(m, running, pumps))
        && (r == Err(PumpFailed) <==> Fails(m, running, pumps))
      ensures old(AllLive()) && Unattended(old(Table())) ==> r.Ok?
      ensures old(AllLive()) && r.Ok? && !running ==> Unattended(old(Table()))
    {
      ghost var m := Ended(scopes, applicationScope);
      HistoryWellFormed(Table(), begun, ended, unannounced);
      DrainsAtOnce(Table(), running, pumps);
      ghost var start := Now().(h := Table().(acceptsWork := false));
      ghost var began := BeginShutdown();
      ProgressUnchanged(start, m, Now(), began);
      r := Drain(running, pumps);
    }
  }
}
