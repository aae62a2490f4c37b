/**
 The hosted UI scope table and what each locked section of
 `HostedUIScope::State` does to it, as functions on values.
 */
module HostingModel {
  import opened Common

  // Identifier 0 is the global scope, which is never in the table.
  type ScopeId = nat
  const GLOBAL: ScopeId := 0

  type WindowId = nat
  type HandlerId = nat

  datatype ScopeRecord = ScopeRecord(
    parent: ScopeId,
    window: Option<WindowId>,
    handler: Option<HandlerId>,
    pending: bool,
    requested: bool)

  type ScopeTable = map<ScopeId, ScopeRecord>

  // Everything the mutex protects, and the service registry's next identifier.
  datatype Hosted = Hosted(
    bound: bool,
    application: ScopeId,
    scopes: ScopeTable,
    windows: map<WindowId, ScopeId>,
    acceptsWork: bool,
    nextScopeId: ScopeId)

  datatype Error = InvalidState | NotFound | AlreadyExists | EndScopeFailed | PumpFailed

  /* ---------- the forest ---------- */

  // x's parent is global, or active and older than x.
  predicate Rooted(m: ScopeTable, x: ScopeId)
    requires x in m
  {
    x > GLOBAL && (m[x].parent == GLOBAL || (m[x].parent in m && m[x].parent < x))
  }

  // The trigger keeps the solver from following parents without end.
  ghost predicate Forest(m: ScopeTable) {
    forall x {:trigger Rooted(m, x)} :: x in m ==> Rooted(m, x)
  }

  predicate HasChild(m: ScopeTable, id: ScopeId) {
    exists c <- m :: m[c].parent == id
  }

  function Children(m: ScopeTable, id: ScopeId): set<ScopeId> {
    set c | c in m && m[c].parent == id
  }

  // The chain from x up to its root, x included.
  ghost function Ancestors(m: ScopeTable, x: ScopeId): set<ScopeId>
    requires Forest(m) && x in m
    decreases x
  {
    assert Rooted(m, x);
    {x} + if m[x].parent == GLOBAL then {} else Ancestors(m, m[x].parent)
  }

  // x lies in the subtree rooted at a.
  ghost predicate Below(m: ScopeTable, x: ScopeId, a: ScopeId)
    requires Forest(m)
  {
    x in m && a in Ancestors(m, x)
  }

  function Without(m: ScopeTable, id: ScopeId): (r: ScopeTable)
    ensures r.Keys == m.Keys - {id}
  {
    map x | x in m && x != id :: m[x]
  }

  predicate HasHandler(r: ScopeRecord) {
    r.handler.Some? || r.pending
  }

  // Some scope at or below a has a registered or a pending close handler.
  ghost predicate Blocked(m: ScopeTable, a: ScopeId)
    requires Forest(m)
  {
    exists y :: Below(m, y, a) && HasHandler(m[y])
  }

  ghost predicate WindowsAgree(h: Hosted) {
    && (forall x <- h.scopes :: h.scopes[x].window.Some? ==>
          h.scopes[x].window.value in h.windows && h.windows[h.scopes[x].window.value] == x)
    && (forall w <- h.windows ::
          h.windows[w] in h.scopes && h.scopes[h.windows[w]].window == Some(w))
  }

  // What holds between any two locked sections.
  ghost predicate WellFormed(h: Hosted) {
    && Forest(h.scopes)
    && h.nextScopeId > GLOBAL
    && (forall x <- h.scopes :: x < h.nextScopeId)
    && (h.application != GLOBAL ==> h.application in h.scopes && h.scopes[h.application].parent == GLOBAL)
  }

  /* ---------- locked sections ---------- */

  // Bind, after the check that no registry is bound.
  function Bind(h: Hosted): Hosted {
    h.(bound := true,
       application := h.nextScopeId,
       scopes := h.scopes[h.nextScopeId := ScopeRecord(GLOBAL, None, None, false, false)],
       acceptsWork := true,
       nextScopeId := h.nextScopeId + 1)
  }

  function BeginScope(h: Hosted, parent: ScopeId, window: Option<WindowId>): Result<Hosted, Error> {
    if !h.acceptsWork || !h.bound then Err(InvalidState)
    else if parent != GLOBAL && parent !in h.scopes then Err(NotFound)
    else Ok(h.(
      scopes := h.scopes[h.nextScopeId := ScopeRecord(parent, window, None, false, false)],
      windows := if window.Some? then h.windows[window.value := h.nextScopeId] else h.windows,
      nextScopeId := h.nextScopeId + 1))
  }

  function SetCloseHandler(h: Hosted, id: ScopeId, handler: HandlerId): Result<Hosted, Error> {
    if id !in h.scopes then Err(NotFound)
    else if h.scopes[id].handler.Some? then Err(AlreadyExists)
    else Ok(h.(scopes := h.scopes[id := h.scopes[id].(handler := Some(handler))]))
  }

  function ClearCloseHandler(h: Hosted, id: ScopeId): Hosted {
    if id !in h.scopes then h
    else h.(scopes := h.scopes[id := h.scopes[id].(handler := None, pending := false)])
  }

  function Requested(m: ScopeTable, id: ScopeId): ScopeTable {
    if id !in m then m else m[id := m[id].(requested := true)]
  }

  // A finalisation attempt stops at id.
  predicate Settled(m: ScopeTable, id: ScopeId) {
    id !in m || !m[id].requested || HasChild(m, id) || m[id].pending
  }

  // The record of a scope whose close handler has been taken to be run.
  function Fired(r: ScopeRecord): ScopeRecord {
    r.(handler := None, pending := true)
  }

  datatype Outcome =
    | Idle
    | RunHandler(handler: HandlerId)
    | Erased(parent: ScopeId, endScope: bool)

  // The locked section of TryFinalize and what is left to do outside the lock.
  function Finalize(h: Hosted, id: ScopeId): (Hosted, Outcome) {
    if Settled(h.scopes, id) then (h, Idle)
    else
      var r := h.scopes[id];
      if r.handler.Some? then
        (h.(scopes := h.scopes[id := Fired(r)]), RunHandler(r.handler.value))
      else
        (h.(scopes := Without(h.scopes, id),
            windows := if r.window.Some? then h.windows - {r.window.value} else h.windows,
            application := if h.application == id then GLOBAL else h.application),
         Erased(r.parent, h.bound))
  }

  /* ---------- facts about the forest ---------- */

  lemma {:induction false} AncestorsAreOlder(m: ScopeTable, x: ScopeId, a: ScopeId)
    requires Forest(m) && Below(m, x, a)
    ensures a in m && GLOBAL < a <= x
    decreases x
  {
    assert Rooted(m, x);
    if a != x {
      AncestorsAreOlder(m, m[x].parent, a);
    }
  }

  // One step of a chain.
  lemma BelowStep(m: ScopeTable, x: ScopeId)
    requires Forest(m) && x in m
    ensures Below(m, x, x)
    ensures forall a :: a != x ==>
              (Below(m, x, a) <==> m[x].parent != GLOBAL && Below(m, m[x].parent, a))
  {
    assert Rooted(m, x);
  }

  lemma {:induction false} BelowTransitive(m: ScopeTable, x: ScopeId, y: ScopeId, z: ScopeId)
    requires Forest(m) && Below(m, x, y) && Below(m, y, z)
    ensures Below(m, x, z)
    decreases x
  {
    assert Rooted(m, x);
    if x != y {
      BelowTransitive(m, m[x].parent, y, z);
    }
  }

  // A chain passes through at most one child of any scope.
  lemma {:induction false} SiblingsAreDisjoint(m: ScopeTable, x: ScopeId, c: ScopeId, d: ScopeId)
    requires Forest(m) && Below(m, x, c) && Below(m, x, d)
    requires c in m && d in m && m[c].parent == m[d].parent
    ensures c == d
    decreases x
  {
    BelowStep(m, x);
    if x != c && x != d {
      assert Rooted(m, x);
      SiblingsAreDisjoint(m, m[x].parent, c, d);
    } else if c != d {
      var older := if x == c then d else c;
      assert Rooted(m, older);
      AncestorsAreOlder(m, m[x].parent, older);
    }
  }

  // Strictly below a means below one of a's children.
  lemma {:induction false} ChildTowards(m: ScopeTable, x: ScopeId, a: ScopeId) returns (c: ScopeId)
    requires Forest(m) && Below(m, x, a) && x != a
    ensures c in Children(m, a) && Below(m, x, c)
    decreases x
  {
    assert Rooted(m, x);
    if m[x].parent == a {
      c := x;
    } else {
      c := ChildTowards(m, m[x].parent, a);
    }
  }

  lemma GlobalIsNotActive(m: ScopeTable)
    requires Forest(m)
    ensures GLOBAL !in m
  {
    assert GLOBAL in m ==> Rooted(m, GLOBAL);
  }

  lemma SameShape(m: ScopeTable, s: ScopeTable)
    requires Forest(m) && s.Keys == m.Keys
    requires forall x :: x in s ==> s[x].parent == m[x].parent
    ensures Forest(s)
  {
    forall x | x in s
      ensures Rooted(s, x)
    {
      assert Rooted(m, x);
    }
  }

  lemma AddingKeepsForest(m: ScopeTable, id: ScopeId, r: ScopeRecord)
    requires Forest(m) && id > GLOBAL && (forall x :: x in m ==> x < id)
    requires r.parent == GLOBAL || r.parent in m
    ensures Forest(m[id := r])
  {
    var s := m[id := r];
    forall x | x in s
      ensures Rooted(s, x)
    {
      assert x in m ==> Rooted(m, x);
    }
  }

  lemma RemovingChildless(m: ScopeTable, id: ScopeId)
    requires Forest(m) && !HasChild(m, id)
    ensures Forest(Without(m, id))
  {
    var s := Without(m, id);
    forall x | x in s
      ensures Rooted(s, x)
    {
      assert Rooted(m, x);
    }
  }

  // Removing scopes without cutting a chain leaves the remaining chains alone.
  lemma {:induction false} AncestorsAgree(m: ScopeTable, s: ScopeTable, x: ScopeId)
    requires Forest(m) && Forest(s) && s.Keys <= m.Keys
    requires forall y <- s :: s[y].parent == m[y].parent
    requires x in s
    ensures Ancestors(s, x) == Ancestors(m, x)
    decreases x
  {
    assert Rooted(m, x) && Rooted(s, x);
    if s[x].parent != GLOBAL {
      AncestorsAgree(m, s, s[x].parent);
    }
  }

  lemma BlockedUpward(m: ScopeTable, x: ScopeId, a: ScopeId)
    requires Forest(m) && Below(m, x, a) && Blocked(m, x)
    ensures Blocked(m, a)
  {
    var y :| Below(m, y, x) && HasHandler(m[y]);
    BelowTransitive(m, y, x, a);
  }

  // A blocked scope holds a handler itself or has a blocked child.
  lemma BlockedWhere(m: ScopeTable, a: ScopeId)
    requires Forest(m) && a in m
    ensures Blocked(m, a) <==> HasHandler(m[a]) || exists c :: c in Children(m, a) && Blocked(m, c)
  {
    assert Below(m, a, a);
    if Blocked(m, a) && !HasHandler(m[a]) {
      var y :| Below(m, y, a) && HasHandler(m[y]);
      var c := ChildTowards(m, y, a);
      assert Blocked(m, c);
    }
    forall c | c in Children(m, a) && Blocked(m, c)
      ensures Blocked(m, a)
    {
      BelowStep(m, c);
      BelowStep(m, a);
      assert Rooted(m, a);
      BlockedUpward(m, c, a);
    }
  }
}
