/** What each locked section does to the scope table, field by field, and when it refuses. */
module HostingLaws {
  import opened Common
  import opened HostingModel

  // The sections agree on every scope but one.
  ghost predicate OthersStay(h: Hosted, g: Hosted, id: ScopeId) {
    forall x :: x != id ==> (x in g.scopes <==> x in h.scopes) && (x in h.scopes ==> g.scopes[x] == h.scopes[x])
  }

  /** Binding makes the application's scope under a new identifier and lets work begin. */
  lemma BindExactly(h: Hosted)
    ensures var g := Bind(h);
      && g.bound && g.acceptsWork && g.application == h.nextScopeId && g.nextScopeId == h.nextScopeId + 1
      && g.windows == h.windows && OthersStay(h, g, h.nextScopeId)
      && h.nextScopeId in g.scopes
      && var r := g.scopes[h.nextScopeId];
         r.parent == 0 && r.window == None && r.handler == None && !r.pending && !r.requested
  {
  }

  /** A scope begins only while work is accepted, under an active scope or at the top. */
  lemma BeginExactly(h: Hosted, parent: ScopeId, window: Option<WindowId>)
    ensures var r := BeginScope(h, parent, window);
      && (r == Err(InvalidState) <==> !(h.bound && h.acceptsWork))
      && (r == Err(NotFound) <==> h.bound && h.acceptsWork && parent != 0 && parent !in h.scopes)
      && (r.Err? ==> r.error in {InvalidState, NotFound})
      && (r.Ok? ==> Begun(h, r.value, parent, window))
  {
  }

  ghost predicate Begun(h: Hosted, g: Hosted, parent: ScopeId, window: Option<WindowId>) {
    && g.bound == h.bound && g.acceptsWork == h.acceptsWork && g.application == h.application
    && g.nextScopeId == h.nextScopeId + 1 && OthersStay(h, g, h.nextScopeId)
    && h.nextScopeId in g.scopes
    && (var r := g.scopes[h.nextScopeId];
        r.parent == parent && r.window == window && r.handler == None && !r.pending && !r.requested)
    && (forall w :: w in h.windows && window != Some(w) ==> w in g.windows && g.windows[w] == h.windows[w])
    && (forall w :: w in g.windows ==> w in h.windows || window == Some(w))
    && (window != None ==> window.value in g.windows && g.windows[window.value] == h.nextScopeId)
  }

  /** A close handler is taken by an active scope that has none, and by no other. */
  lemma SetExactly(h: Hosted, id: ScopeId, handler: HandlerId)
    ensures var r := SetCloseHandler(h, id, handler);
      && (r == Err(NotFound) <==> id !in h.scopes)
      && (r == Err(AlreadyExists) <==> id in h.scopes && h.scopes[id].handler != None)
      && (r.Err? ==> r.error in {NotFound, AlreadyExists})
      && (r.Ok? ==>
            && r.value == h.(scopes := r.value.scopes) && OthersStay(h, r.value, id)
            && id in r.value.scopes && r.value.scopes[id].handler == Some(handler)
            && r.value.scopes[id].(handler := None) == h.scopes[id].(handler := None))
  {
  }

  /** Clearing leaves an active scope neither a handler nor one that is still to be run. */
  lemma ClearExactly(h: Hosted, id: ScopeId)
    ensures var g := ClearCloseHandler(h, id);
      && g == h.(scopes := g.scopes) && OthersStay(h, g, id) && (id in g.scopes <==> id in h.scopes)
      && (id in h.scopes ==>
            && g.scopes[id].handler == None && !g.scopes[id].pending && g.scopes[id].parent == h.scopes[id].parent
            && g.scopes[id].window == h.scopes[id].window && g.scopes[id].requested == h.scopes[id].requested)
  {
  }

  lemma RequestExactly(m: ScopeTable, id: ScopeId)
    ensures var s := Requested(m, id);
      && s.Keys == m.Keys && (forall x :: x in m && x != id ==> s[x] == m[x])
      && (id in m ==> s[id].requested && s[id].(requested := true) == m[id].(requested := true))
  {
  }

  // The scope can be closed now: it was asked to, no active scope is in it, and no
  // handler of it is running.
  ghost predicate Ready(m: ScopeTable, id: ScopeId) {
    id in m && m[id].requested && !m[id].pending && forall c :: c in m ==> m[c].parent != id
  }

  /** Finalising does something exactly for a scope that is ready: it takes the
      scope's handler to be run, if there is one, and removes the scope otherwise. */
  lemma FinalizeExactly(h: Hosted, id: ScopeId)
    ensures var (g, outcome) := Finalize(h, id);
      && (!Ready(h.scopes, id) ==> g == h && outcome == Idle)
      && (Ready(h.scopes, id) && h.scopes[id].handler != None ==>
            && outcome == RunHandler(h.scopes[id].handler.value)
            && g == h.(scopes := g.scopes) && OthersStay(h, g, id) && id in g.scopes
            && g.scopes[id].handler == None && g.scopes[id].pending && g.scopes[id].parent == h.scopes[id].parent
            && g.scopes[id].window == h.scopes[id].window && g.scopes[id].requested)
      && (Ready(h.scopes, id) && h.scopes[id].handler == None ==>
            && outcome == Erased(h.scopes[id].parent, h.bound)
            && id !in g.scopes && OthersStay(h, g, id)
            && g.bound == h.bound && g.acceptsWork == h.acceptsWork && g.nextScopeId == h.nextScopeId
            && g.application == (if h.application == id then 0 else h.application)
            && (forall w :: w in g.windows <==> w in h.windows && h.scopes[id].window != Some(w))
            && (forall w :: w in g.windows ==> g.windows[w] == h.windows[w]))
  {
    assert HasChild(h.scopes, id) <==> exists c :: c in h.scopes && h.scopes[c].parent == id;
  }
}
