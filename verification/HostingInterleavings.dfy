/**
 Every interleaving of the locked sections of `HostedUIScope::State`. A step is
 one locked section, or one of the two actions a finalisation performs after
 releasing the lock: calling EndScope, or running a close handler. Any thread
 may attempt any section at any time; finalisations are attempted where a
 RequestEnd or the finalisation of a child still has to.
 */
module HostingInterleavings {
  import opened Common
  import opened HostingModel

  datatype World = World(
    h: Hosted,
    begun: map<ScopeId, ScopeId>,          // parent of every scope ever begun
    ending: set<ScopeId>,                  // erased, EndScope not yet called
    ended: seq<ScopeId>,                   // EndScope calls, in order
    dropped: set<ScopeId>,                 // erased while no registry was bound
    given: set<HandlerId>,                 // handlers ever registered
    firing: set<(ScopeId, HandlerId)>,     // taken, not yet run
    ran: seq<(ScopeId, HandlerId)>,        // handlers run, in order
    owed: multiset<ScopeId>,               // TryFinalize calls that threads still have to make
    failed: bool)                          // some EndScope call failed

  datatype Step =
    | BindStep
    | BeginScopeStep(parent: ScopeId, window: Option<WindowId>)
    | SetHandlerStep(id: ScopeId, handler: HandlerId)
    | ClearHandlerStep(id: ScopeId)
    | RequestStep(id: ScopeId)
    | FinalizeStep(id: ScopeId)
    | EndScopeStep(id: ScopeId, ok: bool)
    | AbandonStep(id: ScopeId)
    | RunHandlerStep(id: ScopeId, handler: HandlerId)
    | ShutdownStep
    | UnbindStep

  function Initial(next: ScopeId): World {
    World(Hosted(false, GLOBAL, map[], map[], false, next), map[], {}, [], {}, {}, {}, [], multiset{}, false)
  }

  // A window opens one scope, a callable is handed over once, the actions
  // outside the lock are the ones a finalisation left behind, and a thread gives
  // up an attempt it has to make only after a failure.
  predicate Enabled(w: World, step: Step) {
    match step
    case BeginScopeStep(_, window) => window.Some? ==> window.value !in w.h.windows
    case SetHandlerStep(_, handler) => handler !in w.given
    case FinalizeStep(id) => id in w.owed
    case EndScopeStep(id, _) => id in w.ending
    case AbandonStep(id) => w.failed && id in w.owed
    case RunHandlerStep(id, handler) => (id, handler) in w.firing
    case _ => true
  }

  // The attempt that follows the end of a child.
  function Climb(parent: ScopeId): multiset<ScopeId> {
    if parent == GLOBAL then multiset{} else multiset{parent}
  }

  function ParentOf(w: World, id: ScopeId): ScopeId {
    if id in w.begun then w.begun[id] else GLOBAL
  }

  // The part of a step that happens under the lock.
  function Section(h: Hosted, step: Step): Hosted {
    match step
    case BindStep => if h.bound then h else Bind(h)
    case BeginScopeStep(parent, window) => Or(BeginScope(h, parent, window), h)
    case SetHandlerStep(id, handler) => Or(SetCloseHandler(h, id, handler), h)
    case ClearHandlerStep(id) => ClearCloseHandler(h, id)
    case RequestStep(id) => h.(scopes := Requested(h.scopes, id))
    case FinalizeStep(id) => Finalize(h, id).0
    case ShutdownStep => h.(acceptsWork := false)
    case UnbindStep => h.(bound := false)
    case _ => h
  }

  function Or(r: Result<Hosted, Error>, h: Hosted): Hosted {
    if r.Ok? then r.value else h
  }

  function Begun(h: Hosted, begun: map<ScopeId, ScopeId>, step: Step): map<ScopeId, ScopeId> {
    match step
    case BindStep => if h.bound then begun else begun[h.nextScopeId := GLOBAL]
    case BeginScopeStep(parent, window) =>
      if BeginScope(h, parent, window).Ok? then begun[h.nextScopeId := parent] else begun
    case _ => begun
  }

  // The attempts to finalise that threads still have to make.
  function Owed(w: World, step: Step): multiset<ScopeId> {
    match step
    case RequestStep(id) => if id in w.h.scopes then w.owed + multiset{id} else w.owed
    case FinalizeStep(id) =>
      var o := Finalize(w.h, id).1;
      w.owed - multiset{id} + if o.Erased? && !o.endScope then Climb(o.parent) else multiset{}
    case EndScopeStep(id, ok) => w.owed + if ok then Climb(ParentOf(w, id)) else multiset{}
    case AbandonStep(id) => w.owed - multiset{id}
    case _ => w.owed
  }

  function Noted(w: World, id: ScopeId, o: Outcome): World {
    match o
    case Idle => w
    case RunHandler(handler) => w.(firing := w.firing + {(id, handler)})
    case Erased(_, true) => w.(ending := w.ending + {id})
    case Erased(_, false) => w.(dropped := w.dropped + {id})
  }

  // What was erased, announced, given and run.
  function Recorded(w: World, step: Step): World {
    match step
    case SetHandlerStep(id, handler) =>
      if SetCloseHandler(w.h, id, handler).Ok? then w.(given := w.given + {handler}) else w
    case FinalizeStep(id) => Noted(w, id, Finalize(w.h, id).1)
    case EndScopeStep(id, ok) =>
      w.(ending := w.ending - {id}, ended := w.ended + [id], failed := w.failed || !ok)
    case RunHandlerStep(id, handler) =>
      w.(firing := w.firing - {(id, handler)}, ran := w.ran + [(id, handler)])
    case _ => w
  }

  function Apply(w: World, step: Step): World {
    Recorded(w, step).(h := Section(w.h, step), begun := Begun(w.h, w.begun, step), owed := Owed(w, step))
  }

  ghost predicate Execution(steps: seq<Step>, ws: seq<World>) {
    && |ws| == |steps| + 1
    && forall i {:trigger steps[i]} :: 0 <= i < |steps| ==>
         Enabled(ws[i], steps[i]) && ws[i + 1] == Apply(ws[i], steps[i])
  }

  /* ---------- what every reachable world satisfies ---------- */

  // Active scopes form a forest that agrees with the window index and the history.
  ghost predicate TableOk(w: World) {
    TableBody(w.h, w.begun)
  }

  ghost predicate TableBody(h: Hosted, begun: map<ScopeId, ScopeId>) {
    && WellFormed(h) && WindowsAgree(h)
    && (forall x :: x in h.scopes ==> x in begun && begun[x] == h.scopes[x].parent)
    && (forall x :: x in begun ==> begun[x] < x < h.nextScopeId)
  }

  // A scope is active, or waiting for its EndScope, or ended once, or dropped.
  ghost predicate EndsOk(w: World) {
    && (forall x :: x in w.begun ==> x in w.h.scopes || x in w.ending || x in w.ended || x in w.dropped)
    && (forall x :: x in w.h.scopes || x in w.ending || x in w.ended || x in w.dropped ==> x in w.begun)
    && w.h.scopes.Keys !! w.ending && w.h.scopes.Keys !! w.dropped && w.ending !! w.dropped
    && (forall x :: x in w.ended ==> x !in w.h.scopes && x !in w.ending && x !in w.dropped)
    && (forall i, j :: 0 <= i < j < |w.ended| ==> w.ended[i] != w.ended[j])
  }

  ghost predicate Holds(w: World, x: ScopeId, t: HandlerId) {
    x in w.h.scopes && w.h.scopes[x].handler == Some(t)
  }

  // A handler is held by at most one scope.
  ghost predicate HeldOk(w: World) {
    && (forall x, t :: Holds(w, x, t) ==> t in w.given)
    && (forall x, y, t :: Holds(w, x, t) && Holds(w, y, t) ==> x == y)
  }

  // A handler taken to be run is held by no scope and was taken only once.
  ghost predicate FiringOk(w: World) {
    && (forall p :: p in w.firing ==> p.1 in w.given && p.0 in w.begun)
    && (forall p, x :: p in w.firing ==> !Holds(w, x, p.1))
    && (forall p, q :: p in w.firing && q in w.firing && p.1 == q.1 ==> p == q)
    && (forall p :: p in w.firing && p.0 in w.h.scopes ==> w.h.scopes[p.0].requested)
  }

  // A handler that has run ran once, and is not held or about to run again.
  ghost predicate RanOk(w: World) {
    && (forall p :: p in w.ran ==> p.1 in w.given)
    && (forall p, x :: p in w.ran ==> !Holds(w, x, p.1))
    && (forall p, q :: p in w.ran && q in w.firing ==> p.1 != q.1)
    && (forall i, j :: 0 <= i < j < |w.ran| ==> w.ran[i].1 != w.ran[j].1)
  }

  // Every handler ever given is in at most one place, and has run at most once.
  ghost predicate HandlersOk(w: World) {
    HeldOk(w) && FiringOk(w) && RanOk(w)
  }

  ghost predicate Safe(w: World) {
    TableOk(w) && EndsOk(w) && HandlersOk(w)
  }

  lemma StepKeepsTable(w: World, step: Step)
    requires TableOk(w) && Enabled(w, step)
    ensures TableOk(Apply(w, step))
  {
    SectionKeepsTable(w.h, w.begun, step);
  }

  lemma SectionKeepsTable(h: Hosted, begun: map<ScopeId, ScopeId>, step: Step)
    requires TableBody(h, begun)
    requires step.BeginScopeStep? && step.window.Some? ==> step.window.value !in h.windows
    ensures TableBody(Section(h, step), Begun(h, begun, step))
  {
    match step {
      case BindStep =>
        if !h.bound { AddingKeepsTable(h, begun, GLOBAL, None, Bind(h)); }
      case BeginScopeStep(parent, window) =>
        if BeginScope(h, parent, window).Ok? { AddingKeepsTable(h, begun, parent, window, Section(h, step)); }
      case FinalizeStep(id) =>
        FinalizeKeepsTable(h, begun, id);
      case _ =>
        OthersKeepScopes(h, step);
        SameScopesKeepTable(h, Section(h, step), begun);
    }
  }

  lemma FinalizeKeepsTable(h: Hosted, begun: map<ScopeId, ScopeId>, id: ScopeId)
    requires TableBody(h, begun)
    ensures TableBody(Finalize(h, id).0, begun)
  {
    if Finalize(h, id).1.Erased? {
      RemovingChildless(h.scopes, id);
    } else {
      SameScopesKeepTable(h, Finalize(h, id).0, begun);
    }
  }

  ghost predicate SameScopes(h: Hosted, h': Hosted) {
    && h'.(scopes := h.scopes, acceptsWork := h.acceptsWork, bound := h.bound) == h
    && h'.scopes.Keys == h.scopes.Keys
    && forall x :: x in h.scopes ==>
         h'.scopes[x].parent == h.scopes[x].parent && h'.scopes[x].window == h.scopes[x].window
  }

  lemma OthersKeepScopes(h: Hosted, step: Step)
    requires !step.BeginScopeStep? && !step.BindStep? && !step.FinalizeStep?
    ensures SameScopes(h, Section(h, step))
  {
  }

  lemma SameScopesKeepTable(h: Hosted, h': Hosted, begun: map<ScopeId, ScopeId>)
    requires TableBody(h, begun) && SameScopes(h, h')
    ensures TableBody(h', begun)
  {
    SameShape(h.scopes, h'.scopes);
  }

  lemma AddingKeepsTable(h: Hosted, begun: map<ScopeId, ScopeId>, parent: ScopeId, window: Option<WindowId>, h': Hosted)
    requires TableBody(h, begun) && (parent == GLOBAL || parent in h.scopes)
    requires window.Some? ==> window.value !in h.windows
    requires var id := h.nextScopeId;
      && h'.scopes == h.scopes[id := ScopeRecord(parent, window, None, false, false)]
      && h'.windows == (if window.Some? then h.windows[window.value := id] else h.windows)
      && h'.nextScopeId == id + 1
      && (h'.application == h.application || (h'.application == id && parent == GLOBAL))
    ensures TableBody(h', begun[h.nextScopeId := parent])
  {
    AddingKeepsForest(h.scopes, h.nextScopeId, ScopeRecord(parent, window, None, false, false));
    AddingKeepsWindows(h, parent, window, h');
  }

  lemma AddingKeepsWindows(h: Hosted, parent: ScopeId, window: Option<WindowId>, h': Hosted)
    requires WindowsAgree(h) && (forall x <- h.scopes :: x < h.nextScopeId)
    requires window.Some? ==> window.value !in h.windows
    requires h'.scopes == h.scopes[h.nextScopeId := ScopeRecord(parent, window, None, false, false)]
    requires h'.windows == if window.Some? then h.windows[window.value := h.nextScopeId] else h.windows
    ensures WindowsAgree(h')
  {
  }

  lemma StepKeepsEnds(w: World, step: Step)
    requires TableOk(w) && EndsOk(w) && Enabled(w, step)
    ensures EndsOk(Apply(w, step))
  {
    match step
    case EndScopeStep(id, ok) => EndingKeepsEnds(w, id, ok);
    case FinalizeStep(id) => FinalizingKeepsEnds(w, id);
    case BeginScopeStep(_, _) =>
    case BindStep =>
    case _ => assert Apply(w, step).h.scopes.Keys == w.h.scopes.Keys;
  }

  lemma EndingKeepsEnds(w: World, id: ScopeId, ok: bool)
    requires EndsOk(w) && id in w.ending
    ensures EndsOk(Apply(w, EndScopeStep(id, ok)))
  {
    var w' := Apply(w, EndScopeStep(id, ok));
    assert forall x :: x in w'.ended <==> x in w.ended || x == id;
  }

  lemma FinalizingKeepsEnds(w: World, id: ScopeId)
    requires EndsOk(w)
    ensures EndsOk(Apply(w, FinalizeStep(id)))
  {
    var w', o := Apply(w, FinalizeStep(id)), Finalize(w.h, id).1;
    FinalizeKeys(w.h, id);
    FinalizeRecords(w, id);
    if o.Erased? {
      ErasingKeepsEnds(w, w', id, o.endScope);
    } else {
      SameKeysKeepEnds(w, w');
    }
  }

  lemma FinalizeKeys(h: Hosted, id: ScopeId)
    ensures var (h', o) := Finalize(h, id);
      && h'.scopes.Keys == h.scopes.Keys - (if o.Erased? then {id} else {})
      && (o.Erased? ==> id in h.scopes)
  {
  }

  lemma FinalizeRecords(w: World, id: ScopeId)
    ensures var w' := Apply(w, FinalizeStep(id)); var o := Finalize(w.h, id).1;
      && w'.h == Finalize(w.h, id).0 && w'.begun == w.begun && w'.ended == w.ended
      && w'.ending == w.ending + (if o.Erased? && o.endScope then {id} else {})
      && w'.dropped == w.dropped + (if o.Erased? && !o.endScope then {id} else {})
  {
    OutcomeRecords(w, id, Finalize(w.h, id).1);
    FinalizingFields(w, id);
  }

  lemma OutcomeRecords(w: World, id: ScopeId, o: Outcome)
    ensures var v := Noted(w, id, o);
      && v.ended == w.ended && v.given == w.given && v.ran == w.ran
      && v.firing == (if o.RunHandler? then w.firing + {(id, o.handler)} else w.firing)
      && v.ending == w.ending + (if o.Erased? && o.endScope then {id} else {})
      && v.dropped == w.dropped + (if o.Erased? && !o.endScope then {id} else {})
  {
  }

  lemma SameKeysKeepEnds(w: World, w': World)
    requires EndsOk(w) && w'.h.scopes.Keys == w.h.scopes.Keys && w'.begun == w.begun
    requires w'.ending == w.ending && w'.ended == w.ended && w'.dropped == w.dropped
    ensures EndsOk(w')
  {
  }

  lemma ErasingKeepsEnds(w: World, w': World, id: ScopeId, endScope: bool)
    requires EndsOk(w) && id in w.h.scopes && w'.h.scopes.Keys == w.h.scopes.Keys - {id}
    requires w'.ended == w.ended && w'.begun == w.begun
    requires w'.ending == w.ending + if endScope then {id} else {}
    requires w'.dropped == w.dropped + if endScope then {} else {id}
    ensures EndsOk(w')
  {
  }

  /* ---------- handlers ---------- */

  // No scope gains a handler, and the history of handlers is the same.
  ghost predicate NoneGained(w: World, w': World) {
    && (forall x, t :: Holds(w', x, t) ==> Holds(w, x, t))
    && w'.given == w.given
  }

  lemma HeldShrinks(w: World, w': World)
    requires HeldOk(w) && NoneGained(w, w')
    ensures HeldOk(w')
  {
  }

  lemma FiringShrinks(w: World, w': World)
    requires FiringOk(w) && NoneGained(w, w') && w'.firing <= w.firing
    requires forall x :: x in w.begun ==> x in w'.begun
    requires forall x :: x in w.begun && x in w'.h.scopes ==>
               x in w.h.scopes && (w.h.scopes[x].requested ==> w'.h.scopes[x].requested)
    ensures FiringOk(w')
  {
  }

  lemma RanStays(w: World, w': World)
    requires RanOk(w) && NoneGained(w, w') && w'.ran == w.ran
    requires forall p :: p in w'.firing ==> p in w.firing || Holds(w, p.0, p.1)
    ensures RanOk(w')
  {
  }

  lemma StepKeepsHandlers(w: World, step: Step)
    requires TableOk(w) && EndsOk(w) && HandlersOk(w) && Enabled(w, step)
    ensures HandlersOk(Apply(w, step))
  {
    var w' := Apply(w, step);
    match step {
      case RunHandlerStep(id, handler) => RunningKeepsHandlers(w, id, handler);
      case FinalizeStep(id) => FinalizingKeepsHandlers(w, id);
      case SetHandlerStep(id, handler) => SettingKeepsHandlers(w, id, handler);
      case _ => OthersGainNone(w, step); HeldShrinks(w, w'); FiringShrinks(w, w'); RanStays(w, w');
    }
  }

  lemma OthersGainNone(w: World, step: Step)
    requires TableOk(w) && Enabled(w, step)
    requires !step.RunHandlerStep? && !step.FinalizeStep? && !step.SetHandlerStep?
    ensures var w' := Apply(w, step);
      && NoneGained(w, w') && w'.firing == w.firing && w'.ran == w.ran
      && (forall x :: x in w.begun ==> x in w'.begun)
      && (forall x :: x in w.begun && x in w'.h.scopes ==>
            x in w.h.scopes && (w.h.scopes[x].requested ==> w'.h.scopes[x].requested))
  {
  }

  lemma RunningKeepsHandlers(w: World, id: ScopeId, handler: HandlerId)
    requires HandlersOk(w) && (id, handler) in w.firing
    ensures HandlersOk(Apply(w, RunHandlerStep(id, handler)))
  {
    var w' := Apply(w, RunHandlerStep(id, handler));
    assert NoneGained(w, w');
    HeldShrinks(w, w');
    FiringShrinks(w, w');
    assert forall p :: p in w'.ran <==> p in w.ran || p == (id, handler);
  }

  lemma FinalizingKeepsHandlers(w: World, id: ScopeId)
    requires TableOk(w) && EndsOk(w) && HandlersOk(w)
    ensures HandlersOk(Apply(w, FinalizeStep(id)))
  {
    var w' := Apply(w, FinalizeStep(id));
    FinalizingGainsNone(w, id);
    HeldShrinks(w, w');
    RanStays(w, w');
    if Finalize(w.h, id).1.RunHandler? {
      TakingKeepsFiring(w, id);
    } else {
      FiringShrinks(w, w');
    }
  }

  lemma FinalizingGainsNone(w: World, id: ScopeId)
    ensures var w' := Apply(w, FinalizeStep(id)); var o := Finalize(w.h, id).1;
      && NoneGained(w, w') && w'.ran == w.ran && w'.begun == w.begun
      && (o.RunHandler? ==> Holds(w, id, o.handler) && !Holds(w', id, o.handler) && w.h.scopes[id].requested)
      && w'.firing == (if o.RunHandler? then w.firing + {(id, o.handler)} else w.firing)
      && (forall x :: x in w'.h.scopes ==>
            x in w.h.scopes && w.h.scopes[x].requested == w'.h.scopes[x].requested)
  {
    FinalizeGainsNone(w.h, id);
    OutcomeRecords(w, id, Finalize(w.h, id).1);
    FinalizingFields(w, id);
  }

  lemma FinalizingFields(w: World, id: ScopeId)
    ensures var w' := Apply(w, FinalizeStep(id)); var v := Noted(w, id, Finalize(w.h, id).1);
      && w'.h == Finalize(w.h, id).0 && w'.begun == w.begun && w'.given == v.given && w'.ran == v.ran
      && w'.firing == v.firing && w'.ending == v.ending && w'.ended == v.ended && w'.dropped == v.dropped
  {
  }

  lemma FinalizeGainsNone(h: Hosted, id: ScopeId)
    ensures var (h', o) := Finalize(h, id);
      && (forall x :: x in h'.scopes ==>
            x in h.scopes && h.scopes[x].requested == h'.scopes[x].requested &&
            h'.scopes[x].handler in {h.scopes[x].handler, None})
      && (o.RunHandler? ==> id in h.scopes && h.scopes[id].handler == Some(o.handler) && h.scopes[id].requested &&
                            h'.scopes[id].handler == None)
  {
  }

  lemma TakingKeepsFiring(w: World, id: ScopeId)
    requires EndsOk(w) && HeldOk(w) && FiringOk(w) && Finalize(w.h, id).1.RunHandler?
    ensures FiringOk(Apply(w, FinalizeStep(id)))
  {
    FinalizingGainsNone(w, id);
  }

  lemma SettingKeepsHandlers(w: World, id: ScopeId, handler: HandlerId)
    requires HandlersOk(w) && handler !in w.given
    ensures HandlersOk(Apply(w, SetHandlerStep(id, handler)))
  {
    var w' := Apply(w, SetHandlerStep(id, handler));
    if SetCloseHandler(w.h, id, handler).Ok? {
      assert forall x, t :: Holds(w', x, t) <==> if x == id then t == handler else Holds(w, x, t);
      assert forall x :: x in w'.h.scopes <==> x in w.h.scopes;
      assert forall x :: x in w.h.scopes ==> w'.h.scopes[x].requested == w.h.scopes[x].requested;
    }
  }

  /** Safety over every interleaving: each world of each execution is safe. */
  lemma {:induction false} AlwaysSafe(steps: seq<Step>, ws: seq<World>, next: ScopeId, i: nat)
    requires Execution(steps, ws) && ws[0] == Initial(next) && next > GLOBAL && i < |ws|
    ensures Safe(ws[i])
    decreases i
  {
    if i > 0 {
      AlwaysSafe(steps, ws, next, i - 1);
      StepKeepsTable(ws[i - 1], steps[i - 1]);
      StepKeepsEnds(ws[i - 1], steps[i - 1]);
      StepKeepsHandlers(ws[i - 1], steps[i - 1]);
    }
  }

  /* ---------- EndScope and descendants ---------- */

  // The chain above x in the history, which outlives the scopes themselves.
  ghost function Lineage(w: World, x: ScopeId): set<ScopeId>
    requires TableOk(w) && x in w.begun
    decreases x
  {
    {x} + if w.begun[x] in w.begun then Lineage(w, w.begun[x]) else {}
  }

  // Whatever has left the table has no active descendant, so EndScope is never
  // called while one is active.
  lemma {:induction false} NoActiveDescendant(w: World, id: ScopeId, x: ScopeId)
    requires TableOk(w) && x in w.h.scopes && id !in w.h.scopes
    ensures id !in Lineage(w, x)
    decreases x
  {
    assert Rooted(w.h.scopes, x);
    if w.begun[x] in w.begun {
      NoActiveDescendant(w, id, w.begun[x]);
    }
  }

  lemma EndScopeOnlyAfterDescendants(steps: seq<Step>, ws: seq<World>, next: ScopeId, i: nat, x: ScopeId)
    requires Execution(steps, ws) && ws[0] == Initial(next) && next > GLOBAL
    requires i < |steps| && steps[i].EndScopeStep? && x in ws[i].h.scopes
    ensures TableOk(ws[i]) && x in ws[i].begun && steps[i].id !in Lineage(ws[i], x)
    ensures steps[i].id !in ws[i].ended
  {
    AlwaysSafe(steps, ws, next, i);
    NoActiveDescendant(ws[i], steps[i].id, x);
  }

  /** No scope is ended twice or while it is active, and no handler runs twice. */
  lemma EachOnce(steps: seq<Step>, ws: seq<World>, next: ScopeId, i: nat)
    requires Execution(steps, ws) && ws[0] == Initial(next) && next > GLOBAL && i <= |steps|
    ensures forall j, k :: 0 <= j < k < |ws[i].ended| ==> ws[i].ended[j] != ws[i].ended[k]
    ensures forall j, k :: 0 <= j < k < |ws[i].ran| ==> ws[i].ran[j].1 != ws[i].ran[k].1
    ensures forall x :: x in ws[i].ended ==> x !in ws[i].h.scopes
  {
    AlwaysSafe(steps, ws, next, i);
  }

  // EndScope calls so far came children first.
  ghost predicate ChildrenFirst(w: World) {
    forall c, j {:trigger w.begun[c], w.ended[j]} ::
      c in w.begun && 0 <= j < |w.ended| && w.begun[c] == w.ended[j] ==>
        c in w.dropped || c in w.ended[..j]
  }

  /** A call EndScope(p) keeps the children-first order exactly when no child of
      p is itself still waiting for its call. */
  lemma ChildrenFirstExactly(w: World, p: ScopeId, ok: bool)
    requires Safe(w) && ChildrenFirst(w) && p in w.ending
    ensures ChildrenFirst(Apply(w, EndScopeStep(p, ok))) <==>
            forall c :: c in w.ending ==> w.begun[c] != p
  {
    var w' := Apply(w, EndScopeStep(p, ok));
    var n := |w.ended|;
    assert w'.ended[n] == p && w'.ended[..n] == w.ended;
    if forall c :: c in w.ending ==> w.begun[c] != p {
      forall c, j | c in w'.begun && 0 <= j < |w'.ended| && w'.begun[c] == w'.ended[j]
        ensures c in w'.dropped || c in w'.ended[..j]
      {
        if j < n {
          assert w'.ended[j] == w.ended[j] && w'.ended[..j] == w.ended[..j];
        } else {
          assert c !in w.h.scopes by {
            assert c in w.h.scopes ==> Rooted(w.h.scopes, c);
          }
        }
      }
    } else {
      var c :| c in w.ending && w.begun[c] == p;
      assert w'.begun[c] == w'.ended[n] && c !in w'.ended[..n];
    }
  }

  // One more step of an execution.
  lemma Extend(steps: seq<Step>, ws: seq<World>, step: Step) returns (steps': seq<Step>, ws': seq<World>)
    requires Execution(steps, ws) && Enabled(ws[|steps|], step)
    ensures steps' == steps + [step] && Execution(steps', ws')
    ensures ws <= ws' && ws'[|steps'|] == Apply(ws[|steps|], step)
  {
    steps', ws' := steps + [step], ws + [Apply(ws[|steps|], step)];
  }

  // Two threads can announce a parent before its child.
  lemma ParentCanBeAnnouncedFirst()
    ensures exists steps: seq<Step>, ws: seq<World> :: Execution(steps, ws) && ws[0] == Initial(1) &&
              !ChildrenFirst(ws[|ws| - 1])
  {
    var steps, ws := BothErased();
    var w1 := ws[|steps|];
    steps, ws := Extend(steps, ws, EndScopeStep(1, true));
    var w2 := ws[|steps|];
    assert w2.ended == [1] && w2.ending == {2} && w2.begun == w1.begun;
    steps, ws := Extend(steps, ws, EndScopeStep(2, true));
    var last := ws[|ws| - 1];
    assert last.begun[2] == last.ended[0] && 2 !in last.ended[..0] && 2 !in last.dropped;
  }

  // Scope 2 was begun under scope 1; both are erased and neither is announced.
  lemma BothErased() returns (steps: seq<Step>, ws: seq<World>)
    ensures Execution(steps, ws) && ws[0] == Initial(1)
    ensures var w := ws[|steps|];
      w.begun == map[1 := GLOBAL, 2 := 1] && w.ending == {1, 2} && w.ended == [] && w.dropped == {}
  {
    steps, ws := BothRequested();
    steps, ws := Extend(steps, ws, FinalizeStep(2));
    var w := ws[|steps|];
    assert w.h.scopes == map[1 := ScopeRecord(GLOBAL, None, None, false, true)];
    assert w.ending == {2} && w.owed == multiset{1};
    steps, ws := Extend(steps, ws, FinalizeStep(1));
  }

  lemma BothRequested() returns (steps: seq<Step>, ws: seq<World>)
    ensures Execution(steps, ws) && ws[0] == Initial(1)
    ensures ws[|steps|] == World(
      Hosted(true, 1, map[1 := ScopeRecord(GLOBAL, None, None, false, true),
                          2 := ScopeRecord(1, None, None, false, true)], map[], true, 3),
      map[1 := GLOBAL, 2 := 1], {}, [], {}, {}, {}, [], multiset{1, 2}, false)
  {
    steps, ws := ChildBegun();
    steps, ws := Extend(steps, ws, RequestStep(1));
    steps, ws := Extend(steps, ws, RequestStep(2));
  }

  lemma ChildBegun() returns (steps: seq<Step>, ws: seq<World>)
    ensures Execution(steps, ws) && ws[0] == Initial(1)
    ensures ws[|steps|] == World(
      Hosted(true, 1, map[1 := ScopeRecord(GLOBAL, None, None, false, false),
                          2 := ScopeRecord(1, None, None, false, false)], map[], true, 3),
      map[1 := GLOBAL, 2 := 1], {}, [], {}, {}, {}, [], multiset{}, false)
  {
    steps, ws := Extend([], [Initial(1)], BindStep);
    steps, ws := Extend(steps, ws, BeginScopeStep(1, None));
  }

  /* ---------- close handlers and children ---------- */

  // A handler is taken only from a scope that is requested, childless and not pending.
  lemma TakenOnlyWhenChildless(w: World, step: Step, p: (ScopeId, HandlerId))
    requires Enabled(w, step) && p !in w.firing && p in Apply(w, step).firing
    ensures step == FinalizeStep(p.0) && Holds(w, p.0, p.1)
    ensures w.h.scopes[p.0].requested && !w.h.scopes[p.0].pending
    ensures !HasChild(w.h.scopes, p.0) && !HasChild(Apply(w, step).h.scopes, p.0)
  {
    TakenByFinalize(w, step, p);
    FinalizeRuns(w.h, p.0);
    NoNewChild(w, step, p.0);
  }

  lemma TakenByFinalize(w: World, step: Step, p: (ScopeId, HandlerId))
    requires p !in w.firing && p in Apply(w, step).firing
    ensures step == FinalizeStep(p.0) && Finalize(w.h, p.0).1 == RunHandler(p.1)
  {
    if step.FinalizeStep? {
      FinalizingFields(w, step.id);
      OutcomeRecords(w, step.id, Finalize(w.h, step.id).1);
    }
  }

  lemma FinalizeRuns(h: Hosted, id: ScopeId)
    requires Finalize(h, id).1.RunHandler?
    ensures id in h.scopes && h.scopes[id].handler == Some(Finalize(h, id).1.handler)
    ensures h.scopes[id].requested && !h.scopes[id].pending && !HasChild(h.scopes, id)
  {
  }

  // Handlers that were taken still belong to childless scopes.
  ghost predicate Calm(w: World) {
    forall p :: p in w.firing ==> !HasChild(w.h.scopes, p.0)
  }

  /** The only step that can put a child under a scope whose handler is about to
      run is a successful BeginScope under exactly such a scope; a parent that is
      not close-requested is never one. */
  lemma CalmExactly(w: World, step: Step)
    requires Safe(w) && Calm(w) && Enabled(w, step)
    ensures Calm(Apply(w, step)) <==>
            !(step.BeginScopeStep? && BeginScope(w.h, step.parent, step.window).Ok? &&
              exists p :: p in w.firing && p.0 == step.parent)
    ensures step.BeginScopeStep? && step.parent in w.h.scopes && !w.h.scopes[step.parent].requested ==>
            Calm(Apply(w, step))
  {
    var w' := Apply(w, step);
    match step {
      case BeginScopeStep(parent, window) =>
        if BeginScope(w.h, parent, window).Ok? {
          BeginScopeAndCalm(w, parent, window);
        }
      case BindStep =>
        forall p | p in w'.firing
          ensures !HasChild(w'.h.scopes, p.0)
        {
          assert p.0 > GLOBAL;
        }
      case _ =>
        forall p | p in w'.firing
          ensures !HasChild(w'.h.scopes, p.0)
        {
          if p !in w.firing {
            TakenOnlyWhenChildless(w, step, p);
          } else {
            NoNewChild(w, step, p.0);
          }
        }
    }
  }

  // Only Bind and BeginScope add a scope.
  lemma SectionShrinks(h: Hosted, step: Step)
    requires !step.BeginScopeStep? && !step.BindStep?
    ensures forall c :: c in Section(h, step).scopes ==>
              c in h.scopes && Section(h, step).scopes[c].parent == h.scopes[c].parent
  {
  }

  lemma NoNewChild(w: World, step: Step, id: ScopeId)
    requires !step.BeginScopeStep? && !step.BindStep? && !HasChild(w.h.scopes, id)
    ensures !HasChild(Apply(w, step).h.scopes, id)
  {
    SectionShrinks(w.h, step);
  }

  lemma BeginScopeAndCalm(w: World, parent: ScopeId, window: Option<WindowId>)
    requires Safe(w) && Calm(w) && BeginScope(w.h, parent, window).Ok?
    ensures Calm(Apply(w, BeginScopeStep(parent, window))) <==>
            !(exists p :: p in w.firing && p.0 == parent)
    ensures parent in w.h.scopes && !w.h.scopes[parent].requested ==>
            !(exists p :: p in w.firing && p.0 == parent)
  {
    var w' := Apply(w, BeginScopeStep(parent, window));
    var id := w.h.nextScopeId;
    assert id in w'.h.scopes && w'.h.scopes[id].parent == parent;
    assert forall c :: c in w'.h.scopes && c != id ==> c in w.h.scopes && w'.h.scopes[c] == w.h.scopes[c];
  }

  // A scope can gain a child between the taking and the running of its handler.
  lemma HandlerCanRunAboveAChild()
    ensures exists steps: seq<Step>, ws: seq<World> :: Execution(steps, ws) && ws[0] == Initial(1) && |steps| > 0 &&
              var last := steps[|steps| - 1]; var w := ws[|ws| - 1];
              last.RunHandlerStep? && HasChild(w.h.scopes, last.id)
  {
    var steps, ws := HandlerTaken();
    steps, ws := Extend(steps, ws, BeginScopeStep(2, None));
    var w := ws[|steps|];
    assert 3 in w.h.scopes && w.h.scopes[3].parent == 2;
    steps, ws := Extend(steps, ws, RunHandlerStep(2, 7));
    assert HasChild(ws[|ws| - 1].h.scopes, 2);
  }

  // The handler of scope 2 has been taken and is about to run.
  lemma HandlerTaken() returns (steps: seq<Step>, ws: seq<World>)
    ensures Execution(steps, ws) && ws[0] == Initial(1)
    ensures ws[|steps|] == TakenWorld({(2, 7)}, [], true)
  {
    steps, ws := HandlerWaiting();
    steps, ws := Extend(steps, ws, FinalizeStep(2));
  }

  lemma HandlerWaiting() returns (steps: seq<Step>, ws: seq<World>)
    ensures Execution(steps, ws) && ws[0] == Initial(1)
    ensures ws[|steps|] == World(
      Hosted(true, 1, map[1 := ScopeRecord(GLOBAL, None, None, false, false),
                          2 := ScopeRecord(1, None, Some(7), false, true)], map[], true, 3),
      map[1 := GLOBAL, 2 := 1], {}, [], {}, {7}, {}, [], multiset{2}, false)
  {
    steps, ws := ChildBegun();
    steps, ws := Extend(steps, ws, SetHandlerStep(2, 7));
    steps, ws := Extend(steps, ws, RequestStep(2));
  }

  // Scope 2 was asked to close and its handler was taken.
  function TakenWorld(firing: set<(ScopeId, HandlerId)>, ran: seq<(ScopeId, HandlerId)>, pending: bool): World {
    World(
      Hosted(true, 1, map[1 := ScopeRecord(GLOBAL, None, None, false, false),
                          2 := ScopeRecord(1, None, None, pending, true)], map[], true, 3),
      map[1 := GLOBAL, 2 := 1], {}, [], {}, {7}, firing, ran, multiset{}, false)
  }

  /* ---------- no finalisation is lost ---------- */

  // The scope could be finalised now.
  predicate Ready(w: World, x: ScopeId) {
    CanFinalize(w.h.scopes, x)
  }

  predicate CanFinalize(m: ScopeTable, x: ScopeId) {
    x in m && m[x].requested && !m[x].pending && !HasChild(m, x)
  }

  // No thread has an EndScope or TryFinalize call left to make.
  predicate Quiescent(w: World) {
    w.ending == {} && w.owed == multiset{}
  }

  // Some thread will still try to finalise the scope.
  ghost predicate Attended(w: World, x: ScopeId) {
    x in w.owed || exists c :: c in w.ending && ParentOf(w, c) == x
  }

  // The scope could be finalised now, and no thread is going to try.
  ghost predicate Stranded(w: World, x: ScopeId) {
    Ready(w, x) && !Attended(w, x)
  }

  // Asked to close, childless, its handler pending, and no thread is to try it.
  ghost predicate StrandsIfCleared(w: World, x: ScopeId) {
    && x in w.h.scopes && w.h.scopes[x].requested && w.h.scopes[x].pending
    && !HasChild(w.h.scopes, x) && !Attended(w, x)
  }

  // The scope is asked to close again, or gains a child.
  predicate Revives(w: World, step: Step, x: ScopeId) {
    || step == RequestStep(x)
    || (step.BeginScopeStep? && step.parent == x && BeginScope(w.h, step.parent, step.window).Ok?)
  }

  // Step j was a clear that strands x, and nothing has revived x since.
  ghost predicate StrandedBy(steps: seq<Step>, ws: seq<World>, j: nat, i: nat, x: ScopeId)
    requires |ws| == |steps| + 1
  {
    && j < i < |ws| && steps[j] == ClearHandlerStep(x) && StrandsIfCleared(ws[j], x)
    && forall k :: j < k < i ==> !Revives(ws[k], steps[k], x)
  }

  // Which locked sections, besides a finalisation, can make a scope ready.
  lemma ReadyBefore(h: Hosted, begun: map<ScopeId, ScopeId>, step: Step, x: ScopeId)
    requires TableBody(h, begun) && !step.FinalizeStep? && CanFinalize(Section(h, step).scopes, x)
    ensures x in h.scopes
    ensures CanFinalize(h.scopes, x) || step == RequestStep(x) || (step == ClearHandlerStep(x) && h.scopes[x].pending)
  {
    if step.BeginScopeStep? || step.BindStep? {
      AddingIsNotReady(h, begun, step, x);
    } else {
      OthersKeepScopes(h, step);
      var m := Section(h, step).scopes;
      assert HasChild(h.scopes, x) ==> HasChild(m, x);
    }
  }

  lemma AddingIsNotReady(h: Hosted, begun: map<ScopeId, ScopeId>, step: Step, x: ScopeId)
    requires TableBody(h, begun) && (step.BeginScopeStep? || step.BindStep?)
    requires CanFinalize(Section(h, step).scopes, x)
    ensures CanFinalize(h.scopes, x)
  {
    var m := Section(h, step).scopes;
    assert forall c :: c in h.scopes ==> c in m && m[c] == h.scopes[c];
    assert HasChild(h.scopes, x) ==> HasChild(m, x);
  }

  // Other steps leave whoever was attended attended.
  lemma AttendedAfter(w: World, step: Step, x: ScopeId)
    requires TableOk(w) && EndsOk(w) && Enabled(w, step) && !step.FinalizeStep? && !Apply(w, step).failed
    requires Attended(w, x) && x > GLOBAL
    ensures Attended(Apply(w, step), x)
  {
    var w' := Apply(w, step);
    assert forall y :: y in w.owed ==> y in w'.owed;
    if x !in w.owed {
      var c :| c in w.ending && ParentOf(w, c) == x;
      ParentStays(w, step, c);
      if c in w'.ending {
        assert ParentOf(w', c) == x;
      } else {
        assert x in w'.owed;
      }
    }
  }

  lemma ParentStays(w: World, step: Step, c: ScopeId)
    requires TableOk(w) && c in w.begun
    ensures ParentOf(Apply(w, step), c) == ParentOf(w, c)
  {
  }

  // What an unattended scope that could be finalised was one step earlier.
  lemma UnattendedBefore(w: World, step: Step, x: ScopeId)
    requires TableOk(w) && EndsOk(w) && Enabled(w, step) && !Apply(w, step).failed
    requires Ready(Apply(w, step), x) && !Attended(Apply(w, step), x)
    ensures !w.failed
    ensures (step == ClearHandlerStep(x) && x in w.h.scopes && w.h.scopes[x].pending)
            || (Ready(w, x) && !Attended(w, x))
  {
    if step.FinalizeStep? {
      UnattendedFinalize(w, step.id, x);
    } else {
      ReadyBefore(w.h, w.begun, step, x);
      GlobalIsNotActive(w.h.scopes);
      if Attended(w, x) {
        AttendedAfter(w, step, x);
      }
    }
  }

  // A finalisation that stops at x leaves it not ready; one that erases a child of
  // x leaves it attended.
  lemma FinalizeAndReady(h: Hosted, id: ScopeId, x: ScopeId)
    requires CanFinalize(Finalize(h, id).0.scopes, x)
    ensures x != id && x in h.scopes
    ensures CanFinalize(h.scopes, x) || (Finalize(h, id).1.Erased? && Finalize(h, id).1.parent == x)
  {
    var m, o := Finalize(h, id).0.scopes, Finalize(h, id).1;
    if o.Erased? {
      assert forall c :: c in h.scopes && c != id ==> c in m && m[c] == h.scopes[c];
    } else {
      assert forall c :: c in h.scopes ==> c in m && m[c].parent == h.scopes[c].parent;
      assert forall c :: c in m ==> c in h.scopes && m[c].parent == h.scopes[c].parent;
    }
  }

  lemma UnattendedFinalize(w: World, id: ScopeId, x: ScopeId)
    requires TableOk(w) && EndsOk(w) && id in w.owed
    requires var w' := Apply(w, FinalizeStep(id)); Ready(w', x) && !Attended(w', x)
    ensures Ready(w, x) && !Attended(w, x)
  {
    var w' := Apply(w, FinalizeStep(id));
    var o := Finalize(w.h, id).1;
    FinalizeAndReady(w.h, id, x);
    GlobalIsNotActive(w.h.scopes);
    assert o.Erased? ==> ParentOf(w', id) == o.parent;
    assert x in w.owed ==> x in w'.owed;
    assert forall c :: c in w.ending ==> c in w'.ending && ParentOf(w', c) == ParentOf(w, c);
  }

  // Clearing strands a scope with a pending handler exactly if the guard holds.
  lemma ClearingStrandsExactly(w: World, x: ScopeId)
    requires x in w.h.scopes && w.h.scopes[x].pending
    ensures Stranded(Apply(w, ClearHandlerStep(x)), x) <==> StrandsIfCleared(w, x)
  {
    var step := ClearHandlerStep(x);
    var w' := Apply(w, step);
    OthersKeepScopes(w.h, step);
    assert w'.h.scopes[x].requested == w.h.scopes[x].requested;
    assert HasChild(w.h.scopes, x) <==> HasChild(w'.h.scopes, x);
    assert forall c :: ParentOf(w', c) == ParentOf(w, c);
  }

  /** A stranded scope stays stranded through every step but two: a request to
      close it, and the beginning of a scope under it. */
  lemma StrandedExactly(w: World, step: Step, x: ScopeId)
    requires TableOk(w) && EndsOk(w) && Enabled(w, step) && Stranded(w, x)
    ensures Stranded(Apply(w, step), x) <==> !Revives(w, step, x)
  {
    var w' := Apply(w, step);
    if Revives(w, step, x) {
      if step.RequestStep? {
        assert x in w'.owed;
      } else {
        assert w.h.nextScopeId in w'.h.scopes && w'.h.scopes[w.h.nextScopeId].parent == x;
      }
    } else {
      StaysReady(w.h, w.begun, step, x, w.owed);
      StaysUnattended(w, step, x);
    }
  }

  // Only a finalisation of x itself could take it away.
  lemma StaysReady(h: Hosted, begun: map<ScopeId, ScopeId>, step: Step, x: ScopeId, owed: multiset<ScopeId>)
    requires TableBody(h, begun) && CanFinalize(h.scopes, x) && x !in owed
    requires step.FinalizeStep? ==> step.id in owed
    requires step.BeginScopeStep? && step.parent == x ==> BeginScope(h, step.parent, step.window).Err?
    ensures CanFinalize(Section(h, step).scopes, x)
  {
    GlobalIsNotActive(h.scopes);
    var m := Section(h, step).scopes;
    if step.FinalizeStep? {
      FinalizeLeaves(h, step.id, x);
    } else if !step.BindStep? && !step.BeginScopeStep? {
      OthersKeepScopes(h, step);
      assert HasChild(m, x) ==> HasChild(h.scopes, x);
    } else {
      assert forall c :: c in m && c != h.nextScopeId ==> c in h.scopes && m[c] == h.scopes[c];
    }
  }

  lemma FinalizeLeaves(h: Hosted, id: ScopeId, x: ScopeId)
    requires CanFinalize(h.scopes, x) && id != x
    ensures CanFinalize(Finalize(h, id).0.scopes, x)
    ensures Finalize(h, id).1.Erased? ==> Finalize(h, id).1.parent != x
  {
    SectionShrinks(h, FinalizeStep(id));
    var m := Finalize(h, id).0.scopes;
    assert HasChild(m, x) ==> HasChild(h.scopes, x);
  }

  lemma StaysUnattended(w: World, step: Step, x: ScopeId)
    requires TableOk(w) && EndsOk(w) && Enabled(w, step) && Stranded(w, x) && !Revives(w, step, x)
    ensures !Attended(Apply(w, step), x)
  {
    var w' := Apply(w, step);
    if step.FinalizeStep? {
      FinalizeLeaves(w.h, step.id, x);
      FinalizeRecords(w, step.id);
      UnattendedByFinalize(w, step.id, x);
    } else {
      forall c | c in w'.ending
        ensures ParentOf(w', c) != x
      {
        assert c in w.ending;
        ParentStays(w, step, c);
      }
    }
  }

  lemma UnattendedByFinalize(w: World, id: ScopeId, x: ScopeId)
    requires TableOk(w) && EndsOk(w) && !Attended(w, x)
    requires Finalize(w.h, id).1.Erased? ==> Finalize(w.h, id).1.parent != x
    ensures !Attended(Apply(w, FinalizeStep(id)), x)
  {
    var w', o := Apply(w, FinalizeStep(id)), Finalize(w.h, id).1;
    FinalizeRecords(w, id);
    assert x !in w'.owed;
    assert o.Erased? ==> ParentOf(w, id) == o.parent;
    assert forall c :: ParentOf(w', c) == ParentOf(w, c);
  }

  lemma {:induction false} ClearedStaysStranded(steps: seq<Step>, ws: seq<World>, next: ScopeId, j: nat, i: nat,
                                                x: ScopeId)
    requires Execution(steps, ws) && ws[0] == Initial(next) && next > GLOBAL
    requires StrandedBy(steps, ws, j, i, x)
    ensures Stranded(ws[i], x)
    decreases i
  {
    var h := i - 1;
    assert Enabled(ws[h], steps[h]) && ws[i] == Apply(ws[h], steps[h]);
    if j == h {
      ClearingStrandsExactly(ws[j], x);
    } else {
      AlwaysSafe(steps, ws, next, h);
      ClearedStaysStranded(steps, ws, next, j, h, x);
      StrandedExactly(ws[h], steps[h], x);
    }
  }

  lemma {:induction false} StrandedWasCleared(steps: seq<Step>, ws: seq<World>, next: ScopeId, i: nat, x: ScopeId)
    requires Execution(steps, ws) && ws[0] == Initial(next) && next > GLOBAL && i < |ws| && !ws[i].failed
    requires Stranded(ws[i], x)
    ensures exists j: nat :: StrandedBy(steps, ws, j, i, x)
    decreases i
  {
    if i > 0 {
      var h := i - 1;
      assert Enabled(ws[h], steps[h]) && ws[i] == Apply(ws[h], steps[h]);
      AlwaysSafe(steps, ws, next, h);
      UnattendedBefore(ws[h], steps[h], x);
      if Stranded(ws[h], x) {
        StrandedWasCleared(steps, ws, next, h, x);
        var j: nat :| StrandedBy(steps, ws, j, h, x);
        StrandedExactly(ws[h], steps[h], x);
        StillStranded(steps, ws, j, i, x);
      } else {
        ClearingStrandsExactly(ws[h], x);
        assert StrandedBy(steps, ws, h, i, x);
      }
    }
  }

  lemma StillStranded(steps: seq<Step>, ws: seq<World>, j: nat, i: nat, x: ScopeId)
    requires |ws| == |steps| + 1 && 0 < i < |ws| && StrandedBy(steps, ws, j, i - 1, x)
    requires !Revives(ws[i - 1], steps[i - 1], x)
    ensures StrandedBy(steps, ws, j, i, x)
  {
  }

  /**
   No finalisation is lost but by ClearCloseHandler. When no EndScope failed, a
   scope that could be finalised has no thread to try it exactly if a pending
   handler of it was cleared when it was already asked to close, childless and
   without such a thread, and since then it was neither asked again nor gained a
   child. Once all threads have returned, those are all scopes that could be
   finalised.
   */
  lemma NoFinalisationLost(steps: seq<Step>, ws: seq<World>, next: ScopeId, i: nat, x: ScopeId)
    requires Execution(steps, ws) && ws[0] == Initial(next) && next > GLOBAL && i < |ws| && !ws[i].failed
    ensures Stranded(ws[i], x) <==> exists j: nat :: StrandedBy(steps, ws, j, i, x)
    ensures Quiescent(ws[i]) ==> (Ready(ws[i], x) <==> exists j: nat :: StrandedBy(steps, ws, j, i, x))
  {
    if Stranded(ws[i], x) {
      StrandedWasCleared(steps, ws, next, i, x);
    }
    if exists j: nat :: StrandedBy(steps, ws, j, i, x) {
      var j: nat :| StrandedBy(steps, ws, j, i, x);
      ClearedStaysStranded(steps, ws, next, j, i, x);
    }
  }

  // Clearing a pending handler can leave a scope behind.
  lemma ClearingCanStrand()
    ensures exists steps: seq<Step>, ws: seq<World> :: Execution(steps, ws) && ws[0] == Initial(1) &&
              var w := ws[|ws| - 1];
              Quiescent(w) && !w.failed && w.firing == {} && Stranded(w, 2)
  {
    var steps, ws := LeftBehind();
    assert Stranded(ws[|ws| - 1], 2);
  }

  lemma LeftBehind() returns (steps: seq<Step>, ws: seq<World>)
    ensures Execution(steps, ws) && ws[0] == Initial(1)
    ensures ws[|steps|] == TakenWorld({}, [(2, 7)], false)
  {
    steps, ws := HandlerTaken();
    steps, ws := Extend(steps, ws, RunHandlerStep(2, 7));
    steps, ws := Extend(steps, ws, ClearHandlerStep(2));
  }

  // A scope left behind can still go without being asked again: with a later
  // child of it.
  lemma ChildCanTakeAlong()
    ensures exists steps: seq<Step>, ws: seq<World>, j: nat ::
              Execution(steps, ws) && ws[0] == Initial(1) && GoesWithoutRequest(steps, ws, j, 2)
  {
    var steps, ws := LeftBehind();
    assert Quiescent(ws[|steps|]) && Stranded(ws[|steps|], 2);
    var s, w := ChildErased(steps, ws);
    var s', w' := ParentErased(s, w);
    assert w'[|steps|] == ws[|steps|];
    assert GoesWithoutRequest(s', w', |steps|, 2);
  }

  // Stranded in world j, x is gone in the last one, and nobody asked in between.
  ghost predicate GoesWithoutRequest(steps: seq<Step>, ws: seq<World>, j: nat, x: ScopeId)
    requires |ws| == |steps| + 1
  {
    && j < |steps| && Quiescent(ws[j]) && Stranded(ws[j], x) && x !in ws[|steps|].h.scopes
    && forall k :: j <= k < |steps| ==> steps[k] != RequestStep(x)
  }

  ghost predicate ChildIsErased(w: World) {
    && w.h.scopes == map[1 := ScopeRecord(GLOBAL, None, None, false, false),
                         2 := ScopeRecord(1, None, None, false, true)]
    && w.ending == {3} && w.owed == multiset{} && ParentOf(w, 3) == 2
  }

  // A child of the scope left behind is begun, asked to close and erased.
  lemma ChildErased(steps: seq<Step>, ws: seq<World>) returns (steps': seq<Step>, ws': seq<World>)
    requires Execution(steps, ws) && ws[|steps|] == TakenWorld({}, [(2, 7)], false)
    ensures steps' == steps + [BeginScopeStep(2, None), RequestStep(3), FinalizeStep(3)]
    ensures Execution(steps', ws') && ws <= ws' && ChildIsErased(ws'[|steps'|])
  {
    steps', ws' := ChildRequested(steps, ws);
    steps', ws' := Extend(steps', ws', FinalizeStep(3));
  }

  lemma ChildRequested(steps: seq<Step>, ws: seq<World>) returns (steps': seq<Step>, ws': seq<World>)
    requires Execution(steps, ws) && ws[|steps|] == TakenWorld({}, [(2, 7)], false)
    ensures steps' == steps + [BeginScopeStep(2, None), RequestStep(3)]
    ensures Execution(steps', ws') && ws <= ws'
    ensures var w := ws'[|steps'|];
      && w.h.bound && w.ending == {} && w.owed == multiset{3} && ParentOf(w, 3) == 2
      && w.h.scopes == map[1 := ScopeRecord(GLOBAL, None, None, false, false),
                           2 := ScopeRecord(1, None, None, false, true),
                           3 := ScopeRecord(2, None, None, false, true)]
  {
    steps', ws' := Extend(steps, ws, BeginScopeStep(2, None));
    steps', ws' := Extend(steps', ws', RequestStep(3));
  }

  // The end of the child lets the finalisation of its parent through.
  lemma ParentErased(steps: seq<Step>, ws: seq<World>) returns (steps': seq<Step>, ws': seq<World>)
    requires Execution(steps, ws) && ChildIsErased(ws[|steps|])
    ensures steps' == steps + [EndScopeStep(3, true), FinalizeStep(2)]
    ensures Execution(steps', ws') && ws <= ws' && 2 !in ws'[|steps'|].h.scopes
  {
    steps', ws' := Extend(steps, ws, EndScopeStep(3, true));
    var w := ws'[|steps'|];
    assert w.owed == multiset{2} && !HasChild(w.h.scopes, 2);
    steps', ws' := Extend(steps', ws', FinalizeStep(2));
  }

  /* ---------- shutdown ---------- */

  /** Once work is refused, no step but Bind lets a scope in: up to the next
      Bind the set of active scopes only shrinks. */
  lemma {:induction false} NoGrowthAfterShutdown(steps: seq<Step>, ws: seq<World>, i: nat, j: nat)
    requires Execution(steps, ws) && i <= j < |ws|
    requires !ws[i].h.acceptsWork
    requires forall k :: i <= k < j ==> !steps[k].BindStep?
    ensures !ws[j].h.acceptsWork && ws[j].h.scopes.Keys <= ws[i].h.scopes.Keys
    decreases j
  {
    if i < j {
      NoGrowthAfterShutdown(steps, ws, i, j - 1);
      assert ws[j] == Apply(ws[j - 1], steps[j - 1]);
      SectionRefuses(ws[j - 1].h, steps[j - 1]);
    }
  }

  lemma SectionRefuses(h: Hosted, step: Step)
    requires !h.acceptsWork && !step.BindStep?
    ensures !Section(h, step).acceptsWork && Section(h, step).scopes.Keys <= h.scopes.Keys
  {
    if !step.BeginScopeStep? {
      SectionShrinks(h, step);
    }
  }

  /* ---------- windows ---------- */

  // Beginning a scope keeps the two indexes in agreement exactly when its
  // window is not already in use.
  lemma WindowsAgreeExactly(h: Hosted, parent: ScopeId, window: Option<WindowId>)
    requires WellFormed(h) && WindowsAgree(h) && BeginScope(h, parent, window).Ok?
    ensures WindowsAgree(BeginScope(h, parent, window).value) <==>
            window.None? || window.value !in h.windows
  {
    var h' := BeginScope(h, parent, window).value;
    var id := h.nextScopeId;
    if window.Some? && window.value in h.windows {
      var x := h.windows[window.value];
      assert x in h'.scopes && h'.scopes[x].window == window && h'.windows[window.value] == id;
    } else {
      AddingKeepsWindows(h, parent, window, h');
    }
  }
}
