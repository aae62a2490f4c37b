/** Ownership of action outputs: declared collisions and observed outputs. */
module ActionOutputs {
  datatype OutputKind = Source | Header | File | Directory

  type Path = string

  datatype Output = Output(kind: OutputKind, path: Path)

  datatype Action = Action(qualifiedName: string, outputs: seq<Output>)

  datatype Owner = Owner(action: string, output: Output)

  datatype Diagnostic =
    | Collision(existing: Owner, added: Owner)
    | Undeclared(action: string, path: Path)
    | NotProduced(action: string, path: Path)

  predicate IsWithinDirectory(path: Path, directory: Path) {
    directory + "/" <= path
  }

  // The paths an output claims: its own, and everything below it for a directory.
  predicate Claims(o: Output, p: Path) {
    p == o.path || (o.kind == Directory && IsWithinDirectory(p, o.path))
  }

  predicate ActionClaims(a: Action, p: Path) {
    exists o :: o in a.outputs && Claims(o, p)
  }

  predicate Collide(a: Output, b: Output) {
    || a.path == b.path
    || (a.kind == Directory && IsWithinDirectory(b.path, a.path))
    || (b.kind == Directory && IsWithinDirectory(a.path, b.path))
  }

  /** Two outputs collide exactly when some path is claimed by both. */
  lemma CollideExactly(a: Output, b: Output)
    ensures Collide(a, b) <==> exists p :: Claims(a, p) && Claims(b, p)
  {
    if Collide(a, b) {
      var p := if a.kind == Directory && IsWithinDirectory(b.path, a.path) then b.path else a.path;
      assert Claims(a, p) && Claims(b, p);
    }
    forall p | Claims(a, p) && Claims(b, p)
      ensures Collide(a, b)
    {
      if p != a.path && p != b.path {
        if |a.path| <= |b.path| {
          NestedDirectories(a.path, b.path, p);
        } else {
          NestedDirectories(b.path, a.path, p);
        }
      }
    }
  }

  // Of two directories above the same path, one is the other or contains it.
  lemma NestedDirectories(outer: Path, inner: Path, p: Path)
    requires IsWithinDirectory(p, outer) && IsWithinDirectory(p, inner) && |outer| <= |inner|
    ensures outer == inner || IsWithinDirectory(inner, outer)
  {
    assert (outer + "/")[..|outer|] == outer && (inner + "/")[..|inner|] == inner;
    assert p[..|outer|] == outer && p[..|inner|] == inner;
    if |outer| < |inner| {
      assert inner[..|outer| + 1] == p[..|outer| + 1] == outer + "/";
    }
  }

  // A path's parts between the slashes.
  function Parts(p: Path): (r: seq<string>)
    ensures r != []
  {
    if p == "" then [""]
    else if p[0] == '/' then [""] + Parts(p[1..])
    else [[p[0]] + Parts(p[1..])[0]] + Parts(p[1..])[1..]
  }

  lemma {:induction false} PartsJoin(a: Path, b: Path)
    ensures Parts(a + "/" + b) == Parts(a) + Parts(b)
    decreases |a|
  {
    var s := a + "/" + b;
    if a == "" {
      assert s[0] == '/' && s[1..] == b;
    } else {
      assert s[0] == a[0] && s[1..] == a[1..] + "/" + b;
      PartsJoin(a[1..], b);
    }
  }

  lemma {:induction false} SameParts(a: Path, b: Path)
    requires Parts(a) == Parts(b)
    ensures a == b
    decreases |a| + |b|
  {
    if a != "" && b != "" {
      SameRest(a, b);
      SameParts(a[1..], b[1..]);
      assert a == [a[0]] + a[1..] && b == [b[0]] + b[1..];
    } else if a != "" {
      SlashParts(a);
    } else if b != "" {
      SlashParts(b);
    }
  }

  // A path starts with a slash exactly when its first part is empty and another follows.
  lemma SlashParts(a: Path)
    requires a != ""
    ensures a[0] == '/' <==> Parts(a)[0] == ""
    ensures a[0] == '/' ==> |Parts(a)| > 1
  {
  }

  lemma SameRest(a: Path, b: Path)
    requires a != "" && b != "" && Parts(a) == Parts(b)
    ensures a[0] == b[0] && Parts(a[1..]) == Parts(b[1..])
  {
    SlashParts(a);
    SlashParts(b);
    var x, y := Parts(a[1..]), Parts(b[1..]);
    if a[0] == '/' {
      assert Parts(a)[1..] == x && Parts(b)[1..] == y;
    } else {
      assert Parts(a)[0][0] == a[0] && Parts(b)[0][0] == b[0];
      assert Parts(a)[0][1..] == x[0] && Parts(b)[0][1..] == y[0];
      assert Parts(a)[1..] == x[1..] && Parts(b)[1..] == y[1..];
      assert x == [x[0]] + x[1..] && y == [y[0]] + y[1..];
    }
  }

  // Where a path's first n parts end.
  lemma {:induction false} CutAfter(p: Path, n: nat) returns (a: Path, b: Path)
    requires 0 < n < |Parts(p)|
    ensures p == a + "/" + b && Parts(a) == Parts(p)[..n]
    decreases |p|
  {
    if p[0] == '/' && n == 1 {
      a, b := "", p[1..];
      assert Parts(p)[..1] == [""];
    } else {
      var rest := Parts(p[1..]);
      var m := if p[0] == '/' then n - 1 else n;
      var c, d := CutAfter(p[1..], m);
      a, b := [p[0]] + c, d;
      assert a[1..] == c && p == [p[0]] + p[1..];
      assert Parts(c) == rest[..m];
      if p[0] == '/' {
        assert Parts(a) == [""] + rest[..m] == Parts(p)[..n];
      } else {
        assert Parts(a) == [[p[0]] + rest[0]] + rest[..m][1..] == Parts(p)[..n];
      }
    }
  }

  /** A path is within a directory exactly when its parts go on from the directory's. */
  lemma WithinExactly(path: Path, directory: Path)
    ensures IsWithinDirectory(path, directory) <==>
            |Parts(directory)| < |Parts(path)| && Parts(directory) == Parts(path)[..|Parts(directory)|]
  {
    var n := |Parts(directory)|;
    if IsWithinDirectory(path, directory) {
      var rest := path[|directory| + 1..];
      assert path == directory + "/" + rest;
      PartsJoin(directory, rest);
    }
    if n < |Parts(path)| && Parts(directory) == Parts(path)[..n] {
      var a, b := CutAfter(path, n);
      SameParts(a, directory);
    }
  }

  /* ---------- declared collisions ---------- */

  function OwnersOf(a: Action): (r: seq<Owner>)
    ensures |r| == |a.outputs| && forall k :: 0 <= k < |r| ==> r[k] == Owner(a.qualifiedName, a.outputs[k])
  {
    seq(|a.outputs|, k requires 0 <= k < |a.outputs| => Owner(a.qualifiedName, a.outputs[k]))
  }

  // Every output with its action, in declaration order.
  function Owners(actions: seq<Action>): seq<Owner> {
    if actions == [] then [] else Owners(actions[..|actions| - 1]) + OwnersOf(actions[|actions| - 1])
  }

  predicate Clash(existing: Owner, added: Owner) {
    existing.action != added.action && Collide(existing.output, added.output)
  }

  // What the owners before it have against a new one.
  function ClashesWith(owners: seq<Owner>, added: Owner): seq<Diagnostic> {
    if owners == [] then []
    else
      var last := owners[|owners| - 1];
      ClashesWith(owners[..|owners| - 1], added) + if Clash(last, added) then [Collision(last, added)] else []
  }

  function AllClashes(owners: seq<Owner>): seq<Diagnostic> {
    if owners == [] then []
    else
      var before := owners[..|owners| - 1];
      AllClashes(before) + ClashesWith(before, owners[|owners| - 1])
  }

  method ValidateActionOutputCollisions(actions: seq<Action>) returns (diagnostics: seq<Diagnostic>)
    ensures diagnostics == AllClashes(Owners(actions))
  {
    diagnostics := [];
    var owners: seq<Owner> := [];
    for i := 0 to |actions|
      invariant owners == Owners(actions[..i]) && diagnostics == AllClashes(owners)
    {
      assert actions[..i + 1][..i] == actions[..i];
      diagnostics, owners := AddOutputs(diagnostics, owners, actions[i]);
    }
    assert actions[..|actions|] == actions;
  }

  // The inner loop: the outputs of one action join the owners one by one.
  method AddOutputs(reported: seq<Diagnostic>, known: seq<Owner>, action: Action)
      returns (diagnostics: seq<Diagnostic>, owners: seq<Owner>)
    requires reported == AllClashes(known)
    ensures owners == known + OwnersOf(action) && diagnostics == AllClashes(owners)
  {
    diagnostics, owners := reported, known;
    for k := 0 to |action.outputs|
      invariant owners == known + OwnersOf(action)[..k] && diagnostics == AllClashes(owners)
    {
      var added := Owner(action.qualifiedName, action.outputs[k]);
      var clashes := CheckAgainst(owners, added);
      AddOwner(owners, added);
      diagnostics := diagnostics + clashes;
      owners := owners + [added];
    }
    assert OwnersOf(action)[..|action.outputs|] == OwnersOf(action);
  }

  lemma AddOwner(owners: seq<Owner>, added: Owner)
    ensures AllClashes(owners + [added]) == AllClashes(owners) + ClashesWith(owners, added)
  {
    assert (owners + [added])[..|owners|] == owners;
  }

  method CheckAgainst(owners: seq<Owner>, added: Owner) returns (diagnostics: seq<Diagnostic>)
    ensures diagnostics == ClashesWith(owners, added)
  {
    diagnostics := [];
    for j := 0 to |owners|
      invariant diagnostics == ClashesWith(owners[..j], added)
    {
      assert owners[..j + 1][..j] == owners[..j];
      var existing := owners[j];
      if existing.action == added.action {
        continue;
      }
      var collision := existing.output.path == added.output.path
        || (existing.output.kind == Directory && IsWithinDirectory(added.output.path, existing.output.path))
        || (added.output.kind == Directory && IsWithinDirectory(existing.output.path, added.output.path));
      if collision {
        diagnostics := diagnostics + [Collision(existing, added)];
      }
    }
    assert owners[..|owners|] == owners;
  }

  lemma {:induction false} NoClashesWith(owners: seq<Owner>, added: Owner)
    ensures ClashesWith(owners, added) == [] <==> forall i :: 0 <= i < |owners| ==> !Clash(owners[i], added)
  {
    if owners != [] {
      NoClashesWith(owners[..|owners| - 1], added);
    }
  }

  lemma {:induction false} NoClashes(owners: seq<Owner>)
    ensures AllClashes(owners) == [] <==> forall i, j :: 0 <= i < j < |owners| ==> !Clash(owners[i], owners[j])
  {
    if owners != [] {
      NoClashes(owners[..|owners| - 1]);
      NoClashesWith(owners[..|owners| - 1], owners[|owners| - 1]);
    }
  }

  lemma {:induction false} OwnersAre(actions: seq<Action>, o: Owner)
    ensures o in Owners(actions) <==> exists a :: a in actions && a.qualifiedName == o.action && o.output in a.outputs
  {
    if actions != [] {
      var rest, last := actions[..|actions| - 1], actions[|actions| - 1];
      OwnersAre(rest, o);
      assert actions == rest + [last];
      if last.qualifiedName == o.action && o.output in last.outputs {
        var k :| 0 <= k < |last.outputs| && last.outputs[k] == o.output;
        assert OwnersOf(last)[k] == o;
      }
    }
  }

  /** The owners come in the order of the actions and of their outputs. */
  lemma {:induction false} OwnersInOrder(before: seq<Action>, a: Action, after: seq<Action>)
    ensures |Owners([a])| == |a.outputs|
    ensures forall k :: 0 <= k < |a.outputs| ==> Owners([a])[k] == Owner(a.qualifiedName, a.outputs[k])
    ensures Owners(before + [a] + after) == Owners(before) + Owners([a]) + Owners(after)
    decreases |after|
  {
    assert Owners([a][..0]) == [];
    if after == [] {
      assert (before + [a])[..|before|] == before && before + [a] + [] == before + [a];
    } else {
      var rest, last := after[..|after| - 1], after[|after| - 1];
      var all := before + [a] + after;
      OwnersInOrder(before, a, rest);
      assert all[..|all| - 1] == before + [a] + rest && all[|all| - 1] == last;
    }
  }

  lemma ClashSymmetric(a: Owner, b: Owner)
    ensures Clash(a, b) <==> Clash(b, a)
  {
  }

  ghost predicate Disjoint(a: Action, b: Action) {
    forall p :: !(ActionClaims(a, p) && ActionClaims(b, p))
  }

  /** Nothing is reported exactly when actions with different names claim
      disjoint sets of paths. */
  lemma CollisionsExactly(actions: seq<Action>)
    ensures AllClashes(Owners(actions)) == [] <==>
            forall a, b :: a in actions && b in actions && a.qualifiedName != b.qualifiedName ==> Disjoint(a, b)
  {
    var owners := Owners(actions);
    NoClashes(owners);
    if AllClashes(owners) == [] {
      forall a, b | a in actions && b in actions && a.qualifiedName != b.qualifiedName
        ensures Disjoint(a, b)
      {
        NoneShared(actions, a, b);
      }
    } else {
      var i, j :| 0 <= i < j < |owners| && Clash(owners[i], owners[j]);
      OwnersAre(actions, owners[i]);
      OwnersAre(actions, owners[j]);
      assert owners[i] in owners && owners[j] in owners;
      var a :| a in actions && a.qualifiedName == owners[i].action && owners[i].output in a.outputs;
      var b :| b in actions && b.qualifiedName == owners[j].action && owners[j].output in b.outputs;
      CollideExactly(owners[i].output, owners[j].output);
      var p :| Claims(owners[i].output, p) && Claims(owners[j].output, p);
      assert ActionClaims(a, p) && ActionClaims(b, p);
      assert !Disjoint(a, b);
    }
  }

  lemma NoneShared(actions: seq<Action>, a: Action, b: Action)
    requires AllClashes(Owners(actions)) == []
    requires a in actions && b in actions && a.qualifiedName != b.qualifiedName
    ensures Disjoint(a, b)
  {
    var owners := Owners(actions);
    NoClashes(owners);
    forall p | ActionClaims(a, p) && ActionClaims(b, p)
      ensures false
    {
      var o :| o in a.outputs && Claims(o, p);
      var q :| q in b.outputs && Claims(q, p);
      var x, y := Owner(a.qualifiedName, o), Owner(b.qualifiedName, q);
      OwnersAre(actions, x);
      OwnersAre(actions, y);
      CollideExactly(o, q);
      var i :| 0 <= i < |owners| && owners[i] == x;
      var j :| 0 <= j < |owners| && owners[j] == y;
      ClashSymmetric(x, y);
      assert Clash(x, y);
    }
  }

  /* ---------- the reports, in order ---------- */

  // A pair of positions is before another when its second one is earlier, or that
  // is the same and its first one is earlier.
  predicate Before(x: (nat, nat), y: (nat, nat)) {
    x.1 < y.1 || (x.1 == y.1 && x.0 < y.0)
  }

  // The reports are one for each pair of clashing owners, at positions that ascend.
  ghost predicate ReportsOf(owners: seq<Owner>, reports: seq<Diagnostic>, pairs: seq<(nat, nat)>) {
    && |pairs| == |reports|
    && (forall u :: 0 <= u < |pairs| ==>
          && pairs[u].0 < pairs[u].1 < |owners|
          && reports[u] == Collision(owners[pairs[u].0], owners[pairs[u].1]))
    && (forall u, v :: 0 <= u < v < |pairs| ==> Before(pairs[u], pairs[v]))
    && (forall i, j :: 0 <= i < j < |owners| ==> ((i, j) in pairs <==> Clash(owners[i], owners[j])))
  }

  // The pairs that the owner at position n adds.
  ghost predicate NewPairs(owners: seq<Owner>, n: nat, pairs: seq<(nat, nat)>)
    requires n < |owners|
  {
    && |pairs| == |ClashesWith(owners[..n], owners[n])|
    && (forall u :: 0 <= u < |pairs| ==>
          && pairs[u].0 < n && pairs[u].1 == n && Clash(owners[pairs[u].0], owners[n])
          && ClashesWith(owners[..n], owners[n])[u] == Collision(owners[pairs[u].0], owners[n]))
    && (forall u, v :: 0 <= u < v < |pairs| ==> Before(pairs[u], pairs[v]))
    && (forall i :: 0 <= i < n && Clash(owners[i], owners[n]) ==> (i, n) in pairs)
  }

  lemma {:induction false} PairsWith(owners: seq<Owner>, n: nat) returns (pairs: seq<(nat, nat)>)
    requires n < |owners|
    ensures NewPairs(owners, n, pairs)
  {
    pairs := [];
    for m := 0 to n
      invariant |pairs| == |ClashesWith(owners[..m], owners[n])|
      invariant forall u :: 0 <= u < |pairs| ==>
        && pairs[u].0 < m && pairs[u].1 == n && Clash(owners[pairs[u].0], owners[n])
        && ClashesWith(owners[..m], owners[n])[u] == Collision(owners[pairs[u].0], owners[n])
      invariant forall u, v :: 0 <= u < v < |pairs| ==> Before(pairs[u], pairs[v])
      invariant forall i :: 0 <= i < m && Clash(owners[i], owners[n]) ==> (i, n) in pairs
    {
      assert owners[..m + 1][..m] == owners[..m];
      if Clash(owners[m], owners[n]) {
        pairs := pairs + [(m, n)];
      }
    }
  }

  lemma PairAt(owners: seq<Owner>, before: seq<(nat, nat)>, last: seq<(nat, nat)>, u: nat)
    requires owners != [] && u < |before + last|
    requires var n := |owners| - 1; ReportsOf(owners[..n], AllClashes(owners[..n]), before) && NewPairs(owners, n, last)
    ensures var x := (before + last)[u];
      && x.0 < x.1 < |owners| && (x.1 == |owners| - 1 <==> u >= |before|)
      && u < |AllClashes(owners)| && AllClashes(owners)[u] == Collision(owners[x.0], owners[x.1])
  {
    if u < |before| {
      assert (before + last)[u] == before[u];
    } else {
      assert (before + last)[u] == last[u - |before|];
    }
  }

  lemma PairsAscend(owners: seq<Owner>, before: seq<(nat, nat)>, last: seq<(nat, nat)>, u: nat, v: nat)
    requires owners != [] && u < v < |before + last|
    requires var n := |owners| - 1; ReportsOf(owners[..n], AllClashes(owners[..n]), before) && NewPairs(owners, n, last)
    ensures Before((before + last)[u], (before + last)[v])
  {
    PairAt(owners, before, last, u);
    PairAt(owners, before, last, v);
    if v < |before| {
      assert Before(before[u], before[v]);
    } else if u >= |before| {
      assert Before(last[u - |before|], last[v - |before|]);
    }
  }

  lemma AllPairs(owners: seq<Owner>, before: seq<(nat, nat)>, last: seq<(nat, nat)>, i: nat, j: nat)
    requires i < j < |owners|
    requires var n := |owners| - 1; ReportsOf(owners[..n], AllClashes(owners[..n]), before) && NewPairs(owners, n, last)
    ensures (i, j) in before + last <==> Clash(owners[i], owners[j])
  {
    var n := |owners| - 1;
    assert (i, j) in before + last <==> (i, j) in before || (i, j) in last;
    if j < n {
      assert owners[..n][i] == owners[i] && owners[..n][j] == owners[j];
    }
  }

  /** Every pair of outputs of differently named actions that claim a common path is
      reported once, the earlier output first, in the order of the later one. */
  lemma {:induction false} ReportsAre(owners: seq<Owner>) returns (pairs: seq<(nat, nat)>)
    ensures ReportsOf(owners, AllClashes(owners), pairs)
  {
    pairs := [];
    if owners != [] {
      var before := ReportsAre(owners[..|owners| - 1]);
      var last := PairsWith(owners, |owners| - 1);
      pairs := before + last;
      forall u: nat | u < |pairs|
        ensures pairs[u].0 < pairs[u].1 < |owners|
        ensures AllClashes(owners)[u] == Collision(owners[pairs[u].0], owners[pairs[u].1])
      {
        PairAt(owners, before, last, u);
      }
      forall u: nat, v: nat | u < v < |pairs|
        ensures Before(pairs[u], pairs[v])
      {
        PairsAscend(owners, before, last, u, v);
      }
      forall i: nat, j: nat | i < j < |owners|
        ensures (i, j) in pairs <==> Clash(owners[i], owners[j])
      {
        AllPairs(owners, before, last, i, j);
      }
    }
  }

  /** What a clash is: different names, and a path that both outputs claim. */
  lemma ClashExactly(a: Owner, b: Owner)
    ensures Clash(a, b) <==> a.action != b.action && exists p :: Claims(a.output, p) && Claims(b.output, p)
  {
    CollideExactly(a.output, b.output);
  }

  /* ---------- observed outputs ---------- */

  function UndeclaredOutputs(a: Action, observed: seq<Path>): seq<Diagnostic> {
    if observed == [] then []
    else
      var last := observed[|observed| - 1];
      UndeclaredOutputs(a, observed[..|observed| - 1])
      + if ActionClaims(a, last) then [] else [Undeclared(a.qualifiedName, last)]
  }

  function MissingOutputs(a: Action, outputs: seq<Output>, observed: seq<Path>): seq<Diagnostic> {
    if outputs == [] then []
    else
      var last := outputs[|outputs| - 1];
      MissingOutputs(a, outputs[..|outputs| - 1], observed)
      + if last.kind != Directory && last.path !in observed then [NotProduced(a.qualifiedName, last.path)] else []
  }

  method ValidateObservedActionOutputs(a: Action, observedOutputs: seq<Path>) returns (diagnostics: seq<Diagnostic>)
    ensures diagnostics == UndeclaredOutputs(a, observedOutputs) + MissingOutputs(a, a.outputs, observedOutputs)
  {
    diagnostics := [];
    var observed: set<Path> := {};
    for i := 0 to |observedOutputs|
      invariant diagnostics == UndeclaredOutputs(a, observedOutputs[..i])
      invariant forall p :: p in observed <==> p in observedOutputs[..i]
    {
      assert observedOutputs[..i + 1][..i] == observedOutputs[..i];
      var output := observedOutputs[i];
      observed := observed + {output};
      var declared := ActionClaims(a, output);
      if !declared {
        diagnostics := diagnostics + [Undeclared(a.qualifiedName, output)];
      }
    }
    assert observedOutputs[..|observedOutputs|] == observedOutputs;
    ghost var undeclared := diagnostics;
    for k := 0 to |a.outputs|
      invariant diagnostics == undeclared + MissingOutputs(a, a.outputs[..k], observedOutputs)
    {
      assert a.outputs[..k + 1][..k] == a.outputs[..k];
      var declared := a.outputs[k];
      if declared.kind != Directory && declared.path !in observed {
        diagnostics := diagnostics + [NotProduced(a.qualifiedName, declared.path)];
      }
    }
    assert a.outputs[..|a.outputs|] == a.outputs;
  }

  // The observed outputs are declared, and every declared file was produced.
  ghost predicate Produced(a: Action, observed: seq<Path>) {
    && (forall p :: p in observed ==> ActionClaims(a, p))
    && (forall o :: o in a.outputs && o.kind != Directory ==> o.path in observed)
  }

  lemma {:induction false} ObservedExactly(a: Action, observed: seq<Path>)
    ensures UndeclaredOutputs(a, observed) + MissingOutputs(a, a.outputs, observed) == [] <==> Produced(a, observed)
  {
    NoUndeclared(a, observed);
    NoneMissing(a, a.outputs, observed);
    assert |UndeclaredOutputs(a, observed) + MissingOutputs(a, a.outputs, observed)| ==
           |UndeclaredOutputs(a, observed)| + |MissingOutputs(a, a.outputs, observed)|;
  }

  lemma {:induction false} NoUndeclared(a: Action, observed: seq<Path>)
    ensures UndeclaredOutputs(a, observed) == [] <==> forall p :: p in observed ==> ActionClaims(a, p)
  {
    if observed != [] {
      NoUndeclared(a, observed[..|observed| - 1]);
      assert observed == observed[..|observed| - 1] + [observed[|observed| - 1]];
    }
  }

  lemma {:induction false} NoneMissing(a: Action, outputs: seq<Output>, observed: seq<Path>)
    ensures MissingOutputs(a, outputs, observed) == [] <==>
            forall o :: o in outputs && o.kind != Directory ==> o.path in observed
  {
    if outputs != [] {
      NoneMissing(a, outputs[..|outputs| - 1], observed);
      assert outputs == outputs[..|outputs| - 1] + [outputs[|outputs| - 1]];
    }
  }

  // The items that are kept, in order.
  function Kept<T>(items: seq<T>, keep: T -> bool): seq<T> {
    if items == [] then [] else (if keep(items[0]) then [items[0]] else []) + Kept(items[1..], keep)
  }

  lemma {:induction false} KeptAppend<T>(items: seq<T>, last: T, keep: T -> bool)
    ensures Kept(items + [last], keep) == Kept(items, keep) + if keep(last) then [last] else []
  {
    if items != [] {
      assert (items + [last])[1..] == items[1..] + [last];
      KeptAppend(items[1..], last, keep);
    } else {
      assert (items + [last])[1..] == [];
    }
  }

  /** The observed paths that no output claims are reported, in order, and then the
      declared files that were not observed. */
  lemma {:induction false} UndeclaredAre(a: Action, observed: seq<Path>)
    ensures var extra := Kept(observed, (p: Path) => !exists o :: o in a.outputs && Claims(o, p));
      && |UndeclaredOutputs(a, observed)| == |extra|
      && forall k :: 0 <= k < |extra| ==> UndeclaredOutputs(a, observed)[k] == Undeclared(a.qualifiedName, extra[k])
  {
    if observed != [] {
      var before, last := observed[..|observed| - 1], observed[|observed| - 1];
      UndeclaredAre(a, before);
      KeptAppend(before, last, (p: Path) => !exists o :: o in a.outputs && Claims(o, p));
      assert observed == before + [last];
    }
  }

  lemma {:induction false} MissingAre(a: Action, outputs: seq<Output>, observed: seq<Path>)
    ensures var absent := Kept(outputs, (o: Output) => o.kind != Directory && o.path !in observed);
      && |MissingOutputs(a, outputs, observed)| == |absent|
      && forall k :: 0 <= k < |absent| ==>
           MissingOutputs(a, outputs, observed)[k] == NotProduced(a.qualifiedName, absent[k].path)
  {
    if outputs != [] {
      var before, last := outputs[..|outputs| - 1], outputs[|outputs| - 1];
      MissingAre(a, before, observed);
      KeptAppend(before, last, (o: Output) => o.kind != Directory && o.path !in observed);
      assert outputs == before + [last];
    }
  }

  /** Actions of different names that pass both checks never produced a common path. */
  lemma NoCommonOutput(actions: seq<Action>, a: Action, b: Action, inA: seq<Path>, inB: seq<Path>, p: Path)
    requires AllClashes(Owners(actions)) == []
    requires a in actions && b in actions && a.qualifiedName != b.qualifiedName
    requires UndeclaredOutputs(a, inA) == [] && UndeclaredOutputs(b, inB) == []
    ensures !(p in inA && p in inB)
  {
    NoneShared(actions, a, b);
    NoUndeclared(a, inA);
    NoUndeclared(b, inB);
  }
}
