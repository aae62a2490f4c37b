/**
 The binding loop of DeriveCMakePlans: bindings that share a source with the
 same cache inputs share the plan of the first of them, their representative.
 */
module SourceCollapse {
  import opened Common
  import opened CMakeAdapter
  import Canonical

  datatype Binding = Binding(packageInstance: string, source: string, cache: seq<CacheBinding>)

  // The bindings at fault, by position.
  datatype Diagnostic =
    | DuplicateInstance(index: nat)
    | IncompatibleCache(index: nat)

  /* ---------- cache signatures ---------- */

  function CacheValue(c: CacheBinding): Canonical.CanonicalValue {
    Canonical.Object([
      Canonical.Entry("artifact", Canonical.Boolean(c.artifact)),
      Canonical.Entry("name", Canonical.Text(c.name)),
      Canonical.Entry("type", Canonical.Text(c.kind)),
      Canonical.Entry("value", Canonical.Text(c.value))])
  }

  function CacheValues(cache: seq<CacheBinding>): (r: seq<Canonical.CanonicalValue>)
    ensures |r| == |cache| && forall i :: 0 <= i < |cache| ==> r[i] == CacheValue(cache[i])
  {
    seq(|cache|, i requires 0 <= i < |cache| => CacheValue(cache[i]))
  }

  function CacheSignature(b: Binding): string {
    Canonical.SerializeCanonical(Canonical.Array(CacheValues(b.cache)))
  }

  lemma CacheValueInjective(c: CacheBinding, d: CacheBinding)
    requires CacheValue(c) == CacheValue(d)
    ensures c == d
  {
    assert CacheValue(c).entries[0] == CacheValue(d).entries[0];
    assert CacheValue(c).entries[1] == CacheValue(d).entries[1];
    assert CacheValue(c).entries[2] == CacheValue(d).entries[2];
    assert CacheValue(c).entries[3] == CacheValue(d).entries[3];
  }

  /** Signatures agree exactly when the cache inputs do. */
  lemma CacheSignatureExact(a: Binding, b: Binding)
    ensures CacheSignature(a) == CacheSignature(b) <==> a.cache == b.cache
  {
    var v, w := CacheValues(a.cache), CacheValues(b.cache);
    Canonical.SerializeInjective(Canonical.Array(v), Canonical.Array(w));
    if v == w {
      forall i | 0 <= i < |v|
        ensures a.cache[i] == b.cache[i]
      {
        assert v[i] == w[i];
        CacheValueInjective(a.cache[i], b.cache[i]);
      }
    }
  }

  /** What a cache input contributes to the signature: an object whose text holds
      these four entries, in this order. */
  lemma CacheValueIs(c: CacheBinding)
    ensures CacheValue(c).Object? && |CacheValue(c).entries| == 4
    ensures var entries := CacheValue(c).entries;
      && entries[0].key == "artifact" && entries[0].value == Canonical.Boolean(c.artifact)
      && entries[1].key == "name" && entries[1].value == Canonical.Text(c.name)
      && entries[2].key == "type" && entries[2].value == Canonical.Text(c.kind)
      && entries[3].key == "value" && entries[3].value == Canonical.Text(c.value)
  {
  }

  /* ---------- representatives ---------- */

  // The first binding with the source of binding i.
  function Origin(bs: seq<Binding>, i: nat): (r: nat)
    requires i < |bs|
    ensures r <= i && bs[r].source == bs[i].source
    ensures forall j :: 0 <= j < r ==> bs[j].source != bs[i].source
  {
    FirstWith(bs, bs[i].source, i)
  }

  function FirstWith(bs: seq<Binding>, source: string, last: nat): (r: nat)
    requires last < |bs| && bs[last].source == source
    ensures r <= last && bs[r].source == source
    ensures forall j :: 0 <= j < r ==> bs[j].source != source
    decreases |bs|
  {
    if bs[0].source == source then 0 else 1 + FirstWith(bs[1..], source, last - 1)
  }

  // Binding i reuses the plan of an earlier one.
  predicate Reuses(bs: seq<Binding>, i: nat)
    requires i < |bs|
  {
    bs[i].source != "" && Origin(bs, i) < i && bs[i].cache == bs[Origin(bs, i)].cache
  }

  predicate Clashes(bs: seq<Binding>, i: nat)
    requires i < |bs|
  {
    bs[i].source != "" && bs[i].cache != bs[Origin(bs, i)].cache
  }

  function Representative(bs: seq<Binding>, i: nat): string
    requires i < |bs|
  {
    if Reuses(bs, i) then bs[Origin(bs, i)].packageInstance else bs[i].packageInstance
  }

  predicate Repeated(bs: seq<Binding>, i: nat)
    requires i < |bs|
  {
    exists j :: 0 <= j < i && bs[j].packageInstance == bs[i].packageInstance
  }

  function PlanOf(b: Binding): PackagePlan {
    PackagePlan(b.packageInstance, b.source, b.cache)
  }

  // The plans of the first n bindings, in order.
  function Plans(bs: seq<Binding>, n: nat): seq<PackagePlan>
    requires n <= |bs|
  {
    if n == 0 then []
    else Plans(bs, n - 1) + if Reuses(bs, n - 1) then [] else [PlanOf(bs[n - 1])]
  }

  function Diagnostics(bs: seq<Binding>, n: nat): seq<Diagnostic>
    requires n <= |bs|
  {
    if n == 0 then []
    else
      Diagnostics(bs, n - 1)
      + (if Repeated(bs, n - 1) then [DuplicateInstance(n - 1)] else [])
      + (if Clashes(bs, n - 1) then [IncompatibleCache(n - 1)] else [])
  }

  /** A binding is reported for its instance's name exactly when an earlier one has it,
      and for its cache exactly when the first one with its source has another. */
  lemma {:induction false} DiagnosticsSay(bs: seq<Binding>, n: nat, d: Diagnostic)
    requires n <= |bs|
    ensures d in Diagnostics(bs, n) <==>
            d.index < n &&
            match d
            case DuplicateInstance(i) => exists j :: 0 <= j < i && bs[j].packageInstance == bs[i].packageInstance
            case IncompatibleCache(i) =>
              bs[i].source != "" &&
              exists j :: 0 <= j < i && bs[j].source == bs[i].source && bs[j].cache != bs[i].cache &&
                          forall k :: 0 <= k < j ==> bs[k].source != bs[i].source
  {
    if n > 0 {
      DiagnosticsSay(bs, n - 1, d);
      var first := Origin(bs, n - 1);
    }
  }

  // The tables agree with the first n bindings; firsts holds the first position of each source.
  ghost predicate Recorded(bs: seq<Binding>, n: nat, inputs: map<string, string>, origins: map<string, string>,
                           firsts: map<string, nat>)
    requires n <= |bs|
  {
    forall o {:trigger Opened(o)} :: Opened(o) ==>
      && inputs.Keys == origins.Keys == firsts.Keys
      && (forall s :: s in firsts ==> s != "" && firsts[s] < n && IsFirst(bs, s, firsts[s])
                                      && origins[s] == bs[firsts[s]].packageInstance
                                      && inputs[s] == CacheSignature(bs[firsts[s]]))
      && (forall i :: 0 <= i < n && bs[i].source != "" ==> bs[i].source in firsts)
  }

  ghost predicate IsFirst(bs: seq<Binding>, source: string, i: nat)
    requires i < |bs|
  {
    bs[i].source == source && forall j :: 0 <= j < i ==> bs[j].source != source
  }

  // Each instance maps to the representative of its last binding.
  ghost predicate RepresentativesOf(bs: seq<Binding>, n: nat, representatives: map<string, string>)
    requires n <= |bs|
  {
    && (forall x :: x in representatives ==> exists i :: 0 <= i < n && bs[i].packageInstance == x)
    && (forall i :: 0 <= i < n ==>
          && bs[i].packageInstance in representatives
          && ((forall j :: i < j < n ==> bs[j].packageInstance != bs[i].packageInstance) ==>
                representatives[bs[i].packageInstance] == Representative(bs, i)))
  }

  ghost predicate Represented(bs: seq<Binding>, n: nat, representatives: map<string, string>)
    requires n <= |bs|
  {
    forall o {:trigger Opened(o)} :: Opened(o) ==> RepresentativesOf(bs, n, representatives)
  }

  // The instances of the first n bindings.
  ghost predicate Known(bs: seq<Binding>, n: nat, instances: set<string>)
    requires n <= |bs|
  {
    forall o {:trigger Opened(o)} :: Opened(o) ==>
      forall x :: x in instances <==> exists j :: 0 <= j < n && bs[j].packageInstance == x
  }

  lemma KnowOne(bs: seq<Binding>, i: nat, instances: set<string>)
    requires i < |bs| && Known(bs, i, instances)
    ensures bs[i].packageInstance in instances <==> Repeated(bs, i)
    ensures Known(bs, i + 1, instances + {bs[i].packageInstance})
  {
    assert Opened(Seal);
  }

  method CollapseSources(bs: seq<Binding>)
      returns (representatives: map<string, string>, plans: seq<PackagePlan>, diagnostics: seq<Diagnostic>)
    ensures RepresentativesOf(bs, |bs|, representatives)
    ensures plans == Plans(bs, |bs|)
    ensures diagnostics == Diagnostics(bs, |bs|)
  {
    var sourceInputs: map<string, string> := map[];
    var sourceRepresentatives: map<string, string> := map[];
    var byInstance: set<string> := {};
    representatives, plans, diagnostics := map[], [], [];
    ghost var firsts: map<string, nat> := map[];
    assert Recorded(bs, 0, sourceInputs, sourceRepresentatives, firsts) && Represented(bs, 0, representatives);
    assert Known(bs, 0, byInstance) && Collected(bs, 0, plans, diagnostics);
    for i := 0 to |bs|
      invariant Recorded(bs, i, sourceInputs, sourceRepresentatives, firsts)
      invariant Represented(bs, i, representatives)
      invariant Collected(bs, i, plans, diagnostics)
      invariant Known(bs, i, byInstance)
    {
      var b := bs[i];
      SeenBefore(bs, i, sourceInputs, sourceRepresentatives, firsts);
      RepresentOne(bs, i, sourceInputs, sourceRepresentatives, firsts, representatives);
      CollectOne(bs, i, sourceInputs, sourceRepresentatives, firsts, byInstance, plans, diagnostics);
      KnowOne(bs, i, byInstance);
      ghost var fits, repeated := Fits(b, sourceInputs), b.packageInstance in byInstance;
      ghost var soFar := if repeated then diagnostics + [DuplicateInstance(i)] else diagnostics;
      ghost var nextDiagnostics := if Seen(b, sourceInputs) && !fits then soFar + [IncompatibleCache(i)] else soFar;
      ghost var nextPlans := if fits then plans else plans + [PlanOf(b)];
      ghost var chosen := if fits then sourceRepresentatives[b.source] else b.packageInstance;
      if b.packageInstance in byInstance {
        diagnostics := diagnostics + [DuplicateInstance(i)];
      }
      byInstance := byInstance + {b.packageInstance};
      var addPackagePlan := true;
      var representative := b.packageInstance;
      if b.source != "" {
        var signature := CacheSignature(b);
        if b.source in sourceInputs && sourceInputs[b.source] != signature {
          diagnostics := diagnostics + [IncompatibleCache(i)];
        } else if b.source in sourceInputs {
          addPackagePlan := false;
          representative := sourceRepresentatives[b.source];
        } else {
          sourceInputs := sourceInputs[b.source := signature];
          sourceRepresentatives := sourceRepresentatives[b.source := b.packageInstance];
          firsts := firsts[b.source := i];
        }
      }
      representatives := representatives[b.packageInstance := representative];
      if addPackagePlan {
        plans := plans + [PlanOf(b)];
      }
      assert plans == nextPlans && diagnostics == nextDiagnostics && representative == chosen;
    }
    AllRepresented(bs, representatives);
    AllCollected(bs, plans, diagnostics);
  }

  lemma AllRepresented(bs: seq<Binding>, representatives: map<string, string>)
    requires Represented(bs, |bs|, representatives)
    ensures RepresentativesOf(bs, |bs|, representatives)
  {
    assert Opened(Seal);
  }

  // An earlier binding recorded b's source; with the signature of b's own cache.
  predicate Seen(b: Binding, inputs: map<string, string>) {
    b.source != "" && b.source in inputs
  }

  predicate Fits(b: Binding, inputs: map<string, string>) {
    Seen(b, inputs) && inputs[b.source] == CacheSignature(b)
  }

  // Binding i meets the tables of the bindings before it.
  lemma MeetsTables(bs: seq<Binding>, i: nat, inputs: map<string, string>, origins: map<string, string>,
                    firsts: map<string, nat>)
    requires i < |bs| && Recorded(bs, i, inputs, origins, firsts)
    ensures Fits(bs[i], inputs) <==> Reuses(bs, i)
    ensures Seen(bs[i], inputs) && !Fits(bs[i], inputs) <==> Clashes(bs, i)
    ensures Seen(bs[i], inputs) ==> bs[i].source in origins
    ensures Reuses(bs, i) ==> origins[bs[i].source] == Representative(bs, i)
  {
    assert Opened(Seal);
    var b, o := bs[i], Origin(bs, i);
    CacheSignatureExact(b, bs[o]);
    if b.source != "" {
      assert b.source in firsts <==> o < i;
      assert b.source in firsts ==> firsts[b.source] == o;
    }
  }

  lemma SeenBefore(bs: seq<Binding>, i: nat, inputs: map<string, string>, origins: map<string, string>,
                   firsts: map<string, nat>)
    requires i < |bs| && Recorded(bs, i, inputs, origins, firsts)
    ensures var b := bs[i];
      && (Seen(b, inputs) ==> b.source in origins)
      && (if Seen(b, inputs) || b.source == "" then Recorded(bs, i + 1, inputs, origins, firsts)
          else Recorded(bs, i + 1, inputs[b.source := CacheSignature(b)],
                        origins[b.source := b.packageInstance], firsts[b.source := i]))
  {
    assert Opened(Seal);
  }

  lemma RepresentOne(bs: seq<Binding>, i: nat, inputs: map<string, string>, origins: map<string, string>,
                     firsts: map<string, nat>, representatives: map<string, string>)
    requires i < |bs| && Recorded(bs, i, inputs, origins, firsts) && Represented(bs, i, representatives)
    requires Seen(bs[i], inputs) ==> bs[i].source in origins
    ensures var b := bs[i];
      Represented(bs, i + 1, representatives[b.packageInstance :=
                if Fits(b, inputs) then origins[b.source] else b.packageInstance])
  {
    MeetsTables(bs, i, inputs, origins, firsts);
    RepresentAs(bs, i, representatives);
  }

  lemma RepresentAs(bs: seq<Binding>, i: nat, representatives: map<string, string>)
    requires i < |bs| && Represented(bs, i, representatives)
    ensures Represented(bs, i + 1, representatives[bs[i].packageInstance := Representative(bs, i)])
  {
    assert Opened(Seal);
  }

  lemma CollectOne(bs: seq<Binding>, i: nat, inputs: map<string, string>, origins: map<string, string>,
                   firsts: map<string, nat>, instances: set<string>,
                   plans: seq<PackagePlan>, diagnostics: seq<Diagnostic>)
    requires i < |bs| && Recorded(bs, i, inputs, origins, firsts)
    requires Known(bs, i, instances) && Collected(bs, i, plans, diagnostics)
    ensures var b := bs[i];
      var repeated := if b.packageInstance in instances then diagnostics + [DuplicateInstance(i)] else diagnostics;
      Collected(bs, i + 1, if Fits(b, inputs) then plans else plans + [PlanOf(b)],
                if Seen(b, inputs) && !Fits(b, inputs) then repeated + [IncompatibleCache(i)] else repeated)
  {
    MeetsTables(bs, i, inputs, origins, firsts);
    KnowOne(bs, i, instances);
    assert Opened(Seal);
  }

  ghost predicate Collected(bs: seq<Binding>, n: nat, plans: seq<PackagePlan>, diagnostics: seq<Diagnostic>)
    requires n <= |bs|
  {
    forall o {:trigger Opened(o)} :: Opened(o) ==> plans == Plans(bs, n) && diagnostics == Diagnostics(bs, n)
  }

  lemma AllCollected(bs: seq<Binding>, plans: seq<PackagePlan>, diagnostics: seq<Diagnostic>)
    requires Collected(bs, |bs|, plans, diagnostics)
    ensures plans == Plans(bs, |bs|) && diagnostics == Diagnostics(bs, |bs|)
  {
    assert Opened(Seal);
  }

  /* ---------- what a run without diagnostics means ---------- */

  lemma {:induction false} NoDiagnostics(bs: seq<Binding>, n: nat)
    requires n <= |bs|
    ensures Diagnostics(bs, n) == [] <==> forall i :: 0 <= i < n ==> !Repeated(bs, i) && !Clashes(bs, i)
  {
    if n > 0 {
      NoDiagnostics(bs, n - 1);
    }
  }

  lemma {:induction false} PlanNames(bs: seq<Binding>, n: nat, x: string)
    requires n <= |bs|
    ensures x in Names(Plans(bs, n)) <==>
            exists i :: 0 <= i < n && !Reuses(bs, i) && bs[i].packageInstance == x
  {
    if n > 0 {
      PlanNames(bs, n - 1, x);
      var rest := Plans(bs, n - 1);
      if !Reuses(bs, n - 1) {
        assert Names(Plans(bs, n)) == Names(rest) + [bs[n - 1].packageInstance];
      } else {
        assert Plans(bs, n) == rest;
      }
    }
  }

  lemma {:induction false} PlansDistinct(bs: seq<Binding>, n: nat)
    requires n <= |bs| && forall i :: 0 <= i < n ==> !Repeated(bs, i)
    ensures Distinct(Names(Plans(bs, n)))
  {
    if n > 0 {
      PlansDistinct(bs, n - 1);
      var rest := Plans(bs, n - 1);
      PlanNames(bs, n - 1, bs[n - 1].packageInstance);
      assert !Repeated(bs, n - 1);
      if !Reuses(bs, n - 1) {
        assert Names(Plans(bs, n)) == Names(rest) + [bs[n - 1].packageInstance];
        assert forall k :: 0 <= k < |rest| ==> Names(rest)[k] in Names(rest);
      } else {
        assert Plans(bs, n) == rest;
      }
    }
  }

  // Without repetitions every binding keeps its own representative.
  lemma KeepsItsRepresentative(bs: seq<Binding>, representatives: map<string, string>, i: nat)
    requires RepresentativesOf(bs, |bs|, representatives) && i < |bs|
    requires forall k :: 0 <= k < |bs| ==> !Repeated(bs, k)
    ensures bs[i].packageInstance in representatives
    ensures representatives[bs[i].packageInstance] == Representative(bs, i)
  {
    forall j | i < j < |bs|
      ensures bs[j].packageInstance != bs[i].packageInstance
    {
      assert !Repeated(bs, j);
    }
  }

  /**
   Without diagnostics, two bindings have the same representative exactly when
   they are the same or share a non-empty source; representatives represent
   themselves, and the plans are exactly the representatives, once each.
   */
  lemma CollapseMeans(bs: seq<Binding>, representatives: map<string, string>)
    requires RepresentativesOf(bs, |bs|, representatives) && Diagnostics(bs, |bs|) == []
    ensures forall i, j :: 0 <= i < |bs| && 0 <= j < |bs| ==>
              && bs[i].packageInstance in representatives && bs[j].packageInstance in representatives
              && (representatives[bs[i].packageInstance] == representatives[bs[j].packageInstance] <==>
                    i == j || (bs[i].source == bs[j].source && bs[i].source != ""))
    ensures forall x :: x in representatives ==>
              representatives[x] in representatives && representatives[representatives[x]] == representatives[x]
    ensures Distinct(Names(Plans(bs, |bs|)))
    ensures forall x :: x in Names(Plans(bs, |bs|)) <==> x in representatives && representatives[x] == x
  {
    NoDiagnostics(bs, |bs|);
    PlansDistinct(bs, |bs|);
    forall i, j | 0 <= i < |bs| && 0 <= j < |bs|
      ensures bs[i].packageInstance in representatives && bs[j].packageInstance in representatives
      ensures representatives[bs[i].packageInstance] == representatives[bs[j].packageInstance] <==>
              i == j || (bs[i].source == bs[j].source && bs[i].source != "")
    {
      SameRepresentative(bs, representatives, i, j);
    }
    forall x | x in representatives
      ensures representatives[x] in representatives && representatives[representatives[x]] == representatives[x]
    {
      RepresentsItself(bs, representatives, x);
    }
    forall x
      ensures x in Names(Plans(bs, |bs|)) <==> x in representatives && representatives[x] == x
    {
      PlansAreRepresentatives(bs, representatives, x);
    }
  }

  lemma RepresentsItself(bs: seq<Binding>, representatives: map<string, string>, x: string)
    requires RepresentativesOf(bs, |bs|, representatives) && x in representatives
    requires forall k :: 0 <= k < |bs| ==> !Repeated(bs, k)
    ensures representatives[x] in representatives && representatives[representatives[x]] == representatives[x]
  {
    var i :| 0 <= i < |bs| && bs[i].packageInstance == x;
    KeepsItsRepresentative(bs, representatives, i);
    KeepsItsRepresentative(bs, representatives, Source(bs, i));
  }

  lemma PlansAreRepresentatives(bs: seq<Binding>, representatives: map<string, string>, x: string)
    requires RepresentativesOf(bs, |bs|, representatives)
    requires forall k :: 0 <= k < |bs| ==> !Repeated(bs, k)
    ensures x in Names(Plans(bs, |bs|)) <==> x in representatives && representatives[x] == x
  {
    PlanNames(bs, |bs|, x);
    if x in representatives {
      var i :| 0 <= i < |bs| && bs[i].packageInstance == x;
      KeepsItsRepresentative(bs, representatives, i);
      OnlyBinding(bs, i);
      assert Source(bs, i) == i || Reuses(bs, i);
    }
  }

  lemma OnlyBinding(bs: seq<Binding>, i: nat)
    requires i < |bs| && forall k :: 0 <= k < |bs| ==> !Repeated(bs, k)
    ensures forall k :: 0 <= k < |bs| && bs[k].packageInstance == bs[i].packageInstance ==> k == i
  {
    forall k | 0 <= k < |bs| && bs[k].packageInstance == bs[i].packageInstance
      ensures k == i
    {
      assert !Repeated(bs, k) && !Repeated(bs, i);
    }
  }

  // The binding whose instance represents binding i.
  function Source(bs: seq<Binding>, i: nat): (r: nat)
    requires i < |bs|
    ensures r < |bs| && bs[r].packageInstance == Representative(bs, i) && !Reuses(bs, r)
    ensures r <= i && (r < i ==> Reuses(bs, i))
  {
    if Reuses(bs, i) then Origin(bs, i) else i
  }

  lemma SameRepresentative(bs: seq<Binding>, representatives: map<string, string>, i: nat, j: nat)
    requires RepresentativesOf(bs, |bs|, representatives) && i < |bs| && j < |bs|
    requires forall k :: 0 <= k < |bs| ==> !Repeated(bs, k) && !Clashes(bs, k)
    ensures bs[i].packageInstance in representatives && bs[j].packageInstance in representatives
    ensures representatives[bs[i].packageInstance] == representatives[bs[j].packageInstance] <==>
            i == j || (bs[i].source == bs[j].source && bs[i].source != "")
  {
    KeepsItsRepresentative(bs, representatives, i);
    KeepsItsRepresentative(bs, representatives, j);
    assert !Clashes(bs, i) && !Clashes(bs, j);
    var p, q := Source(bs, i), Source(bs, j);
    assert !Repeated(bs, p) && !Repeated(bs, q);
    assert bs[p].packageInstance == bs[q].packageInstance <==> p == q;
    if bs[i].source == bs[j].source && bs[i].source != "" {
      assert Origin(bs, i) == Origin(bs, j);
    }
  }
}
