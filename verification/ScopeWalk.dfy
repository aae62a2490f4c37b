/**
 Which type definitions a walk over a token range comes across, as a function of
 the tokens: the reference the scanner is proved against.
 */
module ScopeWalk {
  import opened Common
  import opened Tokenizer
  import opened TokenRanges

  // A type definition with a body, and the annotations that apply to it.
  datatype Sighting = Sighting(
    name: string,
    annotations: seq<Annotation>,
    openTemplate: bool,
    isEnum: bool,
    isStruct: bool,
    bodyBegin: nat,
    bodyEnd: nat)

  /* ---------- names and scopes ---------- */

  predicate InScope(scope: string, name: string) {
    scope == "" || scope + "::" <= name
  }

  function Qualified(scope: string, name: string): string {
    if scope == "" then name else scope + "::" + name
  }

  lemma NestedScope(scope: string, name: string, inner: string)
    requires InScope(Qualified(scope, name), inner)
    ensures InScope(scope, inner)
  {
    if scope != "" {
      var q := Qualified(scope, name);
      assert scope + "::" <= q && q <= q + "::" <= inner;
    }
  }

  /* ---------- the pieces of a declaration ---------- */

  // Token i is the `template` that a keyword at most 256 tokens later belongs to.
  predicate TemplateAt(tokens: seq<Token>, i: nat, keywordIndex: nat)
    requires i < keywordIndex <= |tokens|
  {
    && keywordIndex - i <= 256 && tokens[i].text == "template"
    && forall k :: i < k < keywordIndex ==> tokens[k].text !in {";", "{", "}", "template"}
  }

  predicate FollowsTemplate(tokens: seq<Token>, keywordIndex: nat)
    requires keywordIndex <= |tokens|
  {
    exists i :: 0 <= i < keywordIndex && TemplateAt(tokens, i, keywordIndex)
  }

  predicate IsTypeKeyword(text: string) {
    text == "class" || text == "struct" || text == "enum"
  }

  // The first token at or after k with one of the texts.
  function Stop(tokens: seq<Token>, k: nat, end: nat, texts: set<string>): (r: nat)
    requires k <= end <= |tokens|
    ensures k <= r <= end && (r < end ==> tokens[r].text in texts)
    ensures forall i :: k <= i < r ==> tokens[i].text !in texts
    decreases end - k
  {
    if k < end && tokens[k].text !in texts then Stop(tokens, k + 1, end, texts) else k
  }

  const HEAD_STOPS: set<string> := {"{", ";"}
  const NAMESPACE_STOPS: set<string> := {"{", ";", "="}

  // `enum class` and `enum struct` have a second keyword.
  function AfterEnumKey(tokens: seq<Token>, start: nat, end: nat, isEnum: bool): (r: nat)
    requires start <= end <= |tokens|
    ensures start <= r <= end
  {
    if isEnum && start < end && (tokens[start].text == "class" || tokens[start].text == "struct") then start + 1
    else start
  }

  // The annotations after the keyword, the position of the name, and where the head ends.
  ghost function Head(tokens: seq<Token>, start: nat, end: nat, isEnum: bool, payload: string -> Payload)
      : (r: (seq<Annotation>, nat, nat))
    requires start <= end <= |tokens|
    ensures start <= r.1 <= r.2 <= end
    ensures r.1 < end && tokens[r.1].identifier ==> r.1 < r.2
  {
    var s := AfterEnumKey(tokens, start, end, isEnum);
    var (annotations, name) := AnnotationsFrom(tokens, s, end, payload);
    if name >= end || !tokens[name].identifier then (annotations, name, name)
    else (annotations, name, Stop(tokens, name + 1, end, HEAD_STOPS))
  }

  // The name a namespace declaration spells between two positions.
  function NamespaceText(tokens: seq<Token>, start: nat, end: nat): string
    requires start <= end <= |tokens|
    decreases end - start
  {
    if start == end then ""
    else
      NamespaceText(tokens, start, end - 1) +
      if tokens[end - 1].identifier || tokens[end - 1].text == "::" then tokens[end - 1].text else ""
  }

  /* ---------- the walk ---------- */

  // The definition at a type keyword, if it has a body, and where the walk goes on.
  ghost function Definition(tokens: seq<Token>, payload: string -> Payload, keywordIndex: nat,
                            pending: seq<Annotation>, end: nat, scope: string, template: bool)
      : (r: (Option<Sighting>, nat))
    requires keywordIndex < end <= |tokens|
    ensures keywordIndex < r.1 <= end
    ensures r.0.Some? ==> keywordIndex < r.0.value.bodyBegin <= r.0.value.bodyEnd < end
  {
    var keyword := tokens[keywordIndex].text;
    var (after, name, cursor) := Head(tokens, keywordIndex + 1, end, keyword == "enum", payload);
    if name >= end || !tokens[name].identifier then (None, keywordIndex + 1)
    else if cursor >= end || tokens[cursor].text != "{" then (None, cursor)
    else
      var bodyEnd := Matching(tokens, "{", "}", cursor, end);
      if bodyEnd == end then (None, end)
      else
        (Some(Sighting(Qualified(scope, tokens[name].text), pending + after,
                       template || FollowsTemplate(tokens, keywordIndex), keyword == "enum", keyword == "struct",
                       cursor + 1, bodyEnd)),
         bodyEnd + 1)
  }

  // The definition at a type keyword, everything inside it, and where the walk goes on.
  ghost function TypeAt(tokens: seq<Token>, payload: string -> Payload, keywordIndex: nat, pending: seq<Annotation>,
                        end: nat, scope: string, template: bool): (r: (seq<Sighting>, nat))
    requires keywordIndex < end <= |tokens|
    ensures keywordIndex < r.1 <= end
    decreases end - keywordIndex, 0
  {
    var (s, next) := Definition(tokens, payload, keywordIndex, pending, end, scope, template);
    (if s.None? then []
     else [s.value] + Walk(tokens, payload, s.value.bodyBegin, s.value.bodyEnd, s.value.name, [], false), next)
  }

  // What is seen from a cursor on, with the annotations and the template that are pending.
  ghost function Walk(tokens: seq<Token>, payload: string -> Payload, cursor: nat, end: nat, scope: string,
                      pending: seq<Annotation>, template: bool): seq<Sighting>
    requires end <= |tokens|
    decreases if cursor < end then end - cursor else 0, 1
  {
    if cursor >= end then []
    else
      var text := tokens[cursor].text;
      if text == "template" && cursor + 1 < end && tokens[cursor + 1].text == "<" then
        var close := TemplateEnd(tokens, cursor + 1, cursor + 1, end);
        Walk(tokens, payload, if close == end then end else close + 1, end, scope, pending, true)
      else
        var annotation := AnnotationAt(tokens, cursor, end, payload);
        if annotation.Some? then
          Walk(tokens, payload, annotation.value.next, end, scope, pending + [annotation.value.annotation], template)
        else if OpensNamespace(tokens, cursor, end) then
          var brace := Stop(tokens, cursor + 1, end, NAMESPACE_STOPS);
          var close := Matching(tokens, "{", "}", brace, end);
          var name := NamespaceText(tokens, cursor + 1, brace);
          Walk(tokens, payload, brace + 1, close, if name == "" then scope else Qualified(scope, name), [], false)
          + Walk(tokens, payload, close + 1, end, scope, [], template)
        else if IsTypeKeyword(text) then
          var (seen, next) := TypeAt(tokens, payload, cursor, pending, end, scope, template);
          seen + Walk(tokens, payload, next, end, scope, [], false)
        else if text == ";" || text == "}" then Walk(tokens, payload, cursor + 1, end, scope, [], false)
        else Walk(tokens, payload, cursor + 1, end, scope, pending, template)
  }

  predicate OpensNamespace(tokens: seq<Token>, cursor: nat, end: nat)
    requires cursor < end <= |tokens|
  {
    tokens[cursor].text == "namespace" &&
    var brace := Stop(tokens, cursor + 1, end, NAMESPACE_STOPS);
    brace < end && tokens[brace].text == "{"
  }

  /* ---------- what every walk satisfies ---------- */

  // The sighting's body lies in the range, and its name in the scope.
  predicate Within(s: Sighting, begin: nat, end: nat, scope: string) {
    begin <= s.bodyBegin <= s.bodyEnd < end && InScope(scope, s.name)
  }

  ghost predicate AllWithin(ss: seq<Sighting>, begin: nat, end: nat, scope: string) {
    forall s :: s in ss ==> Within(s, begin, end, scope)
  }

  // A later body begins after an earlier one has ended, or lies inside it.
  predicate AfterOrInside(s: Sighting, t: Sighting) {
    s.bodyEnd < t.bodyBegin || (s.bodyBegin <= t.bodyBegin && t.bodyEnd < s.bodyEnd)
  }

  ghost predicate Laminar(ss: seq<Sighting>) {
    forall i, j :: 0 <= i < j < |ss| ==> AfterOrInside(ss[i], ss[j])
  }

  // Both, sealed.
  ghost predicate Nested(ss: seq<Sighting>, begin: nat, end: nat, scope: string) {
    forall o {:trigger Opened(o)} :: Opened(o) ==> Laminar(ss) && AllWithin(ss, begin, end, scope)
  }

  lemma NestedNone(begin: nat, end: nat, scope: string)
    ensures Nested([], begin, end, scope)
  {
  }

  lemma NestedWider(ss: seq<Sighting>, begin: nat, end: nat, scope: string, wider: nat, limit: nat)
    requires Nested(ss, begin, end, scope) && wider <= begin && end <= limit
    ensures Nested(ss, wider, limit, scope)
  {
    assert Opened(Seal);
  }

  lemma NestedOuter(ss: seq<Sighting>, begin: nat, end: nat, scope: string, name: string)
    requires Nested(ss, begin, end, Qualified(scope, name))
    ensures Nested(ss, begin, end, scope)
  {
    assert Opened(Seal);
    forall s | s in ss
      ensures Within(s, begin, end, scope)
    {
      NestedScope(scope, name, s.name);
    }
  }

  lemma NestedJoin(a: seq<Sighting>, b: seq<Sighting>, begin: nat, middle: nat, end: nat, scope: string)
    requires Nested(a, begin, middle, scope) && Nested(b, middle, end, scope) && begin <= middle <= end
    ensures Nested(a + b, begin, end, scope)
  {
    assert Opened(Seal);
    var ss := a + b;
    forall i, j | 0 <= i < j < |ss|
      ensures AfterOrInside(ss[i], ss[j])
    {
      if i < |a| <= j {
        assert ss[i] in a && ss[j] in b;
      }
    }
  }

  lemma NestedFirst(s: Sighting, rest: seq<Sighting>, begin: nat, end: nat, scope: string, name: string)
    requires Nested(rest, s.bodyBegin, s.bodyEnd, Qualified(scope, name)) && Within(s, begin, end, scope)
    ensures Nested([s] + rest, begin, end, scope)
  {
    NestedOuter(rest, s.bodyBegin, s.bodyEnd, scope, name);
    assert Opened(Seal);
    var ss := [s] + rest;
    forall i, j | 0 <= i < j < |ss|
      ensures AfterOrInside(ss[i], ss[j])
    {
      assert ss[j] in rest;
    }
  }

  /** Everything a walk sees lies in its range and its scope, and the bodies are
      nested or disjoint, in the order in which they open. */
  lemma WalkIsLaminar(tokens: seq<Token>, payload: string -> Payload, begin: nat, end: nat, scope: string)
    requires begin <= end <= |tokens|
    ensures Laminar(Walk(tokens, payload, begin, end, scope, [], false))
    ensures AllWithin(Walk(tokens, payload, begin, end, scope, [], false), begin, end, scope)
  {
    WalkIsNested(tokens, payload, begin, end, scope, [], false);
    assert Opened(Seal);
  }

  lemma {:induction false} WalkIsNested(tokens: seq<Token>, payload: string -> Payload, cursor: nat, end: nat,
                                        scope: string, pending: seq<Annotation>, template: bool)
    requires end <= |tokens|
    ensures Nested(Walk(tokens, payload, cursor, end, scope, pending, template), cursor, end, scope)
    decreases if cursor < end then end - cursor else 0, 1
  {
    if cursor >= end {
      NestedNone(cursor, end, scope);
    } else if tokens[cursor].text == "template" && cursor + 1 < end && tokens[cursor + 1].text == "<" {
      var close := TemplateEnd(tokens, cursor + 1, cursor + 1, end);
      var next := if close == end then end else close + 1;
      WalkIsNested(tokens, payload, next, end, scope, pending, true);
      NestedWider(Walk(tokens, payload, next, end, scope, pending, true), next, end, scope, cursor, end);
    } else if AnnotationAt(tokens, cursor, end, payload).Some? {
      var a := AnnotationAt(tokens, cursor, end, payload).value;
      WalkIsNested(tokens, payload, a.next, end, scope, pending + [a.annotation], template);
      NestedWider(Walk(tokens, payload, a.next, end, scope, pending + [a.annotation], template),
                  a.next, end, scope, cursor, end);
    } else if OpensNamespace(tokens, cursor, end) {
      NamespaceIsNested(tokens, payload, cursor, end, scope, template);
    } else if IsTypeKeyword(tokens[cursor].text) {
      TypeAndRestAreNested(tokens, payload, cursor, pending, end, scope, template);
    } else {
      var ends := tokens[cursor].text == ";" || tokens[cursor].text == "}";
      var (p, t) := if ends then ([], false) else (pending, template);
      WalkIsNested(tokens, payload, cursor + 1, end, scope, p, t);
      NestedWider(Walk(tokens, payload, cursor + 1, end, scope, p, t), cursor + 1, end, scope, cursor, end);
    }
  }

  // The sightings of a type, and those after it.
  lemma {:induction false} TypeAndRestAreNested(tokens: seq<Token>, payload: string -> Payload, cursor: nat,
                                                pending: seq<Annotation>, end: nat, scope: string, template: bool)
    requires cursor < end <= |tokens|
    ensures var (seen, next) := TypeAt(tokens, payload, cursor, pending, end, scope, template);
      Nested(seen + Walk(tokens, payload, next, end, scope, [], false), cursor, end, scope)
    decreases end - cursor, 0, 1
  {
    var (seen, next) := TypeAt(tokens, payload, cursor, pending, end, scope, template);
    TypeIsNested(tokens, payload, cursor, pending, end, scope, template);
    WalkIsNested(tokens, payload, next, end, scope, [], false);
    NestedJoin(seen, Walk(tokens, payload, next, end, scope, [], false), cursor, next, end, scope);
  }

  // The sightings inside a namespace, and those after it.
  lemma {:induction false} NamespaceIsNested(tokens: seq<Token>, payload: string -> Payload, cursor: nat, end: nat,
                                             scope: string, template: bool)
    requires cursor < end <= |tokens| && OpensNamespace(tokens, cursor, end)
    ensures
      var brace := Stop(tokens, cursor + 1, end, NAMESPACE_STOPS);
      var close := Matching(tokens, "{", "}", brace, end);
      var name := NamespaceText(tokens, cursor + 1, brace);
      var inner := if name == "" then scope else Qualified(scope, name);
      Nested(Walk(tokens, payload, brace + 1, close, inner, [], false)
             + Walk(tokens, payload, close + 1, end, scope, [], template), cursor, end, scope)
    decreases end - cursor, 0
  {
    var brace := Stop(tokens, cursor + 1, end, NAMESPACE_STOPS);
    var close := Matching(tokens, "{", "}", brace, end);
    var name := NamespaceText(tokens, cursor + 1, brace);
    var inner := if name == "" then scope else Qualified(scope, name);
    var inside := Walk(tokens, payload, brace + 1, close, inner, [], false);
    var after := Walk(tokens, payload, close + 1, end, scope, [], template);
    WalkIsNested(tokens, payload, brace + 1, close, inner, [], false);
    if name != "" {
      NestedOuter(inside, brace + 1, close, scope, name);
    }
    WalkIsNested(tokens, payload, close + 1, end, scope, [], template);
    if close < end {
      NestedWider(inside, brace + 1, close, scope, cursor, close + 1);
      NestedJoin(inside, after, cursor, close + 1, end, scope);
    } else {
      assert inside + after == inside;
      NestedWider(inside, brace + 1, close, scope, cursor, end);
    }
  }

  lemma {:induction false} TypeIsNested(tokens: seq<Token>, payload: string -> Payload, keywordIndex: nat,
                                        pending: seq<Annotation>, end: nat, scope: string, template: bool)
    requires keywordIndex < end <= |tokens|
    ensures var (seen, next) := TypeAt(tokens, payload, keywordIndex, pending, end, scope, template);
      Nested(seen, keywordIndex, next, scope)
    decreases end - keywordIndex, 0, 0
  {
    var (s, next) := Definition(tokens, payload, keywordIndex, pending, end, scope, template);
    if s.None? {
      NestedNone(keywordIndex, next, scope);
    } else {
      var d := s.value;
      var name := Head(tokens, keywordIndex + 1, end, tokens[keywordIndex].text == "enum", payload).1;
      WalkIsNested(tokens, payload, d.bodyBegin, d.bodyEnd, d.name, [], false);
      NestedFirst(d, Walk(tokens, payload, d.bodyBegin, d.bodyEnd, d.name, [], false), keywordIndex, next, scope,
                  tokens[name].text);
    }
  }
}
