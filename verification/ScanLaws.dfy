/** Which definitions a scan reflects and what it says of them, in terms of their tokens. */
module ScanLaws {
  import opened Common
  import opened Tokenizer
  import opened TokenRanges
  import opened RangeLaws
  import opened ReflectedTypes
  import opened ScopeWalk
  import opened RecordMembers
  import opened Reflection

  /* ---------- what a definition looks like ---------- */

  // The class, struct or enum keyword at k defines the sighting under the name at n.
  ghost predicate Defines(tokens: seq<Token>, s: Sighting, k: nat, n: nat, limit: nat)
    requires limit <= |tokens|
  {
    var b := s.bodyBegin - 1;
    && k < n < b < limit
    && (tokens[k].text == "class" || tokens[k].text == "struct" || tokens[k].text == "enum")
    && s.isEnum == (tokens[k].text == "enum") && s.isStruct == (tokens[k].text == "struct")
    && tokens[n].identifier && tokens[b].text == "{"
    && (forall j :: n < j < b ==> tokens[j].text != "{" && tokens[j].text != ";")
    && s.bodyEnd < limit && Closes(tokens, "{", "}", b, limit, s.bodyEnd)
    && EndsWith(s.name, tokens[n].text)
  }

  // The name, alone or behind a scope.
  predicate EndsWith(qualified: string, name: string) {
    qualified == name ||
    (|name| + 2 <= |qualified| && qualified[|qualified| - |name| - 2..] == "::" + name)
  }

  ghost predicate Defined(tokens: seq<Token>, s: Sighting) {
    exists k: nat, n: nat, limit: nat :: limit <= |tokens| && Defines(tokens, s, k, n, limit)
  }

  lemma DefinitionDefines(tokens: seq<Token>, payload: string -> Payload, keywordIndex: nat, pending: seq<Annotation>,
                          end: nat, scope: string, template: bool)
    requires keywordIndex < end <= |tokens| && IsTypeKeyword(tokens[keywordIndex].text)
    ensures var s := Definition(tokens, payload, keywordIndex, pending, end, scope, template).0;
      s.Some? ==> Defined(tokens, s.value)
  {
    var keyword := tokens[keywordIndex].text;
    var (after, name, cursor) := Head(tokens, keywordIndex + 1, end, keyword == "enum", payload);
    var s := Definition(tokens, payload, keywordIndex, pending, end, scope, template).0;
    if s.Some? {
      QualifiedEnds(scope, tokens[name].text);
      assert Defines(tokens, s.value, keywordIndex, name, end);
    }
  }

  lemma QualifiedEnds(scope: string, name: string)
    ensures EndsWith(Qualified(scope, name), name)
  {
    var q := Qualified(scope, name);
    if scope != "" {
      assert q == scope + ("::" + name);
      assert q[|scope|..] == "::" + name;
    }
  }

  /** Whatever a walk sees is a definition: a keyword, a name, no brace or semicolon
      up to the body, and the body with its matching brace. */
  lemma {:induction false} SeenIsDefined(tokens: seq<Token>, payload: string -> Payload, cursor: nat, end: nat,
                                         scope: string, pending: seq<Annotation>, template: bool, s: Sighting)
    requires end <= |tokens| && s in Walk(tokens, payload, cursor, end, scope, pending, template)
    ensures Defined(tokens, s)
    decreases if cursor < end then end - cursor else 0, 1
  {
    var text := tokens[cursor].text;
    if text == "template" && cursor + 1 < end && tokens[cursor + 1].text == "<" {
      var close := TemplateEnd(tokens, cursor + 1, cursor + 1, end);
      SeenIsDefined(tokens, payload, if close == end then end else close + 1, end, scope, pending, true, s);
    } else if AnnotationAt(tokens, cursor, end, payload).Some? {
      var a := AnnotationAt(tokens, cursor, end, payload).value;
      SeenIsDefined(tokens, payload, a.next, end, scope, pending + [a.annotation], template, s);
    } else if OpensNamespace(tokens, cursor, end) {
      NamespaceSeenIsDefined(tokens, payload, cursor, end, scope, template, s);
    } else if IsTypeKeyword(text) {
      TypeSeenIsDefined(tokens, payload, cursor, pending, end, scope, template, s);
    } else {
      var ends := text == ";" || text == "}";
      SeenIsDefined(tokens, payload, cursor + 1, end, scope, if ends then [] else pending, !ends && template, s);
    }
  }

  lemma {:induction false} NamespaceSeenIsDefined(tokens: seq<Token>, payload: string -> Payload, cursor: nat, end: nat,
                                                  scope: string, template: bool, s: Sighting)
    requires cursor < end <= |tokens| && OpensNamespace(tokens, cursor, end)
    requires
      var brace := Stop(tokens, cursor + 1, end, NAMESPACE_STOPS);
      var close := Matching(tokens, "{", "}", brace, end);
      var name := NamespaceText(tokens, cursor + 1, brace);
      var inner := if name == "" then scope else Qualified(scope, name);
      s in Walk(tokens, payload, brace + 1, close, inner, [], false)
           + Walk(tokens, payload, close + 1, end, scope, [], template)
    ensures Defined(tokens, s)
    decreases end - cursor, 0
  {
    var brace := Stop(tokens, cursor + 1, end, NAMESPACE_STOPS);
    var close := Matching(tokens, "{", "}", brace, end);
    var name := NamespaceText(tokens, cursor + 1, brace);
    var inner := if name == "" then scope else Qualified(scope, name);
    if s in Walk(tokens, payload, brace + 1, close, inner, [], false) {
      SeenIsDefined(tokens, payload, brace + 1, close, inner, [], false, s);
    } else {
      SeenIsDefined(tokens, payload, close + 1, end, scope, [], template, s);
    }
  }

  lemma {:induction false} TypeSeenIsDefined(tokens: seq<Token>, payload: string -> Payload, cursor: nat,
                                             pending: seq<Annotation>, end: nat, scope: string, template: bool,
                                             s: Sighting)
    requires cursor < end <= |tokens| && IsTypeKeyword(tokens[cursor].text)
    requires var (seen, next) := TypeAt(tokens, payload, cursor, pending, end, scope, template);
      s in seen + Walk(tokens, payload, next, end, scope, [], false)
    ensures Defined(tokens, s)
    decreases end - cursor, 0
  {
    DefinitionDefines(tokens, payload, cursor, pending, end, scope, template);
    var (d, next) := Definition(tokens, payload, cursor, pending, end, scope, template);
    if s in Walk(tokens, payload, next, end, scope, [], false) {
      SeenIsDefined(tokens, payload, next, end, scope, [], false, s);
    } else if s != d.value {
      SeenIsDefined(tokens, payload, d.value.bodyBegin, d.value.bodyEnd, d.value.name, [], false, s);
    }
  }

  /* ---------- how names nest ---------- */

  // A later sighting inside an earlier one's body has its name behind the earlier one's.
  ghost predicate NamesNest(ss: seq<Sighting>) {
    forall i, j :: 0 <= i < j < |ss| && ss[j].bodyBegin <= ss[i].bodyEnd && ss[i].name != "" ==>
      ss[i].name + "::" <= ss[j].name
  }

  // And all of them lie in a range, sealed.
  ghost predicate NestedIn(ss: seq<Sighting>, begin: nat, end: nat) {
    forall o {:trigger Opened(o)} :: Opened(o) ==> NamesNest(ss) && AllWithin(ss, begin, end, "")
  }

  lemma NestedInNone(begin: nat, end: nat)
    ensures NestedIn([], begin, end)
  {
  }

  lemma NestedInWider(ss: seq<Sighting>, begin: nat, end: nat, wider: nat)
    requires NestedIn(ss, begin, end) && wider <= begin
    ensures NestedIn(ss, wider, end)
  {
    assert Opened(Seal);
  }

  lemma NestedInJoin(a: seq<Sighting>, b: seq<Sighting>, begin: nat, middle: nat, end: nat, last: nat)
    requires NestedIn(a, begin, middle) && NestedIn(b, end, last) && begin <= middle <= end && middle <= last
    ensures NestedIn(a + b, begin, last)
  {
    assert Opened(Seal);
    var ss := a + b;
    assert forall x, y :: x in a && y in b ==> x.bodyEnd < y.bodyBegin;
    forall i, j | 0 <= i < j < |ss| && ss[j].bodyBegin <= ss[i].bodyEnd && ss[i].name != ""
      ensures ss[i].name + "::" <= ss[j].name
    {
      assert i < |a| ==> ss[i] in a;
      assert j >= |a| ==> ss[j] in b;
    }
  }

  lemma {:induction false} WalkNamesNest(tokens: seq<Token>, payload: string -> Payload, cursor: nat, end: nat,
                                         scope: string, pending: seq<Annotation>, template: bool)
    requires end <= |tokens|
    ensures NestedIn(Walk(tokens, payload, cursor, end, scope, pending, template), cursor, end)
    decreases if cursor < end then end - cursor else 0, 1
  {
    if cursor >= end {
      NestedInNone(cursor, end);
    } else if tokens[cursor].text == "template" && cursor + 1 < end && tokens[cursor + 1].text == "<" {
      var close := TemplateEnd(tokens, cursor + 1, cursor + 1, end);
      var next := if close == end then end else close + 1;
      WalkNamesNest(tokens, payload, next, end, scope, pending, true);
      NestedInWider(Walk(tokens, payload, next, end, scope, pending, true), next, end, cursor);
    } else if AnnotationAt(tokens, cursor, end, payload).Some? {
      var a := AnnotationAt(tokens, cursor, end, payload).value;
      WalkNamesNest(tokens, payload, a.next, end, scope, pending + [a.annotation], template);
      NestedInWider(Walk(tokens, payload, a.next, end, scope, pending + [a.annotation], template), a.next, end, cursor);
    } else if OpensNamespace(tokens, cursor, end) {
      NamespaceNamesNest(tokens, payload, cursor, end, scope, template);
    } else if IsTypeKeyword(tokens[cursor].text) {
      TypeAndRestNest(tokens, payload, cursor, pending, end, scope, template);
    } else {
      var ends := tokens[cursor].text == ";" || tokens[cursor].text == "}";
      var (p, t) := if ends then ([], false) else (pending, template);
      WalkNamesNest(tokens, payload, cursor + 1, end, scope, p, t);
      NestedInWider(Walk(tokens, payload, cursor + 1, end, scope, p, t), cursor + 1, end, cursor);
    }
  }

  lemma {:induction false} NamespaceNamesNest(tokens: seq<Token>, payload: string -> Payload, cursor: nat, end: nat,
                                              scope: string, template: bool)
    requires cursor < end <= |tokens| && OpensNamespace(tokens, cursor, end)
    ensures
      var brace := Stop(tokens, cursor + 1, end, NAMESPACE_STOPS);
      var close := Matching(tokens, "{", "}", brace, end);
      var name := NamespaceText(tokens, cursor + 1, brace);
      var inner := if name == "" then scope else Qualified(scope, name);
      NestedIn(Walk(tokens, payload, brace + 1, close, inner, [], false)
               + Walk(tokens, payload, close + 1, end, scope, [], template), cursor, end)
    decreases end - cursor, 0
  {
    var brace := Stop(tokens, cursor + 1, end, NAMESPACE_STOPS);
    var close := Matching(tokens, "{", "}", brace, end);
    var name := NamespaceText(tokens, cursor + 1, brace);
    var inner := if name == "" then scope else Qualified(scope, name);
    WalkNamesNest(tokens, payload, brace + 1, close, inner, [], false);
    WalkNamesNest(tokens, payload, close + 1, end, scope, [], template);
    NestedInBoth(Walk(tokens, payload, brace + 1, close, inner, [], false),
                 Walk(tokens, payload, close + 1, end, scope, [], template), cursor, brace + 1, close, end);
  }

  lemma NestedInBoth(a: seq<Sighting>, b: seq<Sighting>, cursor: nat, inner: nat, close: nat, end: nat)
    requires NestedIn(a, inner, close) && NestedIn(b, close + 1, end) && cursor <= inner && cursor <= close <= end
    ensures NestedIn(a + b, cursor, end)
  {
    NestedInWider(a, inner, close, cursor);
    NestedInJoin(a, b, cursor, close, close + 1, end);
  }

  lemma {:induction false} TypeAndRestNest(tokens: seq<Token>, payload: string -> Payload, cursor: nat,
                                           pending: seq<Annotation>, end: nat, scope: string, template: bool)
    requires cursor < end <= |tokens|
    ensures var (seen, next) := TypeAt(tokens, payload, cursor, pending, end, scope, template);
      NestedIn(seen + Walk(tokens, payload, next, end, scope, [], false), cursor, end)
    decreases end - cursor, 0, 1
  {
    var (seen, next) := TypeAt(tokens, payload, cursor, pending, end, scope, template);
    TypeNamesNest(tokens, payload, cursor, pending, end, scope, template);
    WalkNamesNest(tokens, payload, next, end, scope, [], false);
    NestedInJoin(seen, Walk(tokens, payload, next, end, scope, [], false), cursor, next, next, end);
  }

  lemma {:induction false} TypeNamesNest(tokens: seq<Token>, payload: string -> Payload, keywordIndex: nat,
                                         pending: seq<Annotation>, end: nat, scope: string, template: bool)
    requires keywordIndex < end <= |tokens|
    ensures var (seen, next) := TypeAt(tokens, payload, keywordIndex, pending, end, scope, template);
      NestedIn(seen, keywordIndex, next)
    decreases end - keywordIndex, 0, 0
  {
    var (d, next) := Definition(tokens, payload, keywordIndex, pending, end, scope, template);
    if d.None? {
      NestedInNone(keywordIndex, next);
    } else {
      var s := d.value;
      WalkNamesNest(tokens, payload, s.bodyBegin, s.bodyEnd, s.name, [], false);
      WalkIsLaminar(tokens, payload, s.bodyBegin, s.bodyEnd, s.name);
      BodyNamesNest(s, Walk(tokens, payload, s.bodyBegin, s.bodyEnd, s.name, [], false), keywordIndex, next);
    }
  }

  lemma BodyNamesNest(s: Sighting, inside: seq<Sighting>, begin: nat, end: nat)
    requires NestedIn(inside, s.bodyBegin, s.bodyEnd) && AllWithin(inside, s.bodyBegin, s.bodyEnd, s.name)
    requires begin <= s.bodyBegin <= s.bodyEnd < end
    ensures NestedIn([s] + inside, begin, end)
  {
    assert Opened(Seal);
    forall j | 0 <= j < |inside| && s.name != ""
      ensures s.name + "::" <= inside[j].name
    {
      assert inside[j] in inside;
    }
  }

  /** A type inside another's body has its name in the other's scope. */
  lemma InnerNames(tokens: seq<Token>, payload: string -> Payload, cursor: nat, end: nat, scope: string, i: nat, j: nat)
    requires end <= |tokens| && i < j < |Walk(tokens, payload, cursor, end, scope, [], false)|
    requires var ss := Walk(tokens, payload, cursor, end, scope, [], false);
      ss[i].bodyBegin <= ss[j].bodyBegin <= ss[i].bodyEnd && ss[i].name != ""
    ensures var ss := Walk(tokens, payload, cursor, end, scope, [], false);
      ss[i].name + "::" <= ss[j].name
  {
    WalkNamesNest(tokens, payload, cursor, end, scope, [], false);
    assert Opened(Seal);
  }

  /* ---------- what the walk does not miss ---------- */

  // Position n is the first one from k on with one of the two texts.
  predicate FirstOf(tokens: seq<Token>, k: nat, n: nat, a: string, b: string)
    requires n < |tokens|
  {
    && k <= n && (tokens[n].text == a || tokens[n].text == b)
    && forall j :: k <= j < n ==> tokens[j].text != a && tokens[j].text != b
  }

  lemma {:induction false} StopsFirst(tokens: seq<Token>, k: nat, end: nat, n: nat, texts: set<string>)
    requires k <= n < end <= |tokens| && tokens[n].text in texts && forall j :: k <= j < n ==> tokens[j].text !in texts
    ensures Stop(tokens, k, end, texts) == n
    decreases n - k
  {
    if k < n {
      StopsFirst(tokens, k + 1, end, n, texts);
    }
  }

  lemma NoAnnotation(tokens: seq<Token>, payload: string -> Payload, cursor: nat, end: nat)
    requires cursor < end <= |tokens| && tokens[cursor].text != "[["
    ensures AnnotationAt(tokens, cursor, end, payload) == None
  {
  }

  /** At a type keyword the walk sees what the type gives and goes on behind it. */
  lemma AtKeyword(tokens: seq<Token>, payload: string -> Payload, cursor: nat, end: nat, scope: string,
                  pending: seq<Annotation>, template: bool)
    requires cursor < end <= |tokens| && IsTypeKeyword(tokens[cursor].text)
    ensures var (seen, next) := TypeAt(tokens, payload, cursor, pending, end, scope, template);
      Walk(tokens, payload, cursor, end, scope, pending, template) ==
        seen + Walk(tokens, payload, next, end, scope, [], false)
  {
    KeywordOnly(tokens[cursor].text);
    NoAnnotation(tokens, payload, cursor, end);
  }

  lemma KeywordOnly(text: string)
    requires IsTypeKeyword(text)
    ensures text != "template" && text != "namespace" && text != "[["
  {
  }

  lemma DefinitionIs(tokens: seq<Token>, payload: string -> Payload, cursor: nat, end: nat, scope: string,
                     pending: seq<Annotation>, template: bool, after: seq<Annotation>, n: nat, b: nat, e: nat)
    requires cursor < n < b < e < end <= |tokens|
    requires AnnotationsFrom(tokens, AfterEnumKey(tokens, cursor + 1, end, tokens[cursor].text == "enum"), end, payload)
             == (after, n)
    requires tokens[n].identifier && tokens[b].text == "{" && Stop(tokens, n + 1, end, HEAD_STOPS) == b
    requires Matching(tokens, "{", "}", b, end) == e
    ensures Definition(tokens, payload, cursor, pending, end, scope, template) ==
            (Some(Sighting(Qualified(scope, tokens[n].text), pending + after,
                           template || FollowsTemplate(tokens, cursor),
                           tokens[cursor].text == "enum", tokens[cursor].text == "struct", b + 1, e)), e + 1)
  {
    assert Head(tokens, cursor + 1, end, tokens[cursor].text == "enum", payload) == (after, n, b);
  }

  lemma QualifiedIs(scope: string, name: string)
    ensures Qualified(scope, name) == if scope == "" then name else scope + "::" + name
  {
  }

  /** A definition that the walk comes to is seen: keyword, annotations, name, and a
      body whose brace is matched; what is inside it is seen under its name. */
  lemma DefinitionIsSeen(tokens: seq<Token>, payload: string -> Payload, cursor: nat, end: nat, scope: string,
                         pending: seq<Annotation>, template: bool, after: seq<Annotation>, n: nat, b: nat, e: nat)
    requires cursor < n < b < e < end <= |tokens|
    requires var text := tokens[cursor].text; text == "class" || text == "struct" || text == "enum"
    requires var next := tokens[cursor + 1].text;
      var again := tokens[cursor].text == "enum" && (next == "class" || next == "struct");
      AnnotationsFrom(tokens, if again then cursor + 2 else cursor + 1, end, payload) == (after, n)
    requires tokens[n].identifier && tokens[b].text == "{" && FirstOf(tokens, n + 1, b, "{", ";")
    requires Closes(tokens, "{", "}", b, end, e)
    ensures var name := Qualified(scope, tokens[n].text);
      var s := Sighting(name, pending + after, template || FollowsTemplate(tokens, cursor),
                        tokens[cursor].text == "enum", tokens[cursor].text == "struct", b + 1, e);
      TypeAt(tokens, payload, cursor, pending, end, scope, template) ==
        ([s] + Walk(tokens, payload, b + 1, e, name, [], false), e + 1)
  {
    StopsFirst(tokens, n + 1, end, b, HEAD_STOPS);
    MatchingIs(tokens, "{", "}", b, end, e);
    DefinitionIs(tokens, payload, cursor, end, scope, pending, template, after, n, b, e);
  }

  // The texts of identifiers and scope marks, one after another.
  function Spelled(tokens: seq<Token>): string {
    if tokens == [] then "" else tokens[0].text + Spelled(tokens[1..])
  }

  lemma {:induction false} SpelledMore(tokens: seq<Token>, t: Token)
    ensures Spelled(tokens + [t]) == Spelled(tokens) + t.text
  {
    if tokens == [] {
      assert (tokens + [t])[1..] == [];
    } else {
      assert (tokens + [t])[1..] == tokens[1..] + [t];
      SpelledMore(tokens[1..], t);
    }
  }

  lemma {:induction false} NamespaceSpelled(tokens: seq<Token>, i: nat, j: nat)
    requires i <= j <= |tokens| && forall k :: i <= k < j ==> tokens[k].identifier || tokens[k].text == "::"
    ensures NamespaceText(tokens, i, j) == Spelled(tokens[i..j])
    decreases j - i
  {
    if i < j {
      NamespaceSpelled(tokens, i, j - 1);
      SpelledMore(tokens[i..j - 1], tokens[j - 1]);
      assert tokens[i..j] == tokens[i..j - 1] + [tokens[j - 1]];
    }
  }

  /** `namespace`, a name of identifiers and scope marks, and a body opens a namespace
      of that name. */
  lemma NamespaceIsSeen(tokens: seq<Token>, cursor: nat, end: nat, b: nat, e: nat)
    requires cursor < b < e < end <= |tokens| && tokens[cursor].text == "namespace" && tokens[b].text == "{"
    requires forall j :: cursor < j < b ==>
      (tokens[j].identifier || tokens[j].text == "::") && tokens[j].text !in {"{", ";", "="}
    requires Closes(tokens, "{", "}", b, end, e)
    ensures OpensNamespace(tokens, cursor, end) && Stop(tokens, cursor + 1, end, NAMESPACE_STOPS) == b
    ensures Matching(tokens, "{", "}", b, end) == e
    ensures NamespaceText(tokens, cursor + 1, b) == Spelled(tokens[cursor + 1..b])
  {
    NamespaceSpelled(tokens, cursor + 1, b);
    StopsFirst(tokens, cursor + 1, end, b, NAMESPACE_STOPS);
    MatchingIs(tokens, "{", "}", b, end, e);
  }

  // The scope inside a namespace; one without a name does not count.
  function InnerScope(scope: string, name: string): string {
    if name == "" then scope else if scope == "" then name else scope + "::" + name
  }

  /** The definitions inside a namespace are seen under its name, and those behind it
      under the same scope. */
  lemma AtNamespace(tokens: seq<Token>, payload: string -> Payload, cursor: nat, end: nat, scope: string,
                    pending: seq<Annotation>, template: bool)
    requires cursor < end <= |tokens| && OpensNamespace(tokens, cursor, end)
    ensures var b := Stop(tokens, cursor + 1, end, NAMESPACE_STOPS);
      var e, spelled := Matching(tokens, "{", "}", b, end), NamespaceText(tokens, cursor + 1, b);
      Walk(tokens, payload, cursor, end, scope, pending, template) ==
        Walk(tokens, payload, b + 1, e, InnerScope(scope, spelled), [], false)
        + Walk(tokens, payload, e + 1, end, scope, [], template)
  {
    NoAnnotation(tokens, payload, cursor, end);
  }

  /** An annotation waits for the definition it stands in front of; a semicolon or a
      closing brace lets everything that waits go; other tokens are passed by. */
  lemma AtOther(tokens: seq<Token>, payload: string -> Payload, cursor: nat, end: nat, scope: string,
                pending: seq<Annotation>, template: bool)
    requires cursor < end <= |tokens| && tokens[cursor].text !in {"template", "namespace", "class", "struct", "enum"}
    ensures var a := AnnotationAt(tokens, cursor, end, payload);
      Walk(tokens, payload, cursor, end, scope, pending, template) ==
        if a != None then Walk(tokens, payload, a.value.next, end, scope, pending + [a.value.annotation], template)
        else if tokens[cursor].text == ";" || tokens[cursor].text == "}"
        then Walk(tokens, payload, cursor + 1, end, scope, [], false)
        else Walk(tokens, payload, cursor + 1, end, scope, pending, template)
  {
  }

  /** A template's parameter list is passed over, and what follows counts as a template. */
  lemma AtTemplate(tokens: seq<Token>, payload: string -> Payload, cursor: nat, end: nat, scope: string,
                   pending: seq<Annotation>, template: bool, close: nat)
    requires cursor + 1 < close < end <= |tokens| && tokens[cursor].text == "template" && tokens[cursor + 1].text == "<"
    requires var open := cursor + 1;
      (forall k :: open < k <= close ==> AngleDepth(tokens, open, k) > 0) && AngleDepth(tokens, open, close + 1) == 0
    ensures Walk(tokens, payload, cursor, end, scope, pending, template) ==
            Walk(tokens, payload, close + 1, end, scope, pending, true)
  {
    assert AngleDepth(tokens, cursor + 1, cursor + 2) == 1 by {
      assert AngleDepth(tokens, cursor + 1, cursor + 1) == 0;
    }
    EndsThere(tokens, cursor + 1, cursor + 1, close, end);
  }

  lemma {:induction false} EndsThere(tokens: seq<Token>, from: nat, k: nat, close: nat, end: nat)
    requires from <= k <= close < end <= |tokens| && AngleDepth(tokens, from, close + 1) == 0
    requires forall j :: k < j <= close ==> AngleDepth(tokens, from, j) > 0
    ensures TemplateEnd(tokens, from, k, end) == close
    decreases close - k
  {
    if k < close {
      EndsThere(tokens, from, k + 1, close, end);
    }
  }

  /** A type counts as a template when `template` stands at most 256 tokens before its
      keyword with no semicolon, brace or other `template` between. */
  lemma TemplateReach(tokens: seq<Token>, keyword: nat, i: nat)
    requires i < keyword <= |tokens| && tokens[i].text == "template"
    requires forall k :: i < k < keyword ==>
      tokens[k].text != ";" && tokens[k].text != "{" && tokens[k].text != "}" && tokens[k].text != "template"
    ensures FollowsTemplate(tokens, keyword) <==> keyword <= i + 256
  {
    if keyword <= i + 256 {
      assert TemplateAt(tokens, i, keyword);
    }
  }

  lemma TemplateStopped(tokens: seq<Token>, keyword: nat, k: nat)
    requires k < keyword <= |tokens| && (tokens[k].text == ";" || tokens[k].text == "{" || tokens[k].text == "}")
    requires forall j :: k < j < keyword ==> tokens[j].text != "template"
    ensures !FollowsTemplate(tokens, keyword)
  {
  }

  /* ---------- which definitions are reflected ---------- */

  predicate FirstOfKind(annotations: seq<Annotation>, kind: string, k: nat) {
    && k < |annotations| && annotations[k].kind == kind
    && forall j :: 0 <= j < k ==> annotations[j].kind != kind
  }

  lemma {:induction false} FindsExactly(annotations: seq<Annotation>, kind: string) returns (k: nat)
    ensures if FindAnnotation(annotations, kind).None? then forall a :: a in annotations ==> a.kind != kind
            else FirstOfKind(annotations, kind, k) && FindAnnotation(annotations, kind).value == annotations[k]
  {
    k := 0;
    if annotations != [] && annotations[0].kind != kind {
      k := FindsExactly(annotations[1..], kind);
      k := k + 1;
    }
  }

  ghost predicate AsksFor(c: Context, annotations: seq<Annotation>) {
    exists k: nat :: FirstOfKind(annotations, "reflect", k) && c.pathKey(annotations[k].begin.file) in c.ownedFiles
  }

  lemma AskedExactly(c: Context, annotations: seq<Annotation>)
    ensures Asked(c, annotations) <==> AsksFor(c, annotations)
  {
    var k := FindsExactly(annotations, "reflect");
    forall j: nat | FirstOfKind(annotations, "reflect", j)
      ensures FindAnnotation(annotations, "reflect") == Some(annotations[j])
    {
      FindsFirst(annotations, "reflect", j);
    }
  }

  /** A definition is reflected exactly when its first `reflect` annotation stands in
      an owned file, it is no template, and no annotation says `ignore`. */
  lemma ReflectsExactly(c: Context, annotations: seq<Annotation>, openTemplate: bool)
    ensures Reflects(c, annotations, openTemplate) <==>
            AsksFor(c, annotations) && !openTemplate && forall a :: a in annotations ==> a.kind != "ignore"
  {
    AskedExactly(c, annotations);
    var k := FindsExactly(annotations, "ignore");
    if FindAnnotation(annotations, "ignore").Some? {
      assert annotations[k] in annotations;
    }
  }

  /** What the reflected type takes from the definition and its annotation. */
  lemma TypeSays(c: Context, s: Sighting, k: nat)
    requires FirstOfKind(s.annotations, "reflect", k)
    ensures FindAnnotation(s.annotations, "reflect").Some?
    ensures var r, t := s.annotations[k], TypeOf(c, s);
      && t.cppQualifiedName == s.name && t.isEnum == s.isEnum
      && t.reflectionName == (if "name" in r.options && r.options["name"] != "" then r.options["name"] else s.name)
      && t.declarationFile == r.begin.file && t.line == r.begin.line
      && t.manualDescriptor ==
           ("manual" in r.options && Lower(r.options["manual"]) != "false" && Lower(r.options["manual"]) != "0" &&
            Lower(r.options["manual"]) != "off")
      && (s.isEnum || t.manualDescriptor ==>
            t.fields == [] && t.methods == [] && t.properties == [] && t.constructors == [])
  {
    FindsFirst(s.annotations, "reflect", k);
    var t := NewType(s.annotations[k], s.name, s.isEnum, s.isStruct);
    if !(t.manualDescriptor || s.isEnum) && s.bodyBegin <= s.bodyEnd <= |c.tokens| {
      ReadBodyKeeps(c.tokens, c.declare, t, s.bodyBegin, s.bodyEnd);
    }
  }

  /** What is reported of a definition: that it is a template that asks for reflection;
      or that its name is taken, and then what its body gives rise to. */
  lemma SightingSays(c: Context, s: Sighting, names: set<string>)
    ensures AsksFor(c, s.annotations) && s.openTemplate ==> SightingReports(c, s, names) == [OpenTemplate(s.name)]
    ensures !AsksFor(c, s.annotations) ==> SightingReports(c, s, names) == []
    ensures (exists a :: a in s.annotations && a.kind == "ignore") && !s.openTemplate ==>
              SightingReports(c, s, names) == []
    ensures Reflects(c, s.annotations, s.openTemplate) ==>
      var (t, reports) := BodyOf(c, s);
      && (t.reflectionName in names ==> SightingReports(c, s, names) == [DuplicateType(t.reflectionName)] + reports)
      && (t.reflectionName !in names ==> SightingReports(c, s, names) == reports)
  {
    AskedExactly(c, s.annotations);
    ReflectsExactly(c, s.annotations, s.openTemplate);
  }

  /** The body of an enumeration, or one that is described by hand, is not read; of
      another the declarations are read in order, and then the type is validated,
      unless a brace is not closed. */
  lemma BodySays(c: Context, s: Sighting, k: nat)
    requires FirstOfKind(s.annotations, "reflect", k) && FindAnnotation(s.annotations, "reflect").Some?
    requires s.bodyBegin <= s.bodyEnd <= |c.tokens|
    ensures var (t, reports) := BodyOf(c, s);
      var blank := NewType(s.annotations[k], s.name, s.isEnum, s.isStruct);
      var initial := if s.isStruct then Public else Private;
      var (ms, balanced) := Members(c.tokens, s.bodyBegin, s.bodyEnd, initial);
      if s.isEnum || t.manualDescriptor then reports == [] && t == blank
      else
        && RangesOk(c.tokens, ms) && PropertiesOk(t.properties)
        && t == ReadMembers(c.tokens, c.declare, blank, ms).0
        && reports == ReadMembers(c.tokens, c.declare, blank, ms).1 +
             if balanced then Validation(t) else [UnbalancedBody(s.name)]
  {
    FindsFirst(s.annotations, "reflect", k);
    var t := NewType(s.annotations[k], s.name, s.isEnum, s.isStruct);
    if !(t.manualDescriptor || s.isEnum) {
      ReadBodyKeeps(c.tokens, c.declare, t, s.bodyBegin, s.bodyEnd);
      MembersInOrder(c.tokens, s.bodyBegin, s.bodyEnd, t.defaultAccess);
    }
  }
}
