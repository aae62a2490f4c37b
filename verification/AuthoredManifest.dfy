/** The manifest parser: its diagnostics and its result are exactly those of the specification. */
module AuthoredManifest {
  import opened Common
  import opened CharacterClasses
  import opened ManifestSchema
  import opened ManifestProblems

  datatype Diagnostic = Diagnostic(error: bool, code: Code)

  predicate HasError(diagnostics: seq<Diagnostic>) {
    exists d :: d in diagnostics && d.error
  }

  class Parser {
    const spec: Spec
    // The codes of the errors reported so far.
    var diagnostics: Problems

    constructor (spec: Spec)
      ensures this.spec == spec && diagnostics == []
    {
      this.spec := spec;
      diagnostics := [];
    }

    method Report(code: Code)
      modifies this`diagnostics
      ensures diagnostics == old(diagnostics) + [code]
    {
      diagnostics := diagnostics + [code];
    }

    method NamespaceDeclarations(xml: Xml, inherited: Namespaces) returns (namespaces: Namespaces)
      modifies this`diagnostics
      ensures namespaces == InScope(xml, inherited)
      ensures diagnostics == old(diagnostics) + DeclarationProblems(spec, xml.attributes, |xml.attributes|)
    {
      namespaces := inherited;
      for i := 0 to |xml.attributes|
        invariant namespaces == Declared(xml.attributes, inherited, i)
        invariant diagnostics == old(diagnostics) + DeclarationProblems(spec, xml.attributes, i)
      {
        GatheredNext(old(diagnostics), a => Unless(DeclarationOk(spec, a), NGIN1002), xml.attributes, i);
        namespaces := Declare(xml.attributes[i], namespaces);
      }
    }

    method Declare(a: Attribute, inherited: Namespaces) returns (namespaces: Namespaces)
      modifies this`diagnostics
      ensures namespaces ==
              if IsDeclaration(a.name) then inherited[DeclaredPrefix(a.name).value := a.value] else inherited
      ensures diagnostics == old(diagnostics) + Unless(DeclarationOk(spec, a), NGIN1002)
    {
      var prefix := DeclaredPrefix(a.name);
      if prefix.None? {
        return inherited;
      }
      var uri := a.value;
      if uri != "" && uri != spec.xml && uri != spec.xmlns && uri !in spec.namespaces {
        Report(NGIN1002);
      }
      namespaces := inherited[prefix.value := uri];
    }

    method ResolveNamespace(name: QualifiedName, namespaces: Namespaces, attribute: bool) returns (uri: Option<string>)
      modifies this`diagnostics
      ensures uri == Resolve(spec, name, namespaces, attribute)
      ensures diagnostics == old(diagnostics) + Unless(uri.Some?, NGIN1002)
    {
      if name.prefix == "" {
        if attribute {
          return Some("");
        }
        return if "" in namespaces then Some(namespaces[""]) else Some("");
      }
      if name.prefix == "xml" {
        return Some(spec.xml);
      }
      if name.prefix !in namespaces {
        Report(NGIN1002);
        return None;
      }
      return Some(namespaces[name.prefix]);
    }

    method ParseAttribute(e: ElementSpec, namespaces: Namespaces, a: Attribute) returns (r: seq<Attribute>)
      requires SpecOk(spec)
      modifies this`diagnostics
      ensures r == Kept(e, namespaces, a)
      ensures diagnostics == old(diagnostics) + AttributeProblems(e, namespaces, a)
    {
      if IsDeclaration(a.name) {
        return [];
      }
      var qualified := SplitName(a.name);
      InNamespaceExactly(spec, qualified, namespaces);
      var uri := ResolveNamespace(qualified, namespaces, true);
      if uri.None? {
        return [];
      }
      if uri.value != "" {
        Report(NGIN1004);
        return [];
      }
      var found := AttributeNamed(e.attributes, qualified.local);
      if found.None? {
        Report(NGIN1004);
        return [];
      }
      if !Admits(found.value, a.value) {
        Report(NGIN1007);
      }
      return [Attribute(qualified.local, a.value)];
    }

    method ParseAttributes(xml: Xml, e: ElementSpec, namespaces: Namespaces) returns (attributes: seq<Attribute>)
      requires SpecOk(spec)
      modifies this`diagnostics
      ensures attributes == ImageAttributes(e, namespaces, xml.attributes, |xml.attributes|)
      ensures diagnostics ==
              old(diagnostics) + AttributesProblems(e, namespaces, xml.attributes, |xml.attributes|)
    {
      attributes := [];
      for i := 0 to |xml.attributes|
        invariant AttributesRead(e, namespaces, xml.attributes, i, old(diagnostics), diagnostics, attributes)
      {
        ghost var before := diagnostics;
        var parsed := ParseOne(e, namespaces, xml.attributes[i]);
        OneMoreRead(e, namespaces, xml.attributes, i, old(diagnostics), before, diagnostics, attributes, parsed);
        attributes := attributes + parsed;
      }
      assert Opened(Seal);
    }

    method ParseOne(e: ElementSpec, namespaces: Namespaces, a: Attribute) returns (r: seq<Attribute>)
      requires SpecOk(spec)
      modifies this`diagnostics
      ensures OneRead(e, namespaces, a, old(diagnostics), diagnostics, r)
    {
      r := ParseAttribute(e, namespaces, a);
    }

    method CheckRequired(e: ElementSpec, attributes: seq<Attribute>)
      modifies this`diagnostics
      ensures diagnostics == old(diagnostics) + RequiredProblems(e, attributes, |e.attributes|)
    {
      for i := 0 to |e.attributes|
        invariant diagnostics == old(diagnostics) + RequiredProblems(e, attributes, i)
      {
        var s := e.attributes[i];
        GatheredNext(old(diagnostics), (s: AttributeSpec) => Unless(Found(s, attributes), NGIN1005), e.attributes, i);
        if s.required && !HasAttribute(attributes, s.name) {
          Report(NGIN1005);
        }
      }
    }

    // The children that were counted, by element id.
    ghost predicate Counts(counts: map<string, nat>, children: seq<Authored>) {
      forall id :: Count(children, id) == if id in counts then counts[id] else 0
    }

    method CheckCounts(e: ElementSpec, counts: map<string, nat>, ghost children: seq<Authored>)
      requires Counts(counts, children)
      modifies this`diagnostics
      ensures diagnostics == old(diagnostics) + CountProblems(e, children, |e.children|)
    {
      for i := 0 to |e.children|
        invariant diagnostics == old(diagnostics) + CountProblems(e, children, i)
      {
        var child := e.children[i];
        var count := if child.elementId in counts then counts[child.elementId] else 0;
        assert count == Count(children, child.elementId);
        GatheredNext(old(diagnostics), c => KindProblems(c, children), e.children, i);
        CheckBounds(child, count);
      }
    }

    method CheckBounds(child: ChildSpec, count: nat)
      modifies this`diagnostics
      ensures diagnostics == old(diagnostics) + BoundsProblems(child, count)
    {
      if count < child.minimum {
        Report(NGIN1006);
      }
      if child.maximum.Some? && count > child.maximum.value {
        Report(NGIN1006);
      }
    }

    method ParseChild(e: ElementSpec, child: Xml, namespaces: Namespaces) returns (r: seq<Authored>)
      requires SpecOk(spec) && e in spec.elements
      modifies this`diagnostics
      ensures r == ImageOfChild(spec, e, child, namespaces)
      ensures diagnostics == old(diagnostics) + ChildProblems(spec, e, child, namespaces)
      decreases child, 5
    {
      ghost var start := diagnostics;
      var childNamespaces := NamespaceDeclarations(child, namespaces);
      var qualified := SplitName(child.name);
      var uri := ResolveNamespace(qualified, childNamespaces, false);
      r := ParseIn(e, child, uri, qualified.local, childNamespaces);
      Placed(start, spec, e, child, namespaces);
    }

    // The child, once its namespace is known.
    method ParseIn(e: ElementSpec, child: Xml, uri: Option<string>, local: string, namespaces: Namespaces)
        returns (r: seq<Authored>)
      requires SpecOk(spec) && e in spec.elements
      modifies this`diagnostics
      ensures r == ImageIn(spec, e, child, uri, local, namespaces)
      ensures diagnostics == old(diagnostics) + ProblemsIn(spec, e, child, uri, local, namespaces)
      decreases child, 4
    {
      if uri.None? || (uri.value != "" && uri.value !in spec.namespaces) {
        return [];
      }
      ChildrenRegistered(spec, e);
      var childSpec := FindChild(spec, e.children, uri.value, local);
      r := ParseFound(child, childSpec, uri.value, namespaces);
    }

    method ParseFound(child: Xml, found: Option<ElementSpec>, uri: string, namespaces: Namespaces)
        returns (r: seq<Authored>)
      requires SpecOk(spec) && (found.Some? ==> found.value in spec.elements)
      modifies this`diagnostics
      ensures r == FoundImage(spec, child, found, namespaces)
      ensures diagnostics == old(diagnostics) + FoundProblems(spec, child, found, uri, namespaces)
      decreases child, 3
    {
      if found.None? {
        Report(if uri == "" then NGIN1003 else NGIN1009);
        return [];
      }
      var authored := ParseElement(child, found.value, namespaces);
      return [authored];
    }

    // One child node: an element, a piece of text, or something else.
    method ParseNode(xml: Xml, e: ElementSpec, namespaces: Namespaces, i: nat)
        returns (parsed: seq<Authored>, text: string)
      requires SpecOk(spec) && e in spec.elements && i < |xml.children|
      modifies this`diagnostics
      ensures parsed == ImageOfNode(spec, e, xml, namespaces, i) && |parsed| <= 1
      ensures text == if xml.children[i].TextNode? then xml.children[i].text else ""
      ensures diagnostics == old(diagnostics) + NodeProblems(spec, e, xml, namespaces, i)
      decreases xml, 0
    {
      parsed, text := [], "";
      match xml.children[i] {
        case ElementNode(child) => parsed := ParseChild(e, child, namespaces);
        case TextNode(t) => text := t;
        case OtherNode =>
      }
    }

    method ParseChildren(xml: Xml, e: ElementSpec, namespaces: Namespaces)
        returns (children: seq<Authored>, text: string, counts: map<string, nat>)
      requires SpecOk(spec) && e in spec.elements
      modifies this`diagnostics
      ensures children == ImageChildren(spec, e, xml, namespaces, |xml.children|)
      ensures text == Text(xml.children, |xml.children|) && Counts(counts, children)
      ensures diagnostics == old(diagnostics) + NodesProblems(spec, e, xml, namespaces, |xml.children|)
      decreases xml, 1
    {
      children, text, counts := [], "", map[];
      for i := 0 to |xml.children|
        invariant children == ImageChildren(spec, e, xml, namespaces, i)
        invariant text == Text(xml.children, i) && Counts(counts, children)
        invariant diagnostics == old(diagnostics) + NodesProblems(spec, e, xml, namespaces, i)
      {
        ghost var before := NodesProblems(spec, e, xml, namespaces, i);
        Regroup(old(diagnostics), before, NodeProblems(spec, e, xml, namespaces, i));
        var parsed, piece := ParseNode(xml, e, namespaces, i);
        counts := CountAll(counts, children, parsed);
        children := children + parsed;
        text := text + piece;
      }
    }

    method CountAll(counts: map<string, nat>, ghost children: seq<Authored>, parsed: seq<Authored>)
        returns (r: map<string, nat>)
      requires Counts(counts, children) && |parsed| <= 1
      ensures Counts(r, children + parsed)
    {
      if parsed == [] {
        assert children + parsed == children;
        return counts;
      }
      assert parsed == [parsed[0]];
      r := CountOne(counts, children, parsed[0]);
    }

    method CountOne(counts: map<string, nat>, ghost children: seq<Authored>, child: Authored)
        returns (r: map<string, nat>)
      requires Counts(counts, children)
      ensures Counts(r, children + [child])
    {
      var count := if child.specId in counts then counts[child.specId] else 0;
      r := counts[child.specId := count + 1];
      assert (children + [child])[..|children|] == children;
    }

    method ParseHead(xml: Xml, e: ElementSpec, namespaces: Namespaces) returns (attributes: seq<Attribute>)
      requires SpecOk(spec)
      modifies this`diagnostics
      ensures attributes == ImageAttributes(e, namespaces, xml.attributes, |xml.attributes|)
      ensures diagnostics == old(diagnostics) + HeadProblems(e, xml, namespaces)
    {
      ghost var start := diagnostics;
      attributes := ParseAttributes(xml, e, namespaces);
      Regroup(start, AttributesProblems(e, namespaces, xml.attributes, |xml.attributes|),
              RequiredProblems(e, attributes, |e.attributes|));
      CheckRequired(e, attributes);
    }

    method CheckTail(e: ElementSpec, text: string, counts: map<string, nat>, ghost children: seq<Authored>)
      requires Counts(counts, children)
      modifies this`diagnostics
      ensures diagnostics == old(diagnostics) + TailProblems(e, text, children)
    {
      Regroup(diagnostics, TextProblems(e, text), CountProblems(e, children, |e.children|));
      if !e.allowsText && text != "" {
        Report(NGIN1008);
      }
      CheckCounts(e, counts, children);
    }

    /** The result is the element's image, and the diagnostics are its problems in order. */
    method ParseElement(xml: Xml, e: ElementSpec, namespaces: Namespaces) returns (authored: Authored)
      requires SpecOk(spec) && e in spec.elements
      modifies this`diagnostics
      ensures authored == Image(spec, e, xml, namespaces)
      ensures diagnostics == old(diagnostics) + ElementProblems(spec, e, xml, namespaces)
      decreases xml, 2
    {
      ghost var start := diagnostics;
      var attributes := ParseHead(xml, e, namespaces);
      ghost var below := NodesProblems(spec, e, xml, namespaces, |xml.children|);
      var children, text, counts := ParseChildren(xml, e, namespaces);
      text := Trim(text);
      CheckTail(e, text, counts, children);
      authored := Authored(e.id, e.name, e.namespaceUri, text, attributes, children);
      RegroupFour(start, HeadProblems(e, xml, namespaces), below, TailProblems(e, text, children));
    }
  }

  // The first n attributes were parsed behind the diagnostics there were.
  ghost predicate AttributesRead(e: ElementSpec, namespaces: Namespaces, all: seq<Attribute>, n: nat,
                                 start: Problems, now: Problems, kept: seq<Attribute>)
    requires n <= |all|
  {
    forall s {:trigger Opened(s)} :: Opened(s) ==>
      kept == ImageAttributes(e, namespaces, all, n) && now == start + AttributesProblems(e, namespaces, all, n)
  }

  ghost predicate OneRead(e: ElementSpec, namespaces: Namespaces, a: Attribute,
                          start: Problems, now: Problems, kept: seq<Attribute>) {
    forall s {:trigger Opened(s)} :: Opened(s) ==>
      kept == Kept(e, namespaces, a) && now == start + AttributeProblems(e, namespaces, a)
  }

  lemma OneMoreRead(e: ElementSpec, namespaces: Namespaces, all: seq<Attribute>, n: nat,
                    start: Problems, before: Problems, now: Problems, kept: seq<Attribute>, r: seq<Attribute>)
    requires n < |all| && AttributesRead(e, namespaces, all, n, start, before, kept)
    requires OneRead(e, namespaces, all[n], before, now, r)
    ensures AttributesRead(e, namespaces, all, n + 1, start, now, kept + r)
  {
    assert Opened(Seal);
    NextAttribute(e, namespaces, all, n);
    GatheredNext(start, a => AttributeProblems(e, namespaces, a), all, n);
  }

  lemma RegroupFour<T>(a: seq<T>, b: seq<T>, c: seq<T>, d: seq<T>)
    ensures a + b + c + d == a + (b + c + d)
  {
  }

  function ImageOfNode(spec: Spec, e: ElementSpec, xml: Xml, namespaces: Namespaces, i: nat): seq<Authored>
    requires SpecOk(spec) && e in spec.elements && i < |xml.children|
  {
    if xml.children[i].ElementNode? then ImageOfChild(spec, e, xml.children[i].element, namespaces) else []
  }

  // What becomes of a child whose kind was looked for.
  function FoundImage(spec: Spec, child: Xml, found: Option<ElementSpec>, namespaces: Namespaces): seq<Authored>
    requires SpecOk(spec) && (found.Some? ==> found.value in spec.elements)
  {
    if found.None? then [] else [Image(spec, found.value, child, namespaces)]
  }

  function FoundProblems(spec: Spec, child: Xml, found: Option<ElementSpec>, uri: string, namespaces: Namespaces)
      : Problems
    requires SpecOk(spec) && (found.Some? ==> found.value in spec.elements)
  {
    if found.None? then [if uri == "" then NGIN1003 else NGIN1009]
    else ElementProblems(spec, found.value, child, namespaces)
  }

  // What becomes of a child whose namespace is known, and of one whose prefix is not bound.
  function ImageIn(spec: Spec, e: ElementSpec, child: Xml, uri: Option<string>, local: string, scope: Namespaces)
      : seq<Authored>
    requires SpecOk(spec) && e in spec.elements
  {
    if uri.None? || (uri.value != "" && uri.value !in spec.namespaces) then []
    else ChildrenRegistered(spec, e); FoundImage(spec, child, FindChild(spec, e.children, uri.value, local), scope)
  }

  function ProblemsIn(spec: Spec, e: ElementSpec, child: Xml, uri: Option<string>, local: string, scope: Namespaces)
      : Problems
    requires SpecOk(spec) && e in spec.elements
  {
    if uri.None? || (uri.value != "" && uri.value !in spec.namespaces) then []
    else
      ChildrenRegistered(spec, e);
      FoundProblems(spec, child, FindChild(spec, e.children, uri.value, local), uri.value, scope)
  }

  // The three steps of a child, behind the diagnostics there are.
  lemma Placed(start: Problems, spec: Spec, e: ElementSpec, child: Xml, namespaces: Namespaces)
    requires SpecOk(spec) && e in spec.elements
    ensures var uri, scope := ElementNamespace(spec, child, namespaces), InScope(child, namespaces);
      var declared := DeclarationProblems(spec, child.attributes, |child.attributes|);
      && start + ChildProblems(spec, e, child, namespaces) ==
           start + declared + Unless(uri.Some?, NGIN1002) + ProblemsIn(spec, e, child, uri, Local(child.name), scope)
      && ImageOfChild(spec, e, child, namespaces) == ImageIn(spec, e, child, uri, Local(child.name), scope)
  {
    var uri, scope := ElementNamespace(spec, child, namespaces), InScope(child, namespaces);
    var declared := DeclarationProblems(spec, child.attributes, |child.attributes|);
    var unbound, rest := Unless(uri.Some?, NGIN1002), ProblemsIn(spec, e, child, uri, Local(child.name), scope);
    assert PlacedProblems(spec, e, child, namespaces) == unbound + rest;
    RegroupFour(start, declared, unbound, rest);
    Regroup(declared, unbound, rest);
  }

  /* ---------- whole documents ---------- */

  datatype Manifest = Manifest(kind: DocumentKind, root: Authored)

  // A semantic validator may do anything to the diagnostics.
  type Validator = (Manifest, seq<Diagnostic>) -> seq<Diagnostic>

  function KindFromRoot(local: string): Option<DocumentKind> {
    if local == "Executable" || local == "Library" then Some(Project)
    else if local == "Package" then Some(Package)
    else if local == "Workspace" then Some(Workspace)
    else None
  }

  /** Which root names stand for which kind of document. */
  lemma KindsOfRoots(local: string)
    ensures KindFromRoot(local) == Some(Project) <==> local in {"Executable", "Library"}
    ensures KindFromRoot(local) == Some(Package) <==> local == "Package"
    ensures KindFromRoot(local) == Some(Workspace) <==> local == "Workspace"
  {
  }

  // The namespaces in scope at a document's root.
  function RootScope(spec: Spec, root: Xml): Namespaces {
    InScope(root, map["xml" := spec.xml, "xmlns" := spec.xmlns])
  }

  function RootNamespace(spec: Spec, root: Xml): Option<string> {
    Resolve(spec, SplitName(root.name), RootScope(spec, root), false)
  }

  /** The namespace of a document's root, by its prefix: that of the last declaration
      the root itself makes for it, one of the two reserved ones, or none. */
  lemma RootNamespaceExactly(spec: Spec, root: Xml, prefix: string, local: string, k: nat)
    requires SpecOk(spec) && ':' !in prefix && LastBinding(root.attributes, prefix, |root.attributes|, k)
    requires root.name == prefix + ":" + local || (prefix == "" && ':' !in local && root.name == local)
    ensures RootNamespace(spec, root) ==
            if prefix == "xml" then Some("http://www.w3.org/XML/1998/namespace")
            else if k < |root.attributes| then Some(root.attributes[k].value)
            else if prefix == "xmlns" then Some("http://www.w3.org/2000/xmlns/")
            else if prefix == "" then Some("")
            else None
  {
    ReservedAre(spec);
    NamespaceExactly(spec, root, map["xml" := spec.xml, "xmlns" := spec.xmlns], prefix, local, k);
  }

  function RootNamed(spec: Spec, ids: seq<string>, local: string): (r: Option<ElementSpec>)
    requires forall id :: id in ids ==> Registered(spec, id)
    ensures r.Some? ==> r.value in spec.elements && r.value.name == local && r.value.id in ids
  {
    if ids == [] then None
    else if Element(spec, ids[0]).name == local then Some(Element(spec, ids[0]))
    else RootNamed(spec, ids[1..], local)
  }

  function DocumentOf(spec: Spec, kind: DocumentKind): DocumentSpec
    requires SpecOk(spec)
  {
    RootsRegistered(spec, kind);
    spec.documents[kind]
  }

  function RootOfKind(spec: Spec, kind: DocumentKind, local: string): (r: Option<ElementSpec>)
    requires SpecOk(spec)
    ensures r.Some? ==> r.value in spec.elements && r.value.name == local
  {
    RootsRegistered(spec, kind);
    RootNamed(spec, spec.documents[kind].roots, local)
  }

  // The kind and the root specification of a document whose root is acceptable.
  function RootOf(spec: Spec, root: Xml): (r: Option<(DocumentKind, ElementSpec)>)
    requires SpecOk(spec)
    ensures r.Some? ==> r.value.1 in spec.elements
  {
    if RootNamespace(spec, root) != Some("") then None
    else RootOfName(spec, KindFromRoot(Local(root.name)), Local(root.name))
  }

  function RootOfName(spec: Spec, kind: Option<DocumentKind>, local: string): (r: Option<(DocumentKind, ElementSpec)>)
    requires SpecOk(spec)
    ensures r.Some? ==> r.value.1 in spec.elements
  {
    if kind.None? then None
    else
      var e := RootOfKind(spec, kind.value, local);
      if e.None? then None else Some((kind.value, e.value))
  }

  predicate ExtensionOk(spec: Spec, kind: DocumentKind, extension: string)
    requires SpecOk(spec)
  {
    extension == "" || extension == DocumentOf(spec, kind).extension
  }

  // The problems of a document behind those of its root's declarations.
  function RootProblems(spec: Spec, root: Xml, extension: string): Problems
    requires SpecOk(spec)
  {
    var uri := RootNamespace(spec, root);
    if uri.None? then [NGIN1002]
    else if uri.value != "" then [NGIN1001]
    else NamedProblems(spec, root, KindFromRoot(Local(root.name)), RootScope(spec, root), extension)
  }

  function NamedProblems(spec: Spec, root: Xml, kind: Option<DocumentKind>, scope: Namespaces, extension: string)
      : Problems
    requires SpecOk(spec)
  {
    if kind.None? then [NGIN1001]
    else
      var e := RootOfKind(spec, kind.value, Local(root.name));
      Unless(ExtensionOk(spec, kind.value, extension), NGIN1001)
      + if e.None? then [NGIN1001] else ElementProblems(spec, e.value, root, scope)
  }

  function DocumentProblems(spec: Spec, root: Xml, extension: string): Problems
    requires SpecOk(spec)
  {
    DeclarationProblems(spec, root.attributes, |root.attributes|) + RootProblems(spec, root, extension)
  }

  // The document is valid apart from its root's declarations.
  ghost predicate RootOk(spec: Spec, root: Xml, extension: string)
    requires SpecOk(spec)
  {
    && RootOf(spec, root).Some?
    && var (kind, e) := RootOf(spec, root).value;
      && ExtensionOk(spec, kind, extension)
      && Valid(spec, e, root, RootScope(spec, root))
  }

  // The document is valid for a file with the given extension, which may be empty.
  ghost predicate DocumentOk(spec: Spec, root: Xml, extension: string)
    requires SpecOk(spec)
  {
    DeclarationsOk(spec, root.attributes, |root.attributes|) && RootOk(spec, root, extension)
  }

  lemma NoRootProblems(spec: Spec, root: Xml, extension: string)
    requires SpecOk(spec)
    ensures RootProblems(spec, root, extension) == [] <==> RootOk(spec, root, extension)
  {
    if RootOf(spec, root).Some? {
      NoProblems(spec, RootOf(spec, root).value.1, root, RootScope(spec, root));
    }
  }

  /** A document has no problems exactly when it is valid. */
  lemma NoDocumentProblems(spec: Spec, root: Xml, extension: string)
    requires SpecOk(spec)
    ensures DocumentProblems(spec, root, extension) == [] <==> DocumentOk(spec, root, extension)
  {
    NoDeclarationProblems(spec, root.attributes, |root.attributes|);
    NoRootProblems(spec, root, extension);
    Both(DeclarationProblems(spec, root.attributes, |root.attributes|),
         DeclarationsOk(spec, root.attributes, |root.attributes|),
         RootProblems(spec, root, extension), RootOk(spec, root, extension));
  }

  // A root must not be in a namespace.
  method CheckRootNamespace(parser: Parser, root: Xml, namespaces: Namespaces) returns (uri: Option<string>)
    modifies parser`diagnostics
    ensures uri == Resolve(parser.spec, SplitName(root.name), namespaces, false)
    ensures parser.diagnostics ==
            old(parser.diagnostics) + if uri.None? then [NGIN1002] else Unless(uri.value == "", NGIN1001)
  {
    uri := parser.ResolveNamespace(SplitName(root.name), namespaces, false);
    if uri.Some? && uri.value != "" {
      parser.Report(NGIN1001);
    }
  }

  // The root of a document of this kind was parsed behind the diagnostics there were.
  ghost predicate KindRead(spec: Spec, root: Xml, kind: Option<DocumentKind>, scope: Namespaces, extension: string,
                           start: Problems, now: Problems, r: Option<Manifest>)
    requires SpecOk(spec)
  {
    forall s {:trigger Opened(s)} :: Opened(s) ==>
      && now == start + NamedProblems(spec, root, kind, scope, extension)
      && r == ManifestOf(spec, root, RootOfName(spec, kind, Local(root.name)), scope)
  }

  // The manifest of an acceptable root.
  function ManifestOf(spec: Spec, root: Xml, found: Option<(DocumentKind, ElementSpec)>, scope: Namespaces)
      : Option<Manifest>
    requires SpecOk(spec) && (found.Some? ==> found.value.1 in spec.elements)
  {
    if found.None? then None else Some(Manifest(found.value.0, Image(spec, found.value.1, root, scope)))
  }

  method CheckExtension(parser: Parser, kind: DocumentKind, extension: string)
    requires SpecOk(parser.spec)
    modifies parser`diagnostics
    ensures parser.diagnostics ==
            old(parser.diagnostics) + Unless(ExtensionOk(parser.spec, kind, extension), NGIN1001)
  {
    if extension != "" && extension != DocumentOf(parser.spec, kind).extension {
      parser.Report(NGIN1001);
    }
  }

  method ParseKind(parser: Parser, root: Xml, kind: Option<DocumentKind>, namespaces: Namespaces, extension: string)
      returns (r: Option<Manifest>)
    requires SpecOk(parser.spec)
    modifies parser`diagnostics
    ensures KindRead(parser.spec, root, kind, namespaces, extension, old(parser.diagnostics), parser.diagnostics, r)
  {
    if kind.None? {
      parser.Report(NGIN1001);
      return None;
    }
    ghost var start, checked := parser.diagnostics, Unless(ExtensionOk(parser.spec, kind.value, extension), NGIN1001);
    CheckExtension(parser, kind.value, extension);
    RootsRegistered(parser.spec, kind.value);
    var document := parser.spec.documents[kind.value];
    var rootSpec := RootNamed(parser.spec, document.roots, Local(root.name));
    if rootSpec.None? {
      Regroup(start, checked, [NGIN1001]);
      parser.Report(NGIN1001);
      return None;
    }
    Regroup(start, checked, ElementProblems(parser.spec, rootSpec.value, root, namespaces));
    var authored := parser.ParseElement(root, rootSpec.value, namespaces);
    return Some(Manifest(kind.value, authored));
  }

  function Errors(codes: Problems): (r: seq<Diagnostic>)
    ensures |r| == |codes| && forall k :: 0 <= k < |r| ==> r[k] == Diagnostic(true, codes[k])
  {
    seq(|codes|, k requires 0 <= k < |codes| => Diagnostic(true, codes[k]))
  }

  // The root, in this namespace and with a name for this kind, was parsed behind
  // the diagnostics there were.
  ghost predicate RootRead(spec: Spec, root: Xml, uri: Option<string>, kind: Option<DocumentKind>, scope: Namespaces,
                           extension: string, start: Problems, now: Problems, r: Option<Manifest>)
    requires SpecOk(spec)
  {
    forall s {:trigger Opened(s)} :: Opened(s) ==>
      if uri == Some("") then KindRead(spec, root, kind, scope, extension, start, now, r)
      else now == start + [if uri.None? then NGIN1002 else NGIN1001] && r == None
  }

  // What the parser makes of the root, once the namespaces in its scope are known.
  method ParseRoot(parser: Parser, root: Xml, kind: Option<DocumentKind>, namespaces: Namespaces, extension: string)
      returns (r: Option<Manifest>, ghost uri: Option<string>)
    requires SpecOk(parser.spec)
    modifies parser`diagnostics
    ensures uri == Resolve(parser.spec, SplitName(root.name), namespaces, false)
    ensures RootRead(parser.spec, root, uri, kind, namespaces, extension,
                     old(parser.diagnostics), parser.diagnostics, r)
  {
    ghost var start := parser.diagnostics;
    var resolved := CheckRootNamespace(parser, root, namespaces);
    uri := resolved;
    if resolved == Some("") {
      assert start + [] == start;
      r := ParseKind(parser, root, kind, namespaces, extension);
    } else {
      r := None;
    }
  }

  // The parser's result for the document, and its errors.
  method ParseWhole(spec: Spec, root: Xml, extension: string) returns (manifest: Option<Manifest>, codes: Problems)
    requires SpecOk(spec)
    ensures RootRead(spec, root, RootNamespace(spec, root), KindFromRoot(Local(root.name)), RootScope(spec, root),
                     extension, DeclarationProblems(spec, root.attributes, |root.attributes|), codes, manifest)
  {
    var parser := new Parser(spec);
    var namespaces := parser.NamespaceDeclarations(root, map["xml" := spec.xml, "xmlns" := spec.xmlns]);
    assert parser.diagnostics == DeclarationProblems(spec, root.attributes, |root.attributes|);
    ghost var uri;
    manifest, uri := ParseRoot(parser, root, KindFromRoot(Local(root.name)), namespaces, extension);
    codes := parser.diagnostics;
  }

  lemma WholeRead(spec: Spec, root: Xml, extension: string, codes: Problems, r: Option<Manifest>)
    requires SpecOk(spec)
    requires RootRead(spec, root, RootNamespace(spec, root), KindFromRoot(Local(root.name)), RootScope(spec, root),
                      extension, DeclarationProblems(spec, root.attributes, |root.attributes|), codes, r)
    ensures codes == DocumentProblems(spec, root, extension)
    ensures r == ManifestOf(spec, root, RootOf(spec, root), RootScope(spec, root))
  {
    assert Opened(Seal);
  }

  // What the parser makes of the document before the semantic validators run.
  method ParseDocument(spec: Spec, root: Xml, extension: string)
      returns (manifest: Option<Manifest>, diagnostics: seq<Diagnostic>)
    requires SpecOk(spec)
    ensures diagnostics == Errors(DocumentProblems(spec, root, extension))
    ensures manifest.Some? <==> DocumentOk(spec, root, extension)
    ensures manifest.Some? <==> diagnostics == []
    ensures manifest.Some? ==> manifest == ManifestOf(spec, root, RootOf(spec, root), RootScope(spec, root))
  {
    var codes;
    manifest, codes := ParseWhole(spec, root, extension);
    WholeRead(spec, root, extension, codes, manifest);
    diagnostics := Errors(codes);
    ErrorsShown(codes);
    NoDocumentProblems(spec, root, extension);
    if HasError(diagnostics) {
      manifest := None;
    }
  }

  lemma ErrorsShown(codes: Problems)
    ensures HasError(Errors(codes)) <==> codes != []
  {
    if codes != [] {
      assert Errors(codes)[0] in Errors(codes);
    }
  }

  /** A value is yielded exactly when no error is recorded, whatever the
      validators do; the value is then the image of a valid document. Without
      validators it is yielded exactly for valid documents, and the diagnostics
      are the document's problems in order. */
  method ParseAuthoredManifestText(spec: Spec, parsed: Option<Xml>, extension: string, validators: seq<Validator>)
      returns (value: Option<Manifest>, diagnostics: seq<Diagnostic>)
    requires SpecOk(spec)
    ensures value.Some? <==> !HasError(diagnostics)
    ensures value.Some? ==> parsed.Some? && DocumentOk(spec, parsed.value, extension)
    ensures value.Some? ==>
              var (kind, e) := RootOf(spec, parsed.value).value;
              value.value == Manifest(kind, Image(spec, e, parsed.value, RootScope(spec, parsed.value)))
              && Conforms(spec, e, value.value.root)
    ensures parsed.None? ==> diagnostics == [Diagnostic(true, NGIN1000)]
    ensures parsed.Some? && !DocumentOk(spec, parsed.value, extension) ==>
              diagnostics == Errors(DocumentProblems(spec, parsed.value, extension))
    ensures parsed.Some? && DocumentOk(spec, parsed.value, extension) ==>
              var (kind, e) := RootOf(spec, parsed.value).value;
              var manifest := Manifest(kind, Image(spec, e, parsed.value, RootScope(spec, parsed.value)));
              diagnostics == Validated(manifest, validators)
  {
    if parsed.None? {
      diagnostics := [Diagnostic(true, NGIN1000)];
      assert diagnostics[0] in diagnostics;
      return None, diagnostics;
    }
    value, diagnostics := ParseDocument(spec, parsed.value, extension);
    if value.None? {
      assert diagnostics[0] in diagnostics;
      return;
    }
    ghost var e := RootOf(spec, parsed.value).value.1;
    ImageConforms(spec, e, parsed.value, RootScope(spec, parsed.value));
    for k := 0 to |validators|
      invariant diagnostics == Validated(value.value, validators[..k])
    {
      assert validators[..k + 1][..k] == validators[..k];
      diagnostics := validators[k](value.value, diagnostics);
    }
    assert validators[..|validators|] == validators;
    if HasError(diagnostics) {
      value := None;
    }
  }

  // The diagnostics after the validators have run in turn.
  function Validated(m: Manifest, validators: seq<Validator>): seq<Diagnostic> {
    if validators == [] then []
    else validators[|validators| - 1](m, Validated(m, validators[..|validators| - 1]))
  }
}
