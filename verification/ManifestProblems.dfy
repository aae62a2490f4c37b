/**
 The diagnostics of a manifest, in order: there are none exactly for valid
 documents, and each code says what is wrong.
 */
module ManifestProblems {
  import opened Common
  import opened CharacterClasses
  import opened ManifestSchema

  // The codes of diagnostics; Other stands for those of semantic validators.
  datatype Code =
    | NGIN1000
    | NGIN1001
    | NGIN1002
    | NGIN1003
    | NGIN1004
    | NGIN1005
    | NGIN1006
    | NGIN1007
    | NGIN1008
    | NGIN1009
    | Other(name: string)

  // The errors of the parser, in the order of their reports.
  type Problems = seq<Code>

  function Unless(ok: bool, code: Code): Problems {
    if ok then [] else [code]
  }

  /* ---------- reports of one item after the other ---------- */

  function Gathered<T>(report: T -> Problems, items: seq<T>, n: nat): Problems
    requires n <= |items|
  {
    if n == 0 then [] else Gathered(report, items, n - 1) + report(items[n - 1])
  }

  // One more item, behind the diagnostics there are.
  lemma GatheredNext<T>(start: Problems, report: T -> Problems, items: seq<T>, n: nat)
    requires n < |items|
    ensures start + Gathered(report, items, n + 1) == start + Gathered(report, items, n) + report(items[n])
  {
    Regroup(start, Gathered(report, items, n), report(items[n]));
  }

  lemma {:induction false} GatheredCode<T>(report: T -> Problems, items: seq<T>, n: nat, code: Code)
    requires n <= |items|
    ensures code in Gathered(report, items, n) <==> exists k :: 0 <= k < n && code in report(items[k])
  {
    if n > 0 {
      GatheredCode(report, items, n - 1, code);
    }
  }

  lemma {:induction false} GatheredNone<T>(report: T -> Problems, items: seq<T>, n: nat)
    requires n <= |items|
    ensures Gathered(report, items, n) == [] <==> forall k :: 0 <= k < n ==> report(items[k]) == []
  {
    if n > 0 {
      GatheredNone(report, items, n - 1);
    }
  }

  /* ---------- attributes ---------- */

  function DeclarationProblems(spec: Spec, attributes: seq<Attribute>, n: nat): Problems
    requires n <= |attributes|
  {
    Gathered(a => Unless(DeclarationOk(spec, a), NGIN1002), attributes, n)
  }

  function AttributeProblems(e: ElementSpec, namespaces: Namespaces, a: Attribute): Problems {
    if IsDeclaration(a.name) then []
    else
      var inside := InNamespace(SplitName(a.name), namespaces);
      if inside.None? then [NGIN1002]
      else
        var found := AttributeNamed(e.attributes, Local(a.name));
        if inside.value || found.None? then [NGIN1004]
        else Unless(Admits(found.value, a.value), NGIN1007)
  }

  function AttributesProblems(e: ElementSpec, namespaces: Namespaces, attributes: seq<Attribute>, n: nat): Problems
    requires n <= |attributes|
  {
    Gathered(a => AttributeProblems(e, namespaces, a), attributes, n)
  }

  function RequiredProblems(e: ElementSpec, attributes: seq<Attribute>, n: nat): Problems
    requires n <= |e.attributes|
  {
    Gathered((s: AttributeSpec) => Unless(Found(s, attributes), NGIN1005), e.attributes, n)
  }

  /* ---------- children and text ---------- */

  function BoundsProblems(c: ChildSpec, count: nat): Problems {
    Unless(c.minimum <= count, NGIN1006) + Unless(c.maximum.Some? ==> count <= c.maximum.value, NGIN1006)
  }

  function KindProblems(c: ChildSpec, children: seq<Authored>): Problems {
    BoundsProblems(c, Count(children, c.elementId))
  }

  function CountProblems(e: ElementSpec, children: seq<Authored>, n: nat): Problems
    requires n <= |e.children|
  {
    Gathered(c => KindProblems(c, children), e.children, n)
  }

  function TextProblems(e: ElementSpec, text: string): Problems {
    Unless(TextOk(e, text), NGIN1008)
  }

  // Under an element of kind e: the child's declarations, and what follows them.
  function ChildProblems(spec: Spec, e: ElementSpec, child: Xml, namespaces: Namespaces): Problems
    requires SpecOk(spec) && e in spec.elements
    decreases child, |child.children| + 3
  {
    DeclarationProblems(spec, child.attributes, |child.attributes|) + PlacedProblems(spec, e, child, namespaces)
  }

  // The child's name, its place, and the child itself.
  function PlacedProblems(spec: Spec, e: ElementSpec, child: Xml, namespaces: Namespaces): Problems
    requires SpecOk(spec) && e in spec.elements
    decreases child, |child.children| + 2
  {
    var uri := ElementNamespace(spec, child, namespaces);
    var s := SpecOfChild(spec, e, child, namespaces);
    if uri.None? then [NGIN1002]
    else if PassedOver(spec, child, namespaces) then []
    else if s.None? then [if uri.value == "" then NGIN1003 else NGIN1009]
    else ElementProblems(spec, s.value, child, InScope(child, namespaces))
  }

  function NodeProblems(spec: Spec, e: ElementSpec, xml: Xml, namespaces: Namespaces, k: nat): Problems
    requires SpecOk(spec) && e in spec.elements && k < |xml.children|
    decreases xml, 0
  {
    if xml.children[k].ElementNode? then ChildProblems(spec, e, xml.children[k].element, namespaces) else []
  }

  function NodesProblems(spec: Spec, e: ElementSpec, xml: Xml, namespaces: Namespaces, n: nat): Problems
    requires SpecOk(spec) && e in spec.elements && n <= |xml.children|
    decreases xml, n
  {
    if n == 0 then []
    else NodesProblems(spec, e, xml, namespaces, n - 1) + NodeProblems(spec, e, xml, namespaces, n - 1)
  }

  // What an element itself gets wrong, before its children and after them.
  function HeadProblems(e: ElementSpec, xml: Xml, namespaces: Namespaces): Problems {
    AttributesProblems(e, namespaces, xml.attributes, |xml.attributes|)
    + RequiredProblems(e, ImageAttributes(e, namespaces, xml.attributes, |xml.attributes|), |e.attributes|)
  }

  function TailProblems(e: ElementSpec, text: string, children: seq<Authored>): Problems {
    TextProblems(e, text) + CountProblems(e, children, |e.children|)
  }

  function ElementProblems(spec: Spec, e: ElementSpec, xml: Xml, namespaces: Namespaces): Problems
    requires SpecOk(spec) && e in spec.elements
    decreases xml, |xml.children| + 1
  {
    var image := Image(spec, e, xml, namespaces);
    HeadProblems(e, xml, namespaces) + NodesProblems(spec, e, xml, namespaces, |xml.children|)
    + TailProblems(e, image.text, image.children)
  }

  /* ---------- none exactly for valid elements ---------- */

  lemma BothEmpty(a: Problems, b: Problems)
    ensures a + b == [] <==> a == [] && b == []
  {
  }

  // Two lists that are empty exactly when p and q hold make one that is empty exactly when both do.
  lemma Both(a: Problems, p: bool, b: Problems, q: bool)
    requires (a == [] <==> p) && (b == [] <==> q)
    ensures a + b == [] <==> p && q
  {
  }

  lemma NoDeclarationProblems(spec: Spec, attributes: seq<Attribute>, n: nat)
    requires n <= |attributes|
    ensures DeclarationProblems(spec, attributes, n) == [] <==> DeclarationsOk(spec, attributes, n)
  {
    GatheredNone(a => Unless(DeclarationOk(spec, a), NGIN1002), attributes, n);
  }

  lemma NoAttributeProblems(e: ElementSpec, namespaces: Namespaces, attributes: seq<Attribute>, n: nat)
    requires n <= |attributes|
    ensures AttributesProblems(e, namespaces, attributes, n) == [] <==> AttributesOk(e, namespaces, attributes, n)
  {
    GatheredNone(a => AttributeProblems(e, namespaces, a), attributes, n);
    forall k | 0 <= k < n
      ensures AttributeProblems(e, namespaces, attributes[k]) == [] <==> AttributeOk(e, namespaces, attributes[k])
    {
      NoProblemsOfOne(e, namespaces, attributes[k]);
    }
  }

  lemma NoProblemsOfOne(e: ElementSpec, namespaces: Namespaces, a: Attribute)
    ensures AttributeProblems(e, namespaces, a) == [] <==> AttributeOk(e, namespaces, a)
  {
    AttributeOkIs(e, namespaces, a);
  }

  lemma NoRequiredProblems(e: ElementSpec, attributes: seq<Attribute>, n: nat)
    requires n <= |e.attributes|
    ensures RequiredProblems(e, attributes, n) == [] <==> RequiredOk(e, attributes, n)
  {
    GatheredNone((s: AttributeSpec) => Unless(Found(s, attributes), NGIN1005), e.attributes, n);
  }

  lemma NoKindProblems(c: ChildSpec, children: seq<Authored>)
    ensures KindProblems(c, children) == [] <==> CountOk(c, children)
  {
    var count := Count(children, c.elementId);
    BothEmpty(Unless(c.minimum <= count, NGIN1006),
              Unless(c.maximum.Some? ==> count <= c.maximum.value, NGIN1006));
  }

  lemma NoCountProblems(e: ElementSpec, children: seq<Authored>, n: nat)
    requires n <= |e.children|
    ensures CountProblems(e, children, n) == [] <==> CountsOk(e, children, n)
  {
    GatheredNone(c => KindProblems(c, children), e.children, n);
    forall k | 0 <= k < n
      ensures KindProblems(e.children[k], children) == [] <==> CountOk(e.children[k], children)
    {
      NoKindProblems(e.children[k], children);
    }
  }

  lemma {:induction false} NoChildProblems(spec: Spec, e: ElementSpec, child: Xml, namespaces: Namespaces)
    requires SpecOk(spec) && e in spec.elements
    ensures ChildProblems(spec, e, child, namespaces) == [] <==> ElementOk(spec, e, child, namespaces)
    decreases child, |child.children| + 2
  {
    NoDeclarationProblems(spec, child.attributes, |child.attributes|);
    var s := SpecOfChild(spec, e, child, namespaces);
    if s.Some? && !PassedOver(spec, child, namespaces) {
      NoProblems(spec, s.value, child, InScope(child, namespaces));
    }
  }

  lemma {:induction false} NoNodeProblems(spec: Spec, e: ElementSpec, xml: Xml, namespaces: Namespaces, k: nat)
    requires SpecOk(spec) && e in spec.elements && k < |xml.children|
    ensures NodeProblems(spec, e, xml, namespaces, k) == [] <==> ChildOk(spec, e, xml, namespaces, k)
    decreases xml, 0
  {
    if xml.children[k].ElementNode? {
      NoChildProblems(spec, e, xml.children[k].element, namespaces);
    }
  }

  lemma {:induction false} NoNodesProblems(spec: Spec, e: ElementSpec, xml: Xml, namespaces: Namespaces, n: nat)
    requires SpecOk(spec) && e in spec.elements && n <= |xml.children|
    ensures NodesProblems(spec, e, xml, namespaces, n) == [] <==> ChildrenOk(spec, e, xml, namespaces, n)
    decreases xml, n
  {
    if n > 0 {
      NoNodesProblems(spec, e, xml, namespaces, n - 1);
      NoNodeProblems(spec, e, xml, namespaces, n - 1);
      Both(NodesProblems(spec, e, xml, namespaces, n - 1), ChildrenOk(spec, e, xml, namespaces, n - 1),
           NodeProblems(spec, e, xml, namespaces, n - 1), ChildOk(spec, e, xml, namespaces, n - 1));
    }
  }

  /** An element has no problems exactly when it and everything below it obeys the schema. */
  lemma {:induction false} NoProblems(spec: Spec, e: ElementSpec, xml: Xml, namespaces: Namespaces)
    requires SpecOk(spec) && e in spec.elements
    ensures ElementProblems(spec, e, xml, namespaces) == [] <==> Valid(spec, e, xml, namespaces)
    decreases xml, |xml.children| + 1
  {
    var image := Image(spec, e, xml, namespaces);
    NoAttributeProblems(e, namespaces, xml.attributes, |xml.attributes|);
    NoRequiredProblems(e, image.attributes, |e.attributes|);
    NoNodesProblems(spec, e, xml, namespaces, |xml.children|);
    NoCountProblems(e, image.children, |e.children|);
  }

  /* ---------- what the codes say ---------- */

  // What is wrong with an attribute: its prefix is unbound, it is in a namespace
  // or unknown, or its value is not admitted.
  ghost predicate Wrong(spec: Spec, e: ElementSpec, namespaces: Namespaces, a: Attribute, code: Code) {
    var uri, local := Resolve(spec, SplitName(a.name), namespaces, true), Local(a.name);
    var known := exists s :: s in e.attributes && s.name == local;
    && a.name != "xmlns" && !("xmlns:" <= a.name)
    && match uri
       case None => code == NGIN1002
       case Some(u) =>
         if u != "" || !known then code == NGIN1004
         else code == NGIN1007 && !AttributeConforms(e, Attribute(local, a.value))
  }

  lemma WrongExactly(spec: Spec, e: ElementSpec, namespaces: Namespaces, a: Attribute, code: Code)
    requires SpecOk(spec)
    ensures code in AttributeProblems(e, namespaces, a) <==> Wrong(spec, e, namespaces, a, code)
  {
    InNamespaceExactly(spec, SplitName(a.name), namespaces);
    AttributeConformsExactly(e, e.attributes, Attribute(Local(a.name), a.value));
    assert e.(attributes := e.attributes) == e;
  }

  ghost predicate SomeWrong(spec: Spec, e: ElementSpec, namespaces: Namespaces, attributes: seq<Attribute>,
                            code: Code) {
    exists k :: 0 <= k < |attributes| && Wrong(spec, e, namespaces, attributes[k], code)
  }

  lemma AttributeCodes(spec: Spec, e: ElementSpec, namespaces: Namespaces, attributes: seq<Attribute>, code: Code)
    requires SpecOk(spec)
    ensures code in AttributesProblems(e, namespaces, attributes, |attributes|) <==>
            SomeWrong(spec, e, namespaces, attributes, code)
  {
    GatheredCode(a => AttributeProblems(e, namespaces, a), attributes, |attributes|, code);
    forall k | 0 <= k < |attributes|
      ensures code in AttributeProblems(e, namespaces, attributes[k]) <==>
              Wrong(spec, e, namespaces, attributes[k], code)
    {
      WrongExactly(spec, e, namespaces, attributes[k], code);
    }
  }

  predicate Missing(s: AttributeSpec, attributes: seq<Attribute>) {
    s.required && forall x :: x in attributes ==> x.name != s.name
  }

  lemma RequiredCodes(e: ElementSpec, attributes: seq<Attribute>, code: Code)
    ensures code in RequiredProblems(e, attributes, |e.attributes|) <==>
            code == NGIN1005 && exists k :: 0 <= k < |e.attributes| && Missing(e.attributes[k], attributes)
  {
    GatheredCode((s: AttributeSpec) => Unless(Found(s, attributes), NGIN1005), e.attributes, |e.attributes|, code);
    assert forall s :: Found(s, attributes) <==> !Missing(s, attributes);
  }

  // Too few or too many children of a kind.
  predicate OutOfBounds(c: ChildSpec, children: seq<Authored>) {
    var n := |ChildrenOf(children, c.elementId)|;
    n < c.minimum || (c.maximum != None && n > c.maximum.value)
  }

  lemma CountCodes(e: ElementSpec, children: seq<Authored>, code: Code)
    ensures code in CountProblems(e, children, |e.children|) <==>
            code == NGIN1006 && exists k :: 0 <= k < |e.children| && OutOfBounds(e.children[k], children)
  {
    GatheredCode(c => KindProblems(c, children), e.children, |e.children|, code);
    forall k | 0 <= k < |e.children|
      ensures code in KindProblems(e.children[k], children) <==>
              code == NGIN1006 && OutOfBounds(e.children[k], children)
    {
      KindCodes(e.children[k], children, code);
    }
  }

  lemma KindCodes(c: ChildSpec, children: seq<Authored>, code: Code)
    ensures code in KindProblems(c, children) <==> code == NGIN1006 && OutOfBounds(c, children)
  {
    CountIsSize(children, c.elementId);
  }

  /** Each diagnostic of an element itself says by its code what is wrong with it,
      and everything that is wrong is said. */
  lemma CodesExactly(spec: Spec, e: ElementSpec, xml: Xml, namespaces: Namespaces, image: Authored, code: Code)
    requires SpecOk(spec) && image.attributes == ImageAttributes(e, namespaces, xml.attributes, |xml.attributes|)
    ensures code in HeadProblems(e, xml, namespaces) + TailProblems(e, image.text, image.children) <==>
      || SomeWrong(spec, e, namespaces, xml.attributes, code)
      || (code == NGIN1005 && exists k :: 0 <= k < |e.attributes| && Missing(e.attributes[k], image.attributes))
      || (code == NGIN1006 && exists k :: 0 <= k < |e.children| && OutOfBounds(e.children[k], image.children))
      || (code == NGIN1008 && image.text != "" && !e.allowsText)
  {
    AttributeCodes(spec, e, namespaces, xml.attributes, code);
    RequiredCodes(e, image.attributes, code);
    CountCodes(e, image.children, code);
  }

  /** A child with known declarations: its prefix is unbound, or it is not permitted
      here, or its problems are its own; an element in a reserved namespace has none. */
  lemma ChildCodes(spec: Spec, e: ElementSpec, child: Xml, namespaces: Namespaces)
    requires SpecOk(spec) && e in spec.elements && DeclarationsOk(spec, child.attributes, |child.attributes|)
    requires ScopeKnown(spec, namespaces)
    ensures var uri, s := ElementNamespace(spec, child, namespaces), SpecOfChild(spec, e, child, namespaces);
      var reserved := {"http://www.w3.org/XML/1998/namespace", "http://www.w3.org/2000/xmlns/"};
      && (s.Some? <==> uri.Some? && exists c :: c in e.children && Registered(spec, c.elementId) &&
                                                Fits(spec, c, uri.value, Local(child.name)))
      && ChildProblems(spec, e, child, namespaces) ==
           if uri == None then [NGIN1002]
           else if uri.value in reserved && uri.value !in spec.namespaces then []
           else if s.Some? then ElementProblems(spec, s.value, child, InScope(child, namespaces))
           else [if uri == Some("") then NGIN1003 else NGIN1009]
  {
    NoDeclarationProblems(spec, child.attributes, |child.attributes|);
    PassedOverExactly(spec, child, namespaces);
    var uri := ElementNamespace(spec, child, namespaces);
    ChildrenRegistered(spec, e);
    if uri.Some? {
      FindsPermitted(spec, e.children, uri.value, Local(child.name));
    }
  }

  lemma {:induction false} FindsPermitted(spec: Spec, children: seq<ChildSpec>, uri: string, local: string)
    requires forall c :: c in children ==> Registered(spec, c.elementId)
    ensures FindChild(spec, children, uri, local).Some? <==> exists c :: c in children && Fits(spec, c, uri, local)
  {
    if children != [] {
      FindsPermitted(spec, children[1..], uri, local);
      assert children == [children[0]] + children[1..];
    }
  }
}
