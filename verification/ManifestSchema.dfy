/**
 What a valid manifest is: the schema, namespace resolution, and the image of a
 valid XML tree.
 */
module ManifestSchema {
  import opened Common
  import opened CharacterClasses
  import opened ScalarValues

  /* ---------- XML trees and schemas ---------- */

  datatype Attribute = Attribute(name: string, value: string)

  datatype Xml = Xml(name: string, attributes: seq<Attribute>, children: seq<Node>)

  datatype Node = ElementNode(element: Xml) | TextNode(text: string) | OtherNode

  datatype AttributeSpec = AttributeSpec(name: string, kind: ValueKind, required: bool, allowedValues: seq<string>)

  predicate Admits(s: AttributeSpec, value: string) {
    ValidScalar(s.kind, s.allowedValues, value)
  }

  datatype ChildSpec = ChildSpec(elementId: string, minimum: nat, maximum: Option<nat>)

  datatype ElementSpec = ElementSpec(
    id: string,
    name: string,
    namespaceUri: string,
    attributes: seq<AttributeSpec>,
    children: seq<ChildSpec>,
    allowsText: bool)

  datatype DocumentKind = Project | Package | Workspace

  datatype DocumentSpec = DocumentSpec(extension: string, roots: seq<string>)

  // The schema, and the two namespaces that XML itself reserves.
  datatype Spec = Spec(
    elements: seq<ElementSpec>,
    namespaces: seq<string>,
    documents: map<DocumentKind, DocumentSpec>,
    xml: string,
    xmlns: string)

  // Every element the schema refers to is registered.
  ghost predicate SpecOk(spec: Spec) {
    forall s {:trigger Opened(s)} :: Opened(s) ==>
      && (forall e, c :: e in spec.elements && c in e.children ==> Registered(spec, c.elementId))
      && (forall k: DocumentKind :: k in spec.documents)
      && (forall k: DocumentKind, id :: k in spec.documents && id in spec.documents[k].roots ==> Registered(spec, id))
      && spec.xml == "http://www.w3.org/XML/1998/namespace" && spec.xmlns == "http://www.w3.org/2000/xmlns/"
  }

  lemma ChildrenRegistered(spec: Spec, e: ElementSpec)
    requires SpecOk(spec) && e in spec.elements
    ensures forall c :: c in e.children ==> Registered(spec, c.elementId)
  {
    assert Opened(Seal);
  }

  lemma RootsRegistered(spec: Spec, kind: DocumentKind)
    requires SpecOk(spec)
    ensures kind in spec.documents && forall id :: id in spec.documents[kind].roots ==> Registered(spec, id)
  {
    assert Opened(Seal);
  }

  predicate Registered(spec: Spec, id: string) {
    exists e :: e in spec.elements && e.id == id
  }

  function Element(spec: Spec, id: string): (e: ElementSpec)
    requires Registered(spec, id)
    ensures e in spec.elements && e.id == id
  {
    FirstElement(spec.elements, id)
  }

  function FirstElement(elements: seq<ElementSpec>, id: string): (e: ElementSpec)
    requires exists e :: e in elements && e.id == id
    ensures e in elements && e.id == id
  {
    if elements[0].id == id then elements[0] else FirstElement(elements[1..], id)
  }

  lemma ReservedAre(spec: Spec)
    requires SpecOk(spec)
    ensures spec.xml == "http://www.w3.org/XML/1998/namespace" && spec.xmlns == "http://www.w3.org/2000/xmlns/"
  {
    assert Opened(Seal);
  }

  /* ---------- namespaces ---------- */

  type Namespaces = map<string, string>

  datatype QualifiedName = QualifiedName(prefix: string, local: string)

  function Colon(name: string): (k: nat)
    ensures k <= |name|
    ensures k < |name| ==> name[k] == ':'
    ensures forall i :: 0 <= i < k ==> name[i] != ':'
  {
    if name == "" || name[0] == ':' then 0 else 1 + Colon(name[1..])
  }

  function SplitName(name: string): QualifiedName {
    var k := Colon(name);
    if k == |name| then QualifiedName("", name) else QualifiedName(name[..k], name[k + 1..])
  }

  // The prefix an attribute declares, if it is a namespace declaration.
  function DeclaredPrefix(name: string): Option<string> {
    if name == "xmlns" then Some("")
    else if "xmlns:" <= name then Some(name[6..])
    else None
  }

  predicate IsDeclaration(name: string) {
    DeclaredPrefix(name).Some?
  }

  predicate KnownNamespace(spec: Spec, uri: string) {
    uri == "" || uri == spec.xml || uri == spec.xmlns || uri in spec.namespaces
  }

  predicate DeclarationOk(spec: Spec, a: Attribute) {
    IsDeclaration(a.name) ==> KnownNamespace(spec, a.value)
  }

  // The namespaces in scope after the first n attributes.
  function Declared(attributes: seq<Attribute>, inherited: Namespaces, n: nat): Namespaces
    requires n <= |attributes|
  {
    if n == 0 then inherited
    else
      var a := attributes[n - 1];
      var before := Declared(attributes, inherited, n - 1);
      if IsDeclaration(a.name) then before[DeclaredPrefix(a.name).value := a.value] else before
  }

  function InScope(xml: Xml, inherited: Namespaces): Namespaces {
    Declared(xml.attributes, inherited, |xml.attributes|)
  }

  // None when the prefix is not bound.
  function Resolve(spec: Spec, name: QualifiedName, namespaces: Namespaces, attribute: bool): Option<string> {
    if name.prefix == "" then
      if attribute || "" !in namespaces then Some("") else Some(namespaces[""])
    else if name.prefix == "xml" then Some(spec.xml)
    else if name.prefix in namespaces then Some(namespaces[name.prefix])
    else None
  }

  // Whether an attribute with this name is in a namespace; None when the prefix is not bound.
  function InNamespace(name: QualifiedName, namespaces: Namespaces): Option<bool> {
    if name.prefix == "" then Some(false)
    else if name.prefix == "xml" then Some(true)
    else if name.prefix in namespaces then Some(namespaces[name.prefix] != "")
    else None
  }

  lemma InNamespaceExactly(spec: Spec, name: QualifiedName, namespaces: Namespaces)
    requires SpecOk(spec)
    ensures var uri := Resolve(spec, name, namespaces, true);
      InNamespace(name, namespaces) == if uri.None? then None else Some(uri.value != "")
  {
    ReservedAre(spec);
  }

  function ElementNamespace(spec: Spec, xml: Xml, inherited: Namespaces): Option<string> {
    Resolve(spec, SplitName(xml.name), InScope(xml, inherited), false)
  }

  function Local(name: string): string {
    SplitName(name).local
  }

  /* ---------- what names mean ---------- */

  predicate Plain(name: string) {
    ':' !in name && name != "xmlns"
  }

  lemma {:induction false} ColonAt(prefix: string, rest: string)
    requires ':' !in prefix && (rest != "" ==> rest[0] == ':')
    ensures Colon(prefix + rest) == |prefix|
    decreases |prefix|
  {
    if prefix == "" {
      assert prefix + rest == rest;
    } else {
      assert (prefix + rest)[1..] == prefix[1..] + rest;
      ColonAt(prefix[1..], rest);
    }
  }

  /** The first colon divides a name; a name without one has no prefix. */
  lemma SplitExactly(prefix: string, local: string)
    requires ':' !in prefix
    ensures SplitName(prefix + ":" + local) == QualifiedName(prefix, local)
    ensures SplitName(prefix) == QualifiedName("", prefix)
  {
    ColonAt(prefix, ":" + local);
    assert prefix + ":" + local == prefix + (":" + local);
    ColonAt(prefix, "");
    assert prefix + "" == prefix;
  }

  // An attribute with this name binds the prefix; the empty prefix is that of unprefixed elements.
  predicate Binds(name: string, prefix: string) {
    name == "xmlns:" + prefix || (prefix == "" && name == "xmlns")
  }

  lemma BindsExactly(name: string, prefix: string)
    ensures DeclaredPrefix(name) == Some(prefix) <==> Binds(name, prefix)
  {
    if "xmlns:" <= name {
      assert name == "xmlns:" + name[6..];
    }
    assert ("xmlns:" + prefix)[6..] == prefix;
    assert "xmlns" != "xmlns:" + prefix by {
      assert |"xmlns:" + prefix| > |"xmlns"|;
    }
  }

  // k is the last of the first n attributes that binds the prefix, or n if none does.
  predicate LastBinding(attributes: seq<Attribute>, prefix: string, n: nat, k: nat) {
    && k <= n <= |attributes| && (k < n ==> Binds(attributes[k].name, prefix))
    && forall j :: (if k < n then k + 1 else 0) <= j < n ==> !Binds(attributes[j].name, prefix)
  }

  /** A prefix means what its last declaration says, or else what it meant outside. */
  lemma {:induction false} DeclaredExactly(attributes: seq<Attribute>, inherited: Namespaces, prefix: string,
                                           n: nat, k: nat)
    requires LastBinding(attributes, prefix, n, k)
    ensures var scope := Declared(attributes, inherited, n);
      if k < n then prefix in scope && scope[prefix] == attributes[k].value
      else (prefix in scope <==> prefix in inherited) && (prefix in scope ==> scope[prefix] == inherited[prefix])
  {
    if n > 0 {
      BindsExactly(attributes[n - 1].name, prefix);
      if k != n - 1 {
        DeclaredExactly(attributes, inherited, prefix, n - 1, if k == n then n - 1 else k);
      }
    }
  }

  /** The namespace of an element, by its prefix: bound here, bound outside, or not
      at all; an unprefixed attribute has none. */
  lemma NamespaceExactly(spec: Spec, xml: Xml, inherited: Namespaces, prefix: string, local: string, k: nat)
    requires SpecOk(spec) && ':' !in prefix && LastBinding(xml.attributes, prefix, |xml.attributes|, k)
    requires xml.name == prefix + ":" + local || (prefix == "" && ':' !in local && xml.name == local)
    ensures Local(xml.name) == local
    ensures ElementNamespace(spec, xml, inherited) ==
            if prefix == "xml" then Some("http://www.w3.org/XML/1998/namespace")
            else if k < |xml.attributes| then Some(xml.attributes[k].value)
            else if prefix in inherited then Some(inherited[prefix])
            else if prefix == "" then Some("")
            else None
    ensures Resolve(spec, SplitName(xml.name), InScope(xml, inherited), true) ==
            if prefix == "" then Some("") else ElementNamespace(spec, xml, inherited)
  {
    ReservedAre(spec);
    SplitExactly(prefix, local);
    if ':' !in local {
      SplitExactly(local, "");
    }
    DeclaredExactly(xml.attributes, inherited, prefix, |xml.attributes|, k);
  }

  /* ---------- authored trees ---------- */

  datatype Authored = Authored(
    specId: string,
    name: string,
    namespaceUri: string,
    text: string,
    attributes: seq<Attribute>,
    children: seq<Authored>)

  predicate HasAttribute(attributes: seq<Attribute>, name: string) {
    exists a :: a in attributes && a.name == name
  }

  // The first attribute specification with a name.
  function AttributeNamed(specs: seq<AttributeSpec>, name: string): (r: Option<AttributeSpec>)
    ensures r.Some? ==> r.value in specs && r.value.name == name
    ensures r.None? ==> forall s :: s in specs ==> s.name != name
  {
    if specs == [] then None
    else if specs[0].name == name then Some(specs[0])
    else AttributeNamed(specs[1..], name)
  }

  function Count(children: seq<Authored>, id: string): nat {
    if children == [] then 0
    else Count(children[..|children| - 1], id) + if children[|children| - 1].specId == id then 1 else 0
  }

  predicate WithinBounds(c: ChildSpec, count: nat) {
    c.minimum <= count && (c.maximum.Some? ==> count <= c.maximum.value)
  }

  // Which children are of a kind.
  function ChildrenOf(children: seq<Authored>, id: string): set<nat> {
    set k | 0 <= k < |children| && children[k].specId == id
  }

  lemma {:induction false} CountIsSize(children: seq<Authored>, id: string)
    ensures Count(children, id) == |ChildrenOf(children, id)|
  {
    if children != [] {
      var n := |children| - 1;
      CountIsSize(children[..n], id);
      assert ChildrenOf(children, id) ==
             ChildrenOf(children[..n], id) + if children[n].specId == id then {n} else {};
    }
  }

  // The attribute is known, and the first kind with its name admits its value.
  predicate AttributeConforms(e: ElementSpec, x: Attribute) {
    exists k :: 0 <= k < |e.attributes| && e.attributes[k].name == x.name && Admits(e.attributes[k], x.value) &&
                forall j :: 0 <= j < k ==> e.attributes[j].name != x.name
  }

  lemma {:induction false} AttributeConformsExactly(e: ElementSpec, specs: seq<AttributeSpec>, x: Attribute)
    ensures var s := AttributeNamed(specs, x.name);
      s.Some? && Admits(s.value, x.value) <==> AttributeConforms(e.(attributes := specs), x)
  {
    if specs != [] {
      AttributeConformsExactly(e, specs[1..], x);
      if specs[0].name != x.name {
        AttributeConformsLater(e, specs, x);
      }
    }
  }

  lemma AttributeConformsLater(e: ElementSpec, specs: seq<AttributeSpec>, x: Attribute)
    requires specs != [] && specs[0].name != x.name
    ensures AttributeConforms(e.(attributes := specs), x) <==> AttributeConforms(e.(attributes := specs[1..]), x)
  {
    var rest := specs[1..];
    if AttributeConforms(e.(attributes := specs), x) {
      var k :| 0 <= k < |specs| && specs[k].name == x.name && Admits(specs[k], x.value) &&
               forall j :: 0 <= j < k ==> specs[j].name != x.name;
      assert rest[k - 1] == specs[k] && forall j :: 0 <= j < k - 1 ==> rest[j] == specs[j + 1];
    }
    if AttributeConforms(e.(attributes := rest), x) {
      var k :| 0 <= k < |rest| && rest[k].name == x.name && Admits(rest[k], x.value) &&
               forall j :: 0 <= j < k ==> rest[j].name != x.name;
      assert specs[k + 1] == rest[k];
      forall j | 0 <= j < k + 1
        ensures specs[j].name != x.name
      {
        assert j > 0 ==> specs[j] == rest[j - 1];
      }
    }
  }

  // The authored tree obeys the schema at every node.
  ghost predicate Conforms(spec: Spec, e: ElementSpec, a: Authored)
    decreases a, 0
  {
    && a.specId == e.id && a.name == e.name && a.namespaceUri == e.namespaceUri
    && (forall x :: x in a.attributes ==> AttributeConforms(e, x))
    && (forall s :: s in e.attributes && s.required ==> HasAttribute(a.attributes, s.name))
    && (forall c :: c in e.children ==>
          var n := |ChildrenOf(a.children, c.elementId)|;
          c.minimum <= n && (c.maximum.Some? ==> n <= c.maximum.value))
    && Trim(a.text) == a.text && (a.text != "" ==> e.allowsText)
    && (forall k :: 0 <= k < |a.children| ==> ChildConforms(spec, e, a.children[k]))
  }

  // The child is of a permitted kind and conforms to it.
  ghost predicate ChildConforms(spec: Spec, e: ElementSpec, a: Authored)
    decreases a, 1
  {
    && (exists c :: c in e.children && c.elementId == a.specId)
    && Registered(spec, a.specId)
    && Conforms(spec, Element(spec, a.specId), a)
  }

  /* ---------- valid documents and their images ---------- */

  // The kind of child has this name.
  predicate Fits(spec: Spec, c: ChildSpec, uri: string, local: string)
    requires Registered(spec, c.elementId)
  {
    var e := Element(spec, c.elementId);
    e.namespaceUri == uri && e.name == local
  }

  function FindChild(spec: Spec, children: seq<ChildSpec>, uri: string, local: string): (r: Option<ElementSpec>)
    requires forall c :: c in children ==> Registered(spec, c.elementId)
    ensures r.Some? ==> (exists c :: c in children && c.elementId == r.value.id) && Registered(spec, r.value.id)
    ensures r.Some? ==> Element(spec, r.value.id) == r.value && r.value in spec.elements
    ensures r.Some? ==> r.value.namespaceUri == uri && r.value.name == local
  {
    if children == [] then None
    else if Fits(spec, children[0], uri, local) then Some(Element(spec, children[0].elementId))
    else FindChild(spec, children[1..], uri, local)
  }

  /** The search finds the first permitted kind that fits, and nothing when
      none does: k is its position, or the number of kinds. */
  lemma {:induction false} FindChildFirst(spec: Spec, children: seq<ChildSpec>, uri: string, local: string, k: nat)
    requires k <= |children| && forall c :: c in children ==> Registered(spec, c.elementId)
    requires forall j :: 0 <= j < k ==> !Fits(spec, children[j], uri, local)
    requires k < |children| ==> Fits(spec, children[k], uri, local)
    ensures FindChild(spec, children, uri, local) ==
            if k == |children| then None else Some(Element(spec, children[k].elementId))
  {
    if k > 0 {
      var rest := children[1..];
      forall j | 0 <= j < k - 1
        ensures !Fits(spec, rest[j], uri, local)
      {
        assert rest[j] == children[j + 1];
      }
      FindChildFirst(spec, rest, uri, local, k - 1);
    }
  }

  ghost predicate AttributeOk(e: ElementSpec, namespaces: Namespaces, a: Attribute) {
    forall s {:trigger Opened(s)} :: Opened(s) ==> GoodAttribute(e, namespaces, a)
  }

  // A declaration, or a known attribute in no namespace with a value that is admitted.
  predicate GoodAttribute(e: ElementSpec, namespaces: Namespaces, a: Attribute) {
    IsDeclaration(a.name) ||
    (InNamespace(SplitName(a.name), namespaces) == Some(false) &&
     var s := AttributeNamed(e.attributes, Local(a.name)); s.Some? && Admits(s.value, a.value))
  }

  lemma AttributeOkIs(e: ElementSpec, namespaces: Namespaces, a: Attribute)
    ensures AttributeOk(e, namespaces, a) <==> GoodAttribute(e, namespaces, a)
  {
    assert Opened(Seal);
  }

  // What an attribute becomes: declarations, attributes in a namespace and unknown ones are dropped.
  function Kept(e: ElementSpec, namespaces: Namespaces, a: Attribute): seq<Attribute> {
    if IsDeclaration(a.name) || InNamespace(SplitName(a.name), namespaces) != Some(false) ||
       AttributeNamed(e.attributes, Local(a.name)).None? then []
    else [Attribute(Local(a.name), a.value)]
  }

  function ImageAttributes(e: ElementSpec, namespaces: Namespaces, attributes: seq<Attribute>, n: nat): seq<Attribute>
    requires n <= |attributes|
  {
    if n == 0 then []
    else ImageAttributes(e, namespaces, attributes, n - 1) + Kept(e, namespaces, attributes[n - 1])
  }

  lemma NextAttribute(e: ElementSpec, namespaces: Namespaces, all: seq<Attribute>, n: nat)
    requires n < |all|
    ensures ImageAttributes(e, namespaces, all, n + 1) ==
            ImageAttributes(e, namespaces, all, n) + Kept(e, namespaces, all[n])
  {
  }

  // Elements of a namespace that is not registered are passed over.
  predicate PassedOver(spec: Spec, xml: Xml, inherited: Namespaces) {
    var uri := ElementNamespace(spec, xml, inherited);
    uri.Some? && uri.value != "" && uri.value !in spec.namespaces
  }

  function Text(children: seq<Node>, n: nat): string
    requires n <= |children|
  {
    if n == 0 then ""
    else Text(children, n - 1) + if children[n - 1].TextNode? then children[n - 1].text else ""
  }

  function SpecOfChild(spec: Spec, e: ElementSpec, xml: Xml, inherited: Namespaces): (r: Option<ElementSpec>)
    requires SpecOk(spec) && e in spec.elements
    ensures r.Some? ==> r.value in spec.elements
  {
    var uri := ElementNamespace(spec, xml, inherited);
    if uri.None? then None
    else ChildrenRegistered(spec, e); FindChild(spec, e.children, uri.value, Local(xml.name))
  }

  // The authored tree of an element; children that are passed over or not permitted have no image.
  function Image(spec: Spec, e: ElementSpec, xml: Xml, namespaces: Namespaces): Authored
    requires SpecOk(spec) && e in spec.elements
    decreases xml, |xml.children| + 1
  {
    Authored(e.id, e.name, e.namespaceUri, Trim(Text(xml.children, |xml.children|)),
             ImageAttributes(e, namespaces, xml.attributes, |xml.attributes|),
             ImageChildren(spec, e, xml, namespaces, |xml.children|))
  }

  function ImageChildren(spec: Spec, e: ElementSpec, xml: Xml, namespaces: Namespaces, n: nat): seq<Authored>
    requires SpecOk(spec) && e in spec.elements && n <= |xml.children|
    decreases xml, n
  {
    if n == 0 then []
    else
      ImageChildren(spec, e, xml, namespaces, n - 1)
      + if xml.children[n - 1].ElementNode? then ImageOfChild(spec, e, xml.children[n - 1].element, namespaces) else []
  }

  function ImageOfChild(spec: Spec, e: ElementSpec, child: Xml, namespaces: Namespaces): (r: seq<Authored>)
    requires SpecOk(spec) && e in spec.elements
    ensures |r| <= 1
    decreases child, |child.children| + 2
  {
    var s := SpecOfChild(spec, e, child, namespaces);
    if PassedOver(spec, child, namespaces) || s.None? then []
    else [Image(spec, s.value, child, InScope(child, namespaces))]
  }

  predicate DeclarationsOk(spec: Spec, attributes: seq<Attribute>, n: nat)
    requires n <= |attributes|
  {
    forall k :: 0 <= k < n ==> DeclarationOk(spec, attributes[k])
  }

  ghost predicate AttributesOk(e: ElementSpec, namespaces: Namespaces, attributes: seq<Attribute>, n: nat)
    requires n <= |attributes|
  {
    forall k :: 0 <= k < n ==> AttributeOk(e, namespaces, attributes[k])
  }

  predicate Found(s: AttributeSpec, attributes: seq<Attribute>) {
    s.required ==> HasAttribute(attributes, s.name)
  }

  // The first n attribute specifications find their required attributes.
  predicate RequiredOk(e: ElementSpec, attributes: seq<Attribute>, n: nat)
    requires n <= |e.attributes|
  {
    forall k :: 0 <= k < n ==> Found(e.attributes[k], attributes)
  }

  predicate CountOk(c: ChildSpec, children: seq<Authored>) {
    WithinBounds(c, Count(children, c.elementId))
  }

  // The first n child specifications find the right number of children.
  predicate CountsOk(e: ElementSpec, children: seq<Authored>, n: nat)
    requires n <= |e.children|
  {
    forall k :: 0 <= k < n ==> CountOk(e.children[k], children)
  }

  predicate TextOk(e: ElementSpec, text: string) {
    e.allowsText || text == ""
  }

  // A child element is well formed under an element of kind e.
  ghost predicate ElementOk(spec: Spec, e: ElementSpec, child: Xml, namespaces: Namespaces)
    requires SpecOk(spec) && e in spec.elements
    decreases child, 3
  {
    && DeclarationsOk(spec, child.attributes, |child.attributes|)
    && ElementNamespace(spec, child, namespaces).Some?
    && (PassedOver(spec, child, namespaces) ||
        var s := SpecOfChild(spec, e, child, namespaces);
        s.Some? && Valid(spec, s.value, child, InScope(child, namespaces)))
  }

  ghost predicate ChildOk(spec: Spec, e: ElementSpec, xml: Xml, namespaces: Namespaces, k: nat)
    requires SpecOk(spec) && e in spec.elements && k < |xml.children|
    decreases xml, 0
  {
    xml.children[k].ElementNode? ==> ElementOk(spec, e, xml.children[k].element, namespaces)
  }

  ghost predicate ChildrenOk(spec: Spec, e: ElementSpec, xml: Xml, namespaces: Namespaces, n: nat)
    requires SpecOk(spec) && e in spec.elements && n <= |xml.children|
    decreases xml, 1
  {
    forall k :: 0 <= k < n ==> ChildOk(spec, e, xml, namespaces, k)
  }

  // The element and everything below it obeys the schema.
  ghost predicate Valid(spec: Spec, e: ElementSpec, xml: Xml, namespaces: Namespaces)
    requires SpecOk(spec) && e in spec.elements
    decreases xml, 2
  {
    var image := Image(spec, e, xml, namespaces);
    && AttributesOk(e, namespaces, xml.attributes, |xml.attributes|)
    && RequiredOk(e, image.attributes, |e.attributes|)
    && ChildrenOk(spec, e, xml, namespaces, |xml.children|)
    && TextOk(e, image.text)
    && CountsOk(e, image.children, |e.children|)
  }

  /** The image of a valid element conforms to the schema at every node. */
  lemma {:induction false} ImageConforms(spec: Spec, e: ElementSpec, xml: Xml, namespaces: Namespaces)
    requires SpecOk(spec) && e in spec.elements && Valid(spec, e, xml, namespaces)
    ensures Conforms(spec, e, Image(spec, e, xml, namespaces))
    decreases xml, |xml.children| + 1
  {
    var image := Image(spec, e, xml, namespaces);
    AttributesConform(e, xml, namespaces, |xml.attributes|);
    ChildrenConform(spec, e, xml, namespaces, |xml.children|);
    TrimTwice(Text(xml.children, |xml.children|));
    forall c | c in e.children
      ensures WithinBounds(c, |ChildrenOf(image.children, c.elementId)|)
    {
      var k :| 0 <= k < |e.children| && e.children[k] == c;
      CountIsSize(image.children, c.elementId);
    }
    forall s | s in e.attributes && s.required
      ensures HasAttribute(image.attributes, s.name)
    {
      var k :| 0 <= k < |e.attributes| && e.attributes[k] == s;
    }
    assert image.children == ImageChildren(spec, e, xml, namespaces, |xml.children|);
    assert image.attributes == ImageAttributes(e, namespaces, xml.attributes, |xml.attributes|);
  }

  lemma {:induction false} AttributesConform(e: ElementSpec, xml: Xml, namespaces: Namespaces, n: nat)
    requires n <= |xml.attributes| && AttributesOk(e, namespaces, xml.attributes, n)
    ensures forall x :: x in ImageAttributes(e, namespaces, xml.attributes, n) ==> AttributeConforms(e, x)
  {
    if n > 0 {
      var a := xml.attributes[n - 1];
      AttributesConform(e, xml, namespaces, n - 1);
      AttributeOkIs(e, namespaces, a);
      assert e.(attributes := e.attributes) == e;
      AttributeConformsExactly(e, e.attributes, Attribute(Local(a.name), a.value));
    }
  }

  lemma {:induction false} ChildrenConform(spec: Spec, e: ElementSpec, xml: Xml, namespaces: Namespaces, n: nat)
    requires SpecOk(spec) && e in spec.elements && n <= |xml.children|
    requires ChildrenOk(spec, e, xml, namespaces, n)
    ensures forall k :: 0 <= k < |ImageChildren(spec, e, xml, namespaces, n)| ==>
              ChildConforms(spec, e, ImageChildren(spec, e, xml, namespaces, n)[k])
    decreases xml, n
  {
    if n > 0 {
      ChildrenConform(spec, e, xml, namespaces, n - 1);
      assert ChildOk(spec, e, xml, namespaces, n - 1);
      if xml.children[n - 1].ElementNode? {
        ChildConform(spec, e, xml.children[n - 1].element, namespaces);
      }
    }
  }

  lemma {:induction false} ChildConform(spec: Spec, e: ElementSpec, child: Xml, namespaces: Namespaces)
    requires SpecOk(spec) && e in spec.elements && ElementOk(spec, e, child, namespaces)
    ensures forall k :: 0 <= k < |ImageOfChild(spec, e, child, namespaces)| ==>
              ChildConforms(spec, e, ImageOfChild(spec, e, child, namespaces)[k])
    decreases child, |child.children| + 2
  {
    if !PassedOver(spec, child, namespaces) {
      var s := SpecOfChild(spec, e, child, namespaces).value;
      ImageConforms(spec, s, child, InScope(child, namespaces));
    }
  }

  /* ---------- what is passed over ---------- */

  // All namespaces in scope are known.
  ghost predicate ScopeKnown(spec: Spec, namespaces: Namespaces) {
    forall p :: p in namespaces ==> KnownNamespace(spec, namespaces[p])
  }

  lemma {:induction false} DeclaredKnown(spec: Spec, attributes: seq<Attribute>, inherited: Namespaces, n: nat)
    requires n <= |attributes| && ScopeKnown(spec, inherited)
    requires DeclarationsOk(spec, attributes, n)
    ensures ScopeKnown(spec, Declared(attributes, inherited, n))
  {
    if n > 0 {
      DeclaredKnown(spec, attributes, inherited, n - 1);
    }
  }

  /** A child is silently passed over, in a scope of known namespaces and with
      known declarations, exactly when it lies in one of the two namespaces
      reserved by XML and that one is not registered. */
  lemma PassedOverExactly(spec: Spec, xml: Xml, inherited: Namespaces)
    requires SpecOk(spec) && ScopeKnown(spec, inherited) && DeclarationsOk(spec, xml.attributes, |xml.attributes|)
    ensures PassedOver(spec, xml, inherited) <==>
      var uri := ElementNamespace(spec, xml, inherited);
      && uri in {Some("http://www.w3.org/XML/1998/namespace"), Some("http://www.w3.org/2000/xmlns/")}
      && uri.value !in spec.namespaces
  {
    DeclaredKnown(spec, xml.attributes, inherited, |xml.attributes|);
    ReservedAre(spec);
  }
}
