/** Every manifest that conforms to the schema can be written, and is parsed as itself. */
module ManifestWriter {
  import opened Common
  import opened CharacterClasses
  import opened ManifestSchema
  import opened AuthoredManifest

  // An element declares its own namespace and holds its text before its children.
  function Written(a: Authored): Xml
    decreases a, |a.children| + 1
  {
    Xml(a.name, [Attribute("xmlns", a.namespaceUri)] + a.attributes,
        [TextNode(a.text)] + WrittenChildren(a, |a.children|))
  }

  function WrittenChildren(a: Authored, n: nat): (r: seq<Node>)
    requires n <= |a.children|
    ensures |r| == n
    decreases a, n
  {
    if n == 0 then [] else WrittenChildren(a, n - 1) + [ElementNode(Written(a.children[n - 1]))]
  }

  // Names without prefixes, registered namespaces, and no two kinds of children
  // of an element with the same name.
  ghost predicate Writable(spec: Spec) {
    forall s {:trigger Opened(s)} :: Opened(s) ==>
      && (forall e :: e in spec.elements ==>
            Plain(e.name) && (e.namespaceUri == "" || e.namespaceUri in spec.namespaces) && PlainAttributes(e))
      && (forall e :: e in spec.elements ==> Unambiguous(spec, e.children))
  }

  predicate PlainAttributes(e: ElementSpec) {
    forall s :: s in e.attributes ==> Plain(s.name)
  }

  ghost predicate Unambiguous(spec: Spec, children: seq<ChildSpec>) {
    forall c, d :: c in children && d in children && Registered(spec, c.elementId) && Registered(spec, d.elementId) &&
                   Element(spec, c.elementId).name == Element(spec, d.elementId).name &&
                   Element(spec, c.elementId).namespaceUri == Element(spec, d.elementId).namespaceUri ==>
                     c.elementId == d.elementId
  }

  lemma WritableElement(spec: Spec, e: ElementSpec)
    requires Writable(spec) && e in spec.elements
    ensures Plain(e.name) && (e.namespaceUri == "" || e.namespaceUri in spec.namespaces)
    ensures PlainAttributes(e) && Unambiguous(spec, e.children)
  {
    assert Opened(Seal);
  }

  /* ---------- attributes and text ---------- */

  lemma HasColon(name: string)
    requires "xmlns:" <= name
    ensures ':' in name
  {
    assert name[5] == ':';
  }

  lemma NotDeclared(name: string)
    requires Plain(name)
    ensures !IsDeclaration(name) && !Binds(name, "") && SplitName(name) == QualifiedName("", name)
  {
    SplitExactly(name, "");
    if "xmlns:" <= name {
      HasColon(name);
    }
    assert "xmlns:" + "" == "xmlns:";
  }

  lemma KeepsPlain(e: ElementSpec, namespaces: Namespaces, x: Attribute)
    requires PlainAttributes(e) && AttributeConforms(e, x)
    ensures Plain(x.name) && Kept(e, namespaces, x) == [x] && AttributeOk(e, namespaces, x)
  {
    NotDeclared(x.name);
    AttributeOkIs(e, namespaces, x);
    AttributeConformsExactly(e, e.attributes, x);
    assert e.(attributes := e.attributes) == e;
  }

  lemma {:induction false} KeepsAttributes(e: ElementSpec, a: Authored, namespaces: Namespaces, n: nat)
    requires PlainAttributes(e) && (forall x :: x in a.attributes ==> AttributeConforms(e, x)) && n <= |a.attributes|
    ensures ImageAttributes(e, namespaces, Written(a).attributes, n + 1) == a.attributes[..n]
  {
    var all := Written(a).attributes;
    NextAttribute(e, namespaces, all, n);
    if n == 0 {
      DeclarationDropped(e, namespaces, all[0]);
    } else {
      KeepsAttributes(e, a, namespaces, n - 1);
      assert all[n] == a.attributes[n - 1];
      KeepsPlain(e, namespaces, all[n]);
      PrefixGrows(a.attributes, n - 1);
    }
  }

  lemma DeclarationDropped(e: ElementSpec, namespaces: Namespaces, x: Attribute)
    requires x.name == "xmlns"
    ensures Kept(e, namespaces, x) == []
  {
  }

  lemma AttributesAreOk(e: ElementSpec, a: Authored, namespaces: Namespaces)
    requires PlainAttributes(e) && forall x :: x in a.attributes ==> AttributeConforms(e, x)
    ensures AttributesOk(e, namespaces, Written(a).attributes, |Written(a).attributes|)
  {
    var all := Written(a).attributes;
    forall k | 0 <= k < |all|
      ensures AttributeOk(e, namespaces, all[k])
    {
      if k == 0 {
        AttributeOkIs(e, namespaces, all[k]);
      } else {
        assert all[k] == a.attributes[k - 1];
        KeepsPlain(e, namespaces, all[k]);
      }
    }
  }

  lemma {:induction false} KeepsText(a: Authored, n: nat)
    requires n <= |a.children|
    ensures Text(Written(a).children, n + 1) == a.text
  {
    var nodes := Written(a).children;
    if n == 0 {
      assert Text(nodes, 0) == "" && nodes[0] == TextNode(a.text);
      assert "" + a.text == a.text;
    } else {
      KeepsText(a, n - 1);
      ChildNode(a, n - 1);
      assert a.text + "" == a.text;
    }
  }

  lemma {:induction false} ChildNode(a: Authored, k: nat)
    requires k < |a.children|
    ensures Written(a).children[k + 1] == ElementNode(Written(a.children[k]))
  {
    NthChild(a, |a.children|, k);
  }

  lemma {:induction false} NthChild(a: Authored, n: nat, k: nat)
    requires k < n <= |a.children|
    ensures WrittenChildren(a, n)[k] == ElementNode(Written(a.children[k]))
    decreases n
  {
    if k < n - 1 {
      NthChild(a, n - 1, k);
    }
  }

  /* ---------- namespaces and kinds ---------- */

  // A written element is in its own namespace.
  lemma OwnNamespace(spec: Spec, e: ElementSpec, a: Authored, inherited: Namespaces)
    requires SpecOk(spec) && Writable(spec) && e in spec.elements && Conforms(spec, e, a)
    ensures ElementNamespace(spec, Written(a), inherited) == Some(e.namespaceUri) && Local(Written(a).name) == e.name
    ensures DeclarationsOk(spec, Written(a).attributes, |Written(a).attributes|)
  {
    var all := Written(a).attributes;
    WritableElement(spec, e);
    forall j | 1 <= j < |all|
      ensures !Binds(all[j].name, "") && !IsDeclaration(all[j].name)
    {
      assert all[j] == a.attributes[j - 1] && a.attributes[j - 1] in a.attributes;
      KeepsPlain(e, inherited, all[j]);
      NotDeclared(all[j].name);
    }
    assert LastBinding(all, "", |all|, 0);
    NamespaceExactly(spec, Written(a), inherited, "", e.name, 0);
  }

  lemma {:induction false} FindsKind(spec: Spec, children: seq<ChildSpec>, id: string)
    requires forall c :: c in children ==> Registered(spec, c.elementId)
    requires Unambiguous(spec, children) && Registered(spec, id) && exists c :: c in children && c.elementId == id
    ensures FindChild(spec, children, Element(spec, id).namespaceUri, Element(spec, id).name) == Some(Element(spec, id))
  {
    var e := Element(spec, id);
    var c :| c in children && c.elementId == id;
    if Fits(spec, children[0], e.namespaceUri, e.name) {
      assert children[0].elementId == c.elementId;
    } else {
      assert c in children[1..];
      FindsKind(spec, children[1..], id);
    }
  }

  lemma OwnKind(spec: Spec, e: ElementSpec, a: Authored, namespaces: Namespaces)
    requires SpecOk(spec) && Writable(spec) && e in spec.elements && ChildConforms(spec, e, a)
    ensures SpecOfChild(spec, e, Written(a), namespaces) == Some(Element(spec, a.specId))
    ensures !PassedOver(spec, Written(a), namespaces)
  {
    var kind := Element(spec, a.specId);
    WritableElement(spec, e);
    WritableElement(spec, kind);
    ChildrenRegistered(spec, e);
    OwnNamespace(spec, kind, a, namespaces);
    FindsKind(spec, e.children, a.specId);
  }

  /* ---------- whole trees ---------- */

  /** A tree that conforms to the schema, written as XML, is valid, and its image is itself. */
  lemma {:induction false} WrittenIsItself(spec: Spec, e: ElementSpec, a: Authored, namespaces: Namespaces)
    requires SpecOk(spec) && Writable(spec) && e in spec.elements && Conforms(spec, e, a)
    ensures Valid(spec, e, Written(a), namespaces) && Image(spec, e, Written(a), namespaces) == a
    decreases a, |a.children| + 1
  {
    WritableElement(spec, e);
    forall k | 0 <= k < |a.children|
      ensures IsItself(spec, e, a.children[k], namespaces)
    {
      ChildIsItself(spec, e, a, namespaces, k);
    }
    ImageIsItself(spec, e, a, namespaces);
    AttributesAreOk(e, a, namespaces);
    ChildrenAreOk(spec, e, a, namespaces);
    CountsAreOk(e, a);
  }

  lemma CountsAreOk(e: ElementSpec, a: Authored)
    requires forall c :: c in e.children ==> WithinBounds(c, |ChildrenOf(a.children, c.elementId)|)
    ensures CountsOk(e, a.children, |e.children|)
  {
    forall k | 0 <= k < |e.children|
      ensures CountOk(e.children[k], a.children)
    {
      CountIsSize(a.children, e.children[k].elementId);
    }
  }

  lemma ImageIsItself(spec: Spec, e: ElementSpec, a: Authored, namespaces: Namespaces)
    requires SpecOk(spec) && e in spec.elements && PlainAttributes(e)
    requires a.specId == e.id && a.name == e.name && a.namespaceUri == e.namespaceUri && Trim(a.text) == a.text
    requires forall x :: x in a.attributes ==> AttributeConforms(e, x)
    requires forall k :: 0 <= k < |a.children| ==> IsItself(spec, e, a.children[k], namespaces)
    ensures Image(spec, e, Written(a), namespaces) == a
  {
    AllAttributes(e, a, namespaces);
    KeepsText(a, |a.children|);
    AllChildren(spec, e, a, namespaces);
  }

  lemma AllAttributes(e: ElementSpec, a: Authored, namespaces: Namespaces)
    requires PlainAttributes(e) && forall x :: x in a.attributes ==> AttributeConforms(e, x)
    ensures ImageAttributes(e, namespaces, Written(a).attributes, |Written(a).attributes|) == a.attributes
  {
    KeepsAttributes(e, a, namespaces, |a.attributes|);
    assert a.attributes[..|a.attributes|] == a.attributes;
  }

  lemma AllChildren(spec: Spec, e: ElementSpec, a: Authored, namespaces: Namespaces)
    requires SpecOk(spec) && e in spec.elements
    requires forall k :: 0 <= k < |a.children| ==> IsItself(spec, e, a.children[k], namespaces)
    ensures ImageChildren(spec, e, Written(a), namespaces, |Written(a).children|) == a.children
  {
    ChildrenAreThemselves(spec, e, a, namespaces, |a.children|);
    assert a.children[..|a.children|] == a.children;
  }

  // The child, written under an element of kind e, is valid and read as itself.
  ghost predicate IsItself(spec: Spec, e: ElementSpec, child: Authored, namespaces: Namespaces)
    requires SpecOk(spec) && e in spec.elements
  {
    forall s {:trigger Opened(s)} :: Opened(s) ==>
      && ElementOk(spec, e, Written(child), namespaces)
      && ImageOfChild(spec, e, Written(child), namespaces) == [child]
  }

  lemma OpenItself(spec: Spec, e: ElementSpec, a: Authored, namespaces: Namespaces, k: nat)
    requires SpecOk(spec) && e in spec.elements && k < |a.children| && IsItself(spec, e, a.children[k], namespaces)
    ensures ChildOk(spec, e, Written(a), namespaces, k + 1)
    ensures ImageOfNode(spec, e, Written(a), namespaces, k + 1) == [a.children[k]]
  {
    assert Opened(Seal);
    ChildNode(a, k);
  }

  lemma ChildrenAreOk(spec: Spec, e: ElementSpec, a: Authored, namespaces: Namespaces)
    requires SpecOk(spec) && e in spec.elements
    requires forall k :: 0 <= k < |a.children| ==> IsItself(spec, e, a.children[k], namespaces)
    ensures ChildrenOk(spec, e, Written(a), namespaces, |Written(a).children|)
  {
    var xml := Written(a);
    forall k | 0 <= k < |xml.children|
      ensures ChildOk(spec, e, xml, namespaces, k)
    {
      if k > 0 {
        OpenItself(spec, e, a, namespaces, k - 1);
      }
    }
  }

  lemma {:induction false} ChildrenAreThemselves(spec: Spec, e: ElementSpec, a: Authored, namespaces: Namespaces,
                                                 n: nat)
    requires SpecOk(spec) && e in spec.elements && n <= |a.children|
    requires forall k :: 0 <= k < |a.children| ==> IsItself(spec, e, a.children[k], namespaces)
    ensures ImageChildren(spec, e, Written(a), namespaces, n + 1) == a.children[..n]
  {
    if n == 0 {
      TextHasNoImage(spec, e, a, namespaces);
    } else {
      ChildrenAreThemselves(spec, e, a, namespaces, n - 1);
      NextImage(spec, e, a, namespaces, n - 1);
      PrefixGrows(a.children, n - 1);
    }
  }

  lemma TextHasNoImage(spec: Spec, e: ElementSpec, a: Authored, namespaces: Namespaces)
    requires SpecOk(spec) && e in spec.elements
    ensures ImageChildren(spec, e, Written(a), namespaces, 1) == []
  {
    assert ImageChildren(spec, e, Written(a), namespaces, 0) == [];
  }

  lemma NextImage(spec: Spec, e: ElementSpec, a: Authored, namespaces: Namespaces, k: nat)
    requires SpecOk(spec) && e in spec.elements && k < |a.children| && IsItself(spec, e, a.children[k], namespaces)
    ensures ImageChildren(spec, e, Written(a), namespaces, k + 2) ==
            ImageChildren(spec, e, Written(a), namespaces, k + 1) + [a.children[k]]
  {
    OpenItself(spec, e, a, namespaces, k);
  }

  lemma {:induction false} ChildIsItself(spec: Spec, e: ElementSpec, a: Authored, namespaces: Namespaces, k: nat)
    requires SpecOk(spec) && Writable(spec) && e in spec.elements && k < |a.children|
    requires ChildConforms(spec, e, a.children[k])
    ensures IsItself(spec, e, a.children[k], namespaces)
    decreases a, 0
  {
    var child := a.children[k];
    var kind := Element(spec, child.specId);
    OwnKind(spec, e, child, namespaces);
    OwnNamespace(spec, kind, child, namespaces);
    WrittenIsItself(spec, kind, child, InScope(Written(child), namespaces));
  }

  /* ---------- whole documents ---------- */

  lemma {:induction false} FindsRoot(spec: Spec, ids: seq<string>, e: ElementSpec)
    requires (forall id :: id in ids ==> Registered(spec, id)) && e.id in ids && Element(spec, e.id) == e
    requires forall id :: id in ids && Element(spec, id).name == e.name ==> id == e.id
    ensures RootNamed(spec, ids, e.name) == Some(e)
  {
    if ids[0] != e.id {
      FindsRoot(spec, ids[1..], e);
    }
  }

  // A kind of document has a root of this kind, and no other with its name.
  ghost predicate IsRoot(spec: Spec, kind: DocumentKind, e: ElementSpec) {
    && kind in spec.documents && e.id in spec.documents[kind].roots
    && Registered(spec, e.id) && Element(spec, e.id) == e && e.namespaceUri == ""
    && forall id :: id in spec.documents[kind].roots && Registered(spec, id) && Element(spec, id).name == e.name ==>
         id == e.id
  }

  /** Every conforming tree of a document's root kind, written as XML, is a valid
      document, and the manifest parsed from it is that tree. */
  lemma EveryManifestIsParsed(spec: Spec, kind: DocumentKind, e: ElementSpec, a: Authored, extension: string)
    requires SpecOk(spec) && Writable(spec) && IsRoot(spec, kind, e) && Conforms(spec, e, a)
    requires match kind
             case Project => e.name == "Executable" || e.name == "Library"
             case Package => e.name == "Package"
             case Workspace => e.name == "Workspace"
    requires extension == "" || extension == spec.documents[kind].extension
    ensures DocumentOk(spec, Written(a), extension)
    ensures ManifestOf(spec, Written(a), RootOf(spec, Written(a)), RootScope(spec, Written(a))) ==
            Some(Manifest(kind, a))
  {
    RootsRegistered(spec, kind);
    FindsRoot(spec, spec.documents[kind].roots, e);
    OwnNamespace(spec, e, a, map["xml" := spec.xml, "xmlns" := spec.xmlns]);
    assert KindFromRoot(e.name) == Some(kind);
    WrittenIsItself(spec, e, a, RootScope(spec, Written(a)));
  }
}
