/** The reflected model of one type, and the rules ValidateType enforces on it. */
module ReflectedTypes {
  import opened Common
  import opened CharacterClasses

  datatype AccessKind = Public | Protected | Private

  type AttributeSet = map<string, string>

  datatype Parameter = Parameter(cppName: string, cppType: string)

  datatype Method = Method(
    cppName: string,
    reflectionName: string,
    returnType: string,
    parameters: seq<Parameter>,
    access: AccessKind,
    isStatic: bool,
    isVolatile: bool,
    isRValueQualified: bool,
    attributes: AttributeSet)

  datatype Field = Field(cppName: string, cppType: string, reflectionName: string, access: AccessKind)

  datatype Property = Property(
    reflectionName: string,
    attributes: AttributeSet,
    getter: Option<Method>,
    setter: Option<Method>)

  datatype Constructor = Constructor(injectable: bool, access: AccessKind, parameters: seq<Parameter>)

  datatype ReflectedType = ReflectedType(
    isEnum: bool,
    cppQualifiedName: string,
    reflectionName: string,
    declarationFile: string,
    line: nat,
    defaultAccess: AccessKind,
    manualDescriptor: bool,
    hasGeneratedBody: bool,
    fields: seq<Field>,
    methods: seq<Method>,
    properties: seq<Property>,
    constructors: seq<Constructor>)

  datatype Diagnostic =
    | UnsupportedAccessor(name: string)
    | NotAnAccessor(name: string)
    | DuplicateGetter(property: string)
    | DuplicateSetter(property: string)
    | NonPublicField(name: string)
    | NonPublicMethod(name: string)
    | NoGetter(property: string)
    | AccessorsDisagree(property: string)
    | NonPublicAccessor(property: string)
    | DuplicateField(name: string)
    | DuplicateProperty(name: string)
    | UnbalancedBody(name: string)
    | OpenTemplate(name: string)
    | DuplicateType(name: string)
    | RValueMethod(name: string)
    | BadDeclaration(name: string, which: nat)

  /* ---------- type spellings ---------- */

  function WithoutPrefix(s: string, prefix: string): string {
    if prefix <= s then s[|prefix|..] else s
  }

  function WithoutReference(s: string): string {
    if s != "" && (s[|s| - 1] == '&' || IsSpace(s[|s| - 1])) then WithoutReference(s[..|s| - 1]) else s
  }

  function StripTypeQualifiers(s: string): string {
    Trim(WithoutReference(WithoutPrefix(WithoutPrefix(s, "const "), "volatile ")))
  }

  /* ---------- property accessors ---------- */

  predicate IsGetter(m: Method) {
    m.parameters == [] && m.returnType != "void" && m.returnType != ""
  }

  predicate IsSetter(m: Method) {
    |m.parameters| == 1 && m.returnType == "void"
  }

  predicate UnsupportedShape(m: Method) {
    m.isStatic || m.isVolatile || m.isRValueQualified
  }

  // The slots of a property hold accessors of its name and of the right shape.
  predicate PropertyOk(p: Property) {
    && (p.getter.Some? ==> IsGetter(p.getter.value) && p.getter.value.reflectionName == p.reflectionName)
    && (p.setter.Some? ==> IsSetter(p.setter.value) && p.setter.value.reflectionName == p.reflectionName)
    && (p.getter.Some? || p.setter.Some?)
  }

  predicate ShapesOk(ps: seq<Property>) {
    forall p :: p in ps ==> PropertyOk(p)
  }

  ghost predicate DistinctProperties(ps: seq<Property>) {
    forall i, j :: 0 <= i < j < |ps| ==> ps[i].reflectionName != ps[j].reflectionName
  }

  ghost predicate PropertiesOk(ps: seq<Property>) {
    DistinctProperties(ps) && ShapesOk(ps)
  }

  // The first property with a name, or the number of properties.
  function FindProperty(ps: seq<Property>, name: string): (r: nat)
    ensures r <= |ps|
    ensures r < |ps| ==> ps[r].reflectionName == name
    ensures forall i :: 0 <= i < r ==> ps[i].reflectionName != name
  {
    if ps == [] || ps[0].reflectionName == name then 0 else 1 + FindProperty(ps[1..], name)
  }

  /* ---------- validation ---------- */

  function FieldAccess(t: ReflectedType, n: nat): seq<Diagnostic>
    requires n <= |t.fields|
  {
    if n == 0 then []
    else
      var f := t.fields[n - 1];
      FieldAccess(t, n - 1) + if f.access != Public && !t.hasGeneratedBody then [NonPublicField(f.cppName)] else []
  }

  function MethodAccess(t: ReflectedType, n: nat): seq<Diagnostic>
    requires n <= |t.methods|
  {
    if n == 0 then []
    else
      var m := t.methods[n - 1];
      MethodAccess(t, n - 1) + if m.access != Public && !t.hasGeneratedBody then [NonPublicMethod(m.cppName)] else []
  }

  predicate Disagree(p: Property)
    requires PropertyOk(p) && p.getter.Some? && p.setter.Some?
  {
    || StripTypeQualifiers(p.getter.value.returnType) != StripTypeQualifiers(p.setter.value.parameters[0].cppType)
    || p.getter.value.isStatic != p.setter.value.isStatic
  }

  predicate NonPublic(p: Property) {
    (p.getter.Some? && p.getter.value.access != Public) || (p.setter.Some? && p.setter.value.access != Public)
  }

  function PropertyProblems(p: Property, generated: bool): seq<Diagnostic>
    requires PropertyOk(p)
  {
    var name := p.reflectionName;
    if p.getter.None? then [NoGetter(name)]
    else
      (if p.setter.Some? && Disagree(p) then [AccessorsDisagree(name)] else [])
      + (if NonPublic(p) && !generated then [NonPublicAccessor(name)] else [])
  }

  function AllPropertyProblems(t: ReflectedType, n: nat): seq<Diagnostic>
    requires n <= |t.properties| && ShapesOk(t.properties)
  {
    if n == 0 then []
    else AllPropertyProblems(t, n - 1) + PropertyProblems(t.properties[n - 1], t.hasGeneratedBody)
  }

  predicate SameFieldBefore(t: ReflectedType, i: nat)
    requires i < |t.fields|
  {
    exists j :: 0 <= j < i && t.fields[j].reflectionName == t.fields[i].reflectionName
  }

  function FieldNames(t: ReflectedType, n: nat): seq<Diagnostic>
    requires n <= |t.fields|
  {
    if n == 0 then []
    else FieldNames(t, n - 1)
         + if SameFieldBefore(t, n - 1) then [DuplicateField(t.fields[n - 1].reflectionName)] else []
  }

  predicate SamePropertyBefore(t: ReflectedType, i: nat)
    requires i < |t.properties|
  {
    exists j :: 0 <= j < i && t.properties[j].reflectionName == t.properties[i].reflectionName
  }

  function PropertyNames(t: ReflectedType, n: nat): seq<Diagnostic>
    requires n <= |t.properties|
  {
    if n == 0 then []
    else PropertyNames(t, n - 1)
         + if SamePropertyBefore(t, n - 1) then [DuplicateProperty(t.properties[n - 1].reflectionName)] else []
  }

  function AccessProblems(t: ReflectedType): seq<Diagnostic> {
    FieldAccess(t, |t.fields|) + MethodAccess(t, |t.methods|)
  }

  function Validation(t: ReflectedType): seq<Diagnostic>
    requires PropertiesOk(t.properties)
  {
    AccessProblems(t) + AllPropertyProblems(t, |t.properties|)
    + FieldNames(t, |t.fields|) + PropertyNames(t, |t.properties|)
  }

  // The accessors agree, and are reachable by the generated code.
  ghost predicate Sound(p: Property, generated: bool)
    requires PropertyOk(p)
  {
    p.getter.Some? && (p.setter.Some? ==> !Disagree(p)) && (NonPublic(p) ==> generated)
  }

  // What a valid type guarantees to the code generator.
  ghost predicate TypeOk(t: ReflectedType) {
    && PropertiesOk(t.properties)
    && (forall f :: f in t.fields && f.access != Public ==> t.hasGeneratedBody)
    && (forall m :: m in t.methods && m.access != Public ==> t.hasGeneratedBody)
    && (forall p :: p in t.properties ==> Sound(p, t.hasGeneratedBody))
    && DistinctFields(t, |t.fields|)
  }

  /** Validation reports nothing exactly when the type satisfies every rule. */
  lemma ValidationExact(t: ReflectedType)
    requires PropertiesOk(t.properties)
    ensures Validation(t) == [] <==> TypeOk(t)
  {
    FieldAccessExact(t, |t.fields|);
    MethodAccessExact(t, |t.methods|);
    PropertiesExact(t, |t.properties|);
    FieldNamesExact(t, |t.fields|);
    NoDuplicateProperty(t, |t.properties|);
    ValidationParts(t);
  }

  lemma ValidationParts(t: ReflectedType)
    requires PropertiesOk(t.properties)
    ensures Validation(t) == [] <==>
            FieldAccess(t, |t.fields|) == [] && MethodAccess(t, |t.methods|) == []
            && AllPropertyProblems(t, |t.properties|) == [] && FieldNames(t, |t.fields|) == []
            && PropertyNames(t, |t.properties|) == []
  {
    assert |Validation(t)| == |FieldAccess(t, |t.fields|)| + |MethodAccess(t, |t.methods|)|
                              + |AllPropertyProblems(t, |t.properties|)| + |FieldNames(t, |t.fields|)|
                              + |PropertyNames(t, |t.properties|)|;
  }

  lemma {:induction false} FieldAccessExact(t: ReflectedType, n: nat)
    requires n <= |t.fields|
    ensures FieldAccess(t, n) == [] <==> forall f :: f in t.fields[..n] && f.access != Public ==> t.hasGeneratedBody
  {
    if n > 0 {
      FieldAccessExact(t, n - 1);
      assert t.fields[..n] == t.fields[..n - 1] + [t.fields[n - 1]];
    } else {
      assert t.fields[..0] == [];
    }
  }

  lemma {:induction false} MethodAccessExact(t: ReflectedType, n: nat)
    requires n <= |t.methods|
    ensures MethodAccess(t, n) == [] <==> forall m :: m in t.methods[..n] && m.access != Public ==> t.hasGeneratedBody
  {
    if n > 0 {
      MethodAccessExact(t, n - 1);
      assert t.methods[..n] == t.methods[..n - 1] + [t.methods[n - 1]];
    } else {
      assert t.methods[..0] == [];
    }
  }

  lemma OnePropertyExact(p: Property, generated: bool)
    requires PropertyOk(p)
    ensures PropertyProblems(p, generated) == [] <==> Sound(p, generated)
  {
  }

  ghost predicate SoundFirst(t: ReflectedType, n: nat)
    requires n <= |t.properties| && ShapesOk(t.properties)
  {
    forall i :: 0 <= i < n ==> Sound(t.properties[i], t.hasGeneratedBody)
  }

  lemma OneMoreProperty(t: ReflectedType, n: nat)
    requires 0 < n <= |t.properties| && ShapesOk(t.properties)
    ensures SoundFirst(t, n) <==> SoundFirst(t, n - 1) && Sound(t.properties[n - 1], t.hasGeneratedBody)
  {
  }

  lemma OneMoreCheck(t: ReflectedType, n: nat)
    requires 0 < n <= |t.properties| && ShapesOk(t.properties)
    ensures AllPropertyProblems(t, n) == [] <==>
            AllPropertyProblems(t, n - 1) == [] && Sound(t.properties[n - 1], t.hasGeneratedBody)
  {
    OnePropertyExact(t.properties[n - 1], t.hasGeneratedBody);
    BothEmpty(AllPropertyProblems(t, n - 1), PropertyProblems(t.properties[n - 1], t.hasGeneratedBody));
  }

  lemma BothEmpty<T>(a: seq<T>, b: seq<T>)
    ensures a + b == [] <==> a == [] && b == []
  {
    assert |a + b| == |a| + |b|;
  }

  lemma {:induction false} PropertiesExact(t: ReflectedType, n: nat)
    requires n <= |t.properties| && ShapesOk(t.properties)
    ensures AllPropertyProblems(t, n) == [] <==> SoundFirst(t, n)
  {
    if n > 0 {
      PropertiesExact(t, n - 1);
      OneMoreProperty(t, n);
      OneMoreCheck(t, n);
    }
  }

  // Accessors are merged by name, so a property name is never reported twice.
  lemma {:induction false} NoDuplicateProperty(t: ReflectedType, n: nat)
    requires n <= |t.properties| && DistinctProperties(t.properties)
    ensures PropertyNames(t, n) == []
  {
    if n > 0 {
      NoDuplicateProperty(t, n - 1);
    }
  }

  ghost predicate DistinctFields(t: ReflectedType, n: nat)
    requires n <= |t.fields|
  {
    forall i, j :: 0 <= i < j < n ==> t.fields[i].reflectionName != t.fields[j].reflectionName
  }

  lemma {:induction false} FieldNamesExact(t: ReflectedType, n: nat)
    requires n <= |t.fields|
    ensures FieldNames(t, n) == [] <==> DistinctFields(t, n)
  {
    if n > 0 {
      FieldNamesExact(t, n - 1);
      OneMoreField(t, n - 1);
      assert FieldNames(t, n) == [] <==> FieldNames(t, n - 1) == [] && !SameFieldBefore(t, n - 1) by {
        assert |FieldNames(t, n)| == |FieldNames(t, n - 1)| + if SameFieldBefore(t, n - 1) then 1 else 0;
      }
    }
  }

  lemma OneMoreField(t: ReflectedType, n: nat)
    requires n < |t.fields|
    ensures DistinctFields(t, n + 1) <==> DistinctFields(t, n) && !SameFieldBefore(t, n)
  {
    if DistinctFields(t, n) && !SameFieldBefore(t, n) {
      assert forall j :: 0 <= j < n ==> t.fields[j].reflectionName != t.fields[n].reflectionName;
    }
  }

  // Validation never reports a duplicate type.
  lemma ValidationPlain(t: ReflectedType)
    requires PropertiesOk(t.properties)
    ensures forall d :: d in Validation(t) ==> !d.DuplicateType?
  {
    AccessPlain(t, |t.fields|, |t.methods|);
    PropertiesPlain(t, |t.properties|);
    NamesPlain(t, |t.fields|, |t.properties|);
  }

  lemma {:induction false} AccessPlain(t: ReflectedType, n: nat, m: nat)
    requires n <= |t.fields| && m <= |t.methods|
    ensures forall d :: d in FieldAccess(t, n) + MethodAccess(t, m) ==> !d.DuplicateType?
  {
    if n > 0 {
      AccessPlain(t, n - 1, m);
    }
    if m > 0 {
      AccessPlain(t, n, m - 1);
    }
  }

  lemma {:induction false} PropertiesPlain(t: ReflectedType, n: nat)
    requires n <= |t.properties| && ShapesOk(t.properties)
    ensures forall d :: d in AllPropertyProblems(t, n) ==> !d.DuplicateType?
  {
    if n > 0 {
      PropertiesPlain(t, n - 1);
    }
  }

  lemma {:induction false} NamesPlain(t: ReflectedType, n: nat, m: nat)
    requires n <= |t.fields| && m <= |t.properties|
    ensures forall d :: d in FieldNames(t, n) + PropertyNames(t, m) ==> !d.DuplicateType?
  {
    if n > 0 {
      NamesPlain(t, n - 1, m);
    }
    if m > 0 {
      NamesPlain(t, n, m - 1);
    }
  }
}
