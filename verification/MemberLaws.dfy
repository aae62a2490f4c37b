/** Where a member declaration ends, and what is reported about a type, by their conditions. */
module MemberLaws {
  import opened Common
  import opened CharacterClasses
  import opened Tokenizer
  import opened TokenRanges
  import opened RangeLaws
  import opened ReflectedTypes
  import opened RecordMembers

  /* ---------- where a declaration ends ---------- */

  // All round, square and angle brackets opened in tokens[i..k] are closed again.
  predicate Balanced(tokens: seq<Token>, i: nat, k: nat)
    requires i <= k <= |tokens|
  {
    && |Standing(tokens, "(", i, k)| == |Standing(tokens, ")", i, k)|
    && |Standing(tokens, "[", i, k)| == |Standing(tokens, "]", i, k)|
    && AngleDepth(tokens, i, k) == 0
  }

  // A brace or a semicolon outside all brackets.
  predicate StopsAt(tokens: seq<Token>, i: nat, k: nat)
    requires i <= k < |tokens|
  {
    (tokens[k].text == "{" || tokens[k].text == ";") && Balanced(tokens, i, k)
  }

  // The brackets after tokens[i..k].
  function BracketsAt(tokens: seq<Token>, i: nat, k: nat): Brackets
    requires i <= k <= |tokens|
  {
    Brackets(|Standing(tokens, "(", i, k)| - |Standing(tokens, ")", i, k)|,
             |Standing(tokens, "[", i, k)| - |Standing(tokens, "]", i, k)|,
             AngleDepth(tokens, i, k), |Standing(tokens, ")", i, k)| > 0)
  }

  lemma BracketedFields(b: Brackets, text: string)
    ensures var n := Bracketed(b, text);
      && n.parentheses == b.parentheses + (if text == "(" then 1 else 0) - (if text == ")" then 1 else 0)
      && n.squares == b.squares + (if text == "[" then 1 else 0) - (if text == "]" then 1 else 0)
      && n.closed == (b.closed || text == ")")
  {
  }

  lemma BracketedAngles(tokens: seq<Token>, i: nat, k: nat, b: Brackets)
    requires i <= k < |tokens| && b.angles == AngleDepth(tokens, i, k)
    ensures Bracketed(b, tokens[k].text).angles == AngleDepth(tokens, i, k + 1)
  {
  }

  lemma CountsStep(tokens: seq<Token>, i: nat, k: nat)
    requires i <= k < |tokens|
    ensures var b, n := BracketsAt(tokens, i, k), BracketsAt(tokens, i, k + 1);
      var text := tokens[k].text;
      && n.parentheses == b.parentheses + (if text == "(" then 1 else 0) - (if text == ")" then 1 else 0)
      && n.squares == b.squares + (if text == "[" then 1 else 0) - (if text == "]" then 1 else 0)
      && n.closed == (b.closed || text == ")")
  {
    OneMore(tokens, "(", i, k);
    OneMore(tokens, ")", i, k);
    OneMore(tokens, "[", i, k);
    OneMore(tokens, "]", i, k);
  }

  lemma BracketsStep(tokens: seq<Token>, i: nat, k: nat)
    requires i <= k < |tokens|
    ensures BracketsAt(tokens, i, k + 1) == Bracketed(BracketsAt(tokens, i, k), tokens[k].text)
  {
    var b, n := BracketsAt(tokens, i, k), BracketsAt(tokens, i, k + 1);
    CountsStep(tokens, i, k);
    BracketedFields(b, tokens[k].text);
    BracketedAngles(tokens, i, k, b);
  }

  // Up to the first stop, the scan goes on token by token.
  lemma {:induction false} ScanOn(tokens: seq<Token>, i: nat, k: nat, end: nat)
    requires i <= k <= end <= |tokens| && forall j :: i <= j < k ==> !StopsAt(tokens, i, j)
    ensures ScanMember(tokens, i, end, NO_BRACKETS) == ScanMember(tokens, k, end, BracketsAt(tokens, i, k))
    decreases k
  {
    if k == i {
      assert BracketsAt(tokens, i, i) == NO_BRACKETS;
    } else {
      ScanOn(tokens, i, k - 1, end);
      BracketsStep(tokens, i, k - 1);
      assert !StopsAt(tokens, i, k - 1);
    }
  }

  /** A declaration ends at the first brace or semicolon outside all its brackets:
      at a semicolon, or at a body behind a parameter list, after which a semicolon
      may follow; another matched pair of braces is passed over, and behind it the
      search starts afresh. */
  lemma MemberEndsExactly(tokens: seq<Token>, i: nat, end: nat, k: nat)
    requires i <= k <= end <= |tokens| && forall j :: i <= j < k ==> !StopsAt(tokens, i, j)
    requires k < end ==> StopsAt(tokens, i, k)
    ensures ScanMember(tokens, i, end, NO_BRACKETS) ==
            if k == end then Unfinished
            else if tokens[k].text == ";" then Found(k, k + 1)
            else
              var close := Matching(tokens, "{", "}", k, end);
              if close == end then Unbalanced
              else if |Standing(tokens, ")", i, k)| == 0 then ScanMember(tokens, close + 1, end, NO_BRACKETS)
              else Found(k, if close + 1 < end && tokens[close + 1].text == ";" then close + 2 else close + 1)
  {
    ScanOn(tokens, i, k, end);
    if k < end && |Standing(tokens, ")", i, k)| == 0 {
      assert BracketsAt(tokens, i, k) == NO_BRACKETS;
    }
  }

  /* ---------- accessors ---------- */

  // A getter of a property takes nothing and returns something; a setter takes one
  // parameter and returns nothing.
  predicate Gets(m: Method) {
    |m.parameters| == 0 && m.returnType != "" && m.returnType != "void"
  }

  predicate Sets(m: Method) {
    |m.parameters| == 1 && m.returnType == "void"
  }

  // The property already has an accessor of this kind.
  predicate Occupied(ps: seq<Property>, name: string, getter: bool) {
    exists p :: p in ps && p.reflectionName == name && if getter then p.getter != None else p.setter != None
  }

  /** Why an accessor is refused, if it is. */
  lemma AccessorRefused(ps: seq<Property>, m: Method)
    requires PropertiesOk(ps)
    ensures AccessorProblem(ps, m) ==
            if m.isStatic || m.isVolatile || m.isRValueQualified then Some(UnsupportedAccessor(m.cppName))
            else if !Gets(m) && !Sets(m) then Some(NotAnAccessor(m.cppName))
            else if Gets(m) && Occupied(ps, m.reflectionName, true) then Some(DuplicateGetter(m.reflectionName))
            else if Sets(m) && Occupied(ps, m.reflectionName, false) then Some(DuplicateSetter(m.reflectionName))
            else None
  {
    var k := FindProperty(ps, m.reflectionName);
    if k < |ps| {
      assert ps[k] in ps;
      assert forall j :: 0 <= j < |ps| && ps[j].reflectionName == m.reflectionName ==> j == k;
    }
  }

  /** A property's own attributes win over those of an accessor that is merged in. */
  lemma AttributesMerged(ps: seq<Property>, m: Method, key: string)
    requires PropertiesOk(ps) && AccessorProblem(ps, m) == None
    ensures Attribute(WithAccessor(ps, m), m.reflectionName, key) ==
            var own := Attribute(ps, m.reflectionName, key);
            if own != None then own else if key in m.attributes then Some(m.attributes[key]) else None
  {
    var k := FindProperty(ps, m.reflectionName);
    var qs := WithAccessor(ps, m);
    assert qs[k].reflectionName == m.reflectionName;
    assert FindProperty(qs, m.reflectionName) == k;
  }

  // An attribute of the property with a name.
  function Attribute(ps: seq<Property>, name: string, key: string): Option<string> {
    var k := FindProperty(ps, name);
    if k < |ps| && key in ps[k].attributes then Some(ps[k].attributes[key]) else None
  }

  /* ---------- type spellings ---------- */

  // A run of blanks and reference marks.
  predicate ReferenceMarks(s: string) {
    forall i :: 0 <= i < |s| ==> s[i] == '&' || IsSpace(s[i])
  }

  predicate BareType(s: string) {
    && s != "" && !IsSpace(s[0]) && !IsSpace(s[|s| - 1]) && s[|s| - 1] != '&'
    && !("const " <= s) && !("volatile " <= s) && s != "const" && s != "volatile"
  }

  lemma {:induction false} WithoutMarks(s: string, marks: string)
    requires ReferenceMarks(marks) && s != "" && s[|s| - 1] != '&' && !IsSpace(s[|s| - 1])
    ensures WithoutReference(s + marks) == s
    decreases |marks|
  {
    if marks == "" {
      assert s + marks == s;
    } else {
      assert (s + marks)[..|s + marks| - 1] == s + marks[..|marks| - 1];
      WithoutMarks(s, marks[..|marks| - 1]);
    }
  }

  // Marks behind a bare type do not make it start with a qualifier.
  lemma NotQualified(s: string, marks: string)
    requires BareType(s) && ReferenceMarks(marks)
    ensures !("const " <= s + marks) && !("volatile " <= s + marks)
  {
    if "const " <= s + marks {
      StartsInside("const ", s, marks);
    }
    if "volatile " <= s + marks {
      StartsInside("volatile ", s, marks);
    }
  }

  lemma StartsInside(prefix: string, s: string, marks: string)
    requires prefix <= s + marks && ReferenceMarks(marks)
    requires prefix != "" && forall i :: 0 <= i < |prefix| - 1 ==> prefix[i] != '&' && !IsSpace(prefix[i])
    ensures prefix <= s || s == prefix[..|prefix| - 1]
  {
    assert forall i :: 0 <= i < |prefix| ==> prefix[i] == (s + marks)[i];
    assert |s| < |prefix| ==> prefix[|s|] == marks[0];
  }

  lemma WithoutIt(prefix: string, given: bool, s: string)
    requires !given ==> !(prefix <= s)
    ensures WithoutPrefix((if given then prefix else "") + s, prefix) == s
  {
    assert "" + s == s && (prefix + s)[|prefix|..] == s;
  }

  lemma NotConst(isVolatile: bool, s: string, marks: string)
    requires BareType(s) && ReferenceMarks(marks)
    ensures !("const " <= (if isVolatile then "volatile " else "") + (s + marks))
  {
    NotQualified(s, marks);
    if isVolatile {
      assert ("volatile " + (s + marks))[0] == 'v';
    } else {
      assert "" + (s + marks) == s + marks;
    }
  }

  /** A type's spelling is compared without qualifiers in front and references behind. */
  lemma StrippedExactly(isConst: bool, isVolatile: bool, s: string, marks: string)
    requires BareType(s) && ReferenceMarks(marks)
    ensures StripTypeQualifiers((if isConst then "const " else "")
                                + ((if isVolatile then "volatile " else "") + (s + marks))) == s
  {
    NotQualified(s, marks);
    NotConst(isVolatile, s, marks);
    WithoutIt("volatile ", isVolatile, s + marks);
    WithoutIt("const ", isConst, (if isVolatile then "volatile " else "") + (s + marks));
    WithoutMarks(s, marks);
    Stripping((if isConst then "const " else "") + ((if isVolatile then "volatile " else "") + (s + marks)),
              (if isVolatile then "volatile " else "") + (s + marks), s + marks, s);
  }

  lemma Stripping(x: string, y: string, z: string, s: string)
    requires WithoutPrefix(x, "const ") == y && WithoutPrefix(y, "volatile ") == z && WithoutReference(z) == s
    requires s != "" && !IsSpace(s[0]) && !IsSpace(s[|s| - 1])
    ensures StripTypeQualifiers(x) == s
  {
  }

  /* ---------- what is reported ---------- */

  // What the diagnostic says of the type.
  ghost predicate Says(t: ReflectedType, d: Diagnostic)
    requires ShapesOk(t.properties)
  {
    match d
    case NonPublicField(name) =>
      !t.hasGeneratedBody && exists f :: f in t.fields && f.cppName == name && f.access != Public
    case NonPublicMethod(name) =>
      !t.hasGeneratedBody && exists m :: m in t.methods && m.cppName == name && m.access != Public
    case NoGetter(name) => exists p :: p in t.properties && p.reflectionName == name && p.getter == None
    case AccessorsDisagree(name) => exists p :: p in t.properties && p.reflectionName == name && Differ(p)
    case NonPublicAccessor(name) =>
      !t.hasGeneratedBody && exists p :: p in t.properties && p.reflectionName == name && Hidden(p)
    case DuplicateField(name) =>
      exists i, j :: 0 <= i < j < |t.fields| && t.fields[i].reflectionName == t.fields[j].reflectionName == name
    case _ => false
  }

  // Getter and setter are of different types, or one of them is static.
  predicate Differ(p: Property)
    requires PropertyOk(p)
  {
    p.getter != None && p.setter != None &&
    (p.getter.value.isStatic != p.setter.value.isStatic ||
     StripTypeQualifiers(p.getter.value.returnType) != StripTypeQualifiers(p.setter.value.parameters[0].cppType))
  }

  // An accessor of a readable property is not public.
  predicate Hidden(p: Property) {
    p.getter != None && (p.getter.value.access != Public || (p.setter != None && p.setter.value.access != Public))
  }

  lemma {:induction false} FieldsSay(t: ReflectedType, n: nat, d: Diagnostic)
    requires n <= |t.fields|
    ensures d in FieldAccess(t, n) <==>
            d.NonPublicField? && !t.hasGeneratedBody &&
            exists k :: 0 <= k < n && t.fields[k].cppName == d.name && t.fields[k].access != Public
  {
    if n > 0 {
      FieldsSay(t, n - 1, d);
    }
  }

  lemma {:induction false} MethodsSay(t: ReflectedType, n: nat, d: Diagnostic)
    requires n <= |t.methods|
    ensures d in MethodAccess(t, n) <==>
            d.NonPublicMethod? && !t.hasGeneratedBody &&
            exists k :: 0 <= k < n && t.methods[k].cppName == d.name && t.methods[k].access != Public
  {
    if n > 0 {
      MethodsSay(t, n - 1, d);
    }
  }

  // What a diagnostic about properties says of one.
  predicate SaysOf(p: Property, generated: bool, d: Diagnostic)
    requires PropertyOk(p)
  {
    match d
    case NoGetter(name) => p.reflectionName == name && p.getter == None
    case AccessorsDisagree(name) => p.reflectionName == name && Differ(p)
    case NonPublicAccessor(name) => p.reflectionName == name && !generated && Hidden(p)
    case _ => false
  }

  lemma PropertySays(p: Property, generated: bool, d: Diagnostic)
    requires PropertyOk(p)
    ensures d in PropertyProblems(p, generated) <==> SaysOf(p, generated, d)
  {
  }

  lemma {:induction false} PropertiesSay(t: ReflectedType, n: nat, d: Diagnostic)
    requires n <= |t.properties| && ShapesOk(t.properties)
    ensures d in AllPropertyProblems(t, n) <==>
            exists k :: 0 <= k < n && SaysOf(t.properties[k], t.hasGeneratedBody, d)
  {
    if n > 0 {
      PropertiesSay(t, n - 1, d);
      PropertySays(t.properties[n - 1], t.hasGeneratedBody, d);
    }
  }

  lemma {:induction false} NamesSay(t: ReflectedType, n: nat, d: Diagnostic)
    requires n <= |t.fields|
    ensures d in FieldNames(t, n) <==>
            d.DuplicateField? &&
            exists i, j :: 0 <= i < j < n && t.fields[i].reflectionName == t.fields[j].reflectionName == d.name
  {
    if n > 0 {
      NamesSay(t, n - 1, d);
      if SameFieldBefore(t, n - 1) {
        var i :| 0 <= i < n - 1 && t.fields[i].reflectionName == t.fields[n - 1].reflectionName;
      }
    }
  }

  /** Everything that is wrong with a type is reported, and nothing else. */
  lemma ValidationSays(t: ReflectedType, d: Diagnostic)
    requires PropertiesOk(t.properties)
    ensures d in Validation(t) <==> Says(t, d)
  {
    FieldsSay(t, |t.fields|, d);
    MethodsSay(t, |t.methods|, d);
    PropertiesSay(t, |t.properties|, d);
    NamesSay(t, |t.fields|, d);
    NoDuplicateProperty(t, |t.properties|);
    assert d in Validation(t) <==>
           d in FieldAccess(t, |t.fields|) || d in MethodAccess(t, |t.methods|) ||
           d in AllPropertyProblems(t, |t.properties|) || d in FieldNames(t, |t.fields|);
  }

  // Access first, fields before methods; then properties; then names.
  function Rank(d: Diagnostic): nat {
    if d.NonPublicField? then 0 else if d.NonPublicMethod? then 1 else if d.DuplicateField? then 3 else 2
  }

  ghost predicate AllRanked(reports: seq<Diagnostic>, rank: nat) {
    forall d :: d in reports ==> Rank(d) == rank
  }

  lemma PartsRanked(t: ReflectedType)
    requires PropertiesOk(t.properties)
    ensures AllRanked(FieldAccess(t, |t.fields|), 0) && AllRanked(MethodAccess(t, |t.methods|), 1)
    ensures AllRanked(AllPropertyProblems(t, |t.properties|), 2) && AllRanked(FieldNames(t, |t.fields|), 3)
  {
    forall d: Diagnostic
      ensures d in FieldAccess(t, |t.fields|) ==> Rank(d) == 0
      ensures d in MethodAccess(t, |t.methods|) ==> Rank(d) == 1
      ensures d in AllPropertyProblems(t, |t.properties|) ==> Rank(d) == 2
      ensures d in FieldNames(t, |t.fields|) ==> Rank(d) == 3
    {
      FieldsSay(t, |t.fields|, d);
      MethodsSay(t, |t.methods|, d);
      PropertiesSay(t, |t.properties|, d);
      NamesSay(t, |t.fields|, d);
    }
  }

  lemma RanksJoin(a: seq<Diagnostic>, b: seq<Diagnostic>, rank: nat, i: nat, j: nat)
    requires (forall d :: d in a ==> Rank(d) <= rank) && AllRanked(b, rank) && i < j < |a + b|
    requires j < |a| ==> Rank(a[i]) <= Rank(a[j])
    ensures Rank((a + b)[i]) <= Rank((a + b)[j])
  {
    assert j >= |a| ==> (a + b)[j] in b;
    assert i < |a| ==> (a + b)[i] in a;
    assert i >= |a| ==> (a + b)[i] in b;
  }

  /** The reports come in this order. */
  lemma ValidationInOrder(t: ReflectedType, i: nat, j: nat)
    requires PropertiesOk(t.properties) && i < j < |Validation(t)|
    ensures Rank(Validation(t)[i]) <= Rank(Validation(t)[j])
  {
    var f, m := FieldAccess(t, |t.fields|), MethodAccess(t, |t.methods|);
    var p, n := AllPropertyProblems(t, |t.properties|), FieldNames(t, |t.fields|);
    NoDuplicateProperty(t, |t.properties|);
    assert Validation(t) == f + m + p + n;
    PartsRanked(t);
    if j < |f| {
      assert f[i] in f && f[j] in f;
    }
    if j < |f + m| {
      RanksJoin(f, m, 1, i, j);
    }
    if j < |f + m + p| {
      RanksJoin(f + m, p, 2, i, j);
    }
    RanksJoin(f + m + p, n, 3, i, j);
  }

  lemma {:induction false} ProblemsAre(name: string, n: nat)
    ensures |Problems(name, n)| == n && forall k :: 0 <= k < n ==> Problems(name, n)[k] == BadDeclaration(name, k)
  {
    if n > 0 {
      ProblemsAre(name, n - 1);
    }
  }

  /** What is reported of one declaration: its own problems, then why it is refused
      as an accessor, then whether it is refused as a method. */
  lemma DeclarationSays(t: ReflectedType, d: Declaration, access: AccessKind)
    requires PropertiesOk(t.properties)
    ensures var reports := Declare(t, d, access).1;
      var callable := d.member.Callable?;
      var refused :=
        if callable && d.member.isProperty then AccessorProblem(t.properties, d.member.callable.(access := access))
        else None;
      var rvalue := callable && d.member.isMethod && d.member.callable.isRValueQualified;
      && |reports| == d.problems + (if refused != None then 1 else 0) + (if rvalue then 1 else 0)
      && (forall k :: 0 <= k < d.problems ==> reports[k] == BadDeclaration(t.cppQualifiedName, k))
      && (refused != None ==> reports[d.problems] == refused.value)
      && (rvalue ==> reports[|reports| - 1] == RValueMethod(d.member.callable.cppName))
  {
    ProblemsAre(t.cppQualifiedName, d.problems);
  }
}
