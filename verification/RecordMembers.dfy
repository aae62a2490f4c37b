/**
 The members of a record body: where each declaration begins and ends, and what
 it does to the reflected type.
 */
module RecordMembers {
  import opened Common
  import opened Tokenizer
  import opened TokenRanges
  import opened ReflectedTypes

  // How one member declaration is read. The reading itself is a parameter of
  // the scanner, so what is proved holds for every way of reading declarations.
  datatype Member =
    | Nothing
    | GeneratedBody
    | ConstructorMember(constructed: Constructor)
    | Callable(callable: Method, isProperty: bool, isMethod: bool)
    | FieldMember(field: Field)

  datatype Declaration = Declaration(problems: nat, member: Member)

  /* ---------- adding an accessor ---------- */

  // Entries the target already has win.
  function MergeAttributes(target: AttributeSet, source: AttributeSet): AttributeSet {
    source + target
  }

  function SlotTaken(p: Property, m: Method): bool {
    if IsGetter(m) then p.getter.Some? else p.setter.Some?
  }

  function Fill(p: Property, m: Method): Property {
    var q := p.(attributes := MergeAttributes(p.attributes, m.attributes));
    if IsGetter(m) then q.(getter := Some(m)) else q.(setter := Some(m))
  }

  // Why a method is not accepted as a property accessor.
  function AccessorProblem(ps: seq<Property>, m: Method): Option<Diagnostic> {
    var k := FindProperty(ps, m.reflectionName);
    if UnsupportedShape(m) then Some(UnsupportedAccessor(m.cppName))
    else if !IsGetter(m) && !IsSetter(m) then Some(NotAnAccessor(m.cppName))
    else if k < |ps| && SlotTaken(ps[k], m) then
      Some(if IsGetter(m) then DuplicateGetter(m.reflectionName) else DuplicateSetter(m.reflectionName))
    else None
  }

  // The properties once an accepted accessor is merged in by name.
  function WithAccessor(ps: seq<Property>, m: Method): seq<Property> {
    var k := FindProperty(ps, m.reflectionName);
    if k < |ps| then ps[k := Fill(ps[k], m)]
    else ps + [Fill(Property(m.reflectionName, m.attributes, None, None), m)]
  }

  /** Names stay distinct and every slot keeps an accessor of its shape. */
  lemma WithAccessorKeeps(ps: seq<Property>, m: Method)
    requires PropertiesOk(ps) && AccessorProblem(ps, m).None?
    ensures PropertiesOk(WithAccessor(ps, m))
  {
    var k := FindProperty(ps, m.reflectionName);
    var qs := WithAccessor(ps, m);
    if k < |ps| {
      assert PropertyOk(ps[k]);
      assert forall q :: q in qs ==> q in ps || q == Fill(ps[k], m);
    }
  }

  // The slots found under a name.
  function Slots(ps: seq<Property>, name: string): (Option<Method>, Option<Method>) {
    var k := FindProperty(ps, name);
    if k < |ps| then (ps[k].getter, ps[k].setter) else (None, None)
  }

  /** An accepted accessor fills its own slot, which was empty, and no other. */
  lemma WithAccessorFills(ps: seq<Property>, m: Method, name: string)
    requires PropertiesOk(ps) && AccessorProblem(ps, m).None?
    ensures Slots(WithAccessor(ps, m), name) ==
            (var (g, s) := Slots(ps, name);
             if name != m.reflectionName then (g, s) else if IsGetter(m) then (Some(m), s) else (g, Some(m)))
    ensures var (g, s) := Slots(ps, m.reflectionName); if IsGetter(m) then g.None? else s.None?
  {
    WithAccessorKeeps(ps, m);
    var k := FindProperty(ps, m.reflectionName);
    var qs := WithAccessor(ps, m);
    var j, i := FindProperty(qs, name), FindProperty(ps, name);
    if i < |ps| {
      assert qs[i].reflectionName == name;
      assert j == i;
    } else if name == m.reflectionName {
      assert qs[|ps|].reflectionName == name;
      assert j == |ps|;
    } else {
      assert forall l :: 0 <= l < |qs| ==> qs[l].reflectionName != name;
      assert j == |qs|;
    }
  }

  // Parsing a type's body changes only what the body determines.
  predicate SameHeader(t: ReflectedType, u: ReflectedType) {
    u == t.(hasGeneratedBody := u.hasGeneratedBody, fields := u.fields, methods := u.methods,
            properties := u.properties, constructors := u.constructors)
  }

  predicate IsAccessLabel(text: string) {
    text in {"public", "protected", "private"}
  }

  function AccessOf(word: string): AccessKind {
    if word == "public" then Public else if word == "protected" then Protected else Private
  }

  /* ---------- the effect of a declaration ---------- */

  // How the declaration in a range of tokens is read, given the access and the type's name.
  type Reader = (seq<Token>, AccessKind, string) -> Declaration

  function Problems(name: string, n: nat): seq<Diagnostic> {
    if n == 0 then [] else Problems(name, n - 1) + [BadDeclaration(name, n - 1)]
  }

  // The type after the accessor has been offered, and what is reported.
  function OfferAccessor(t: ReflectedType, m: Method): (ReflectedType, seq<Diagnostic>) {
    var problem := AccessorProblem(t.properties, m);
    if problem.Some? then (t, [problem.value]) else (t.(properties := WithAccessor(t.properties, m)), [])
  }

  function OfferMethod(t: ReflectedType, m: Method): (ReflectedType, seq<Diagnostic>) {
    if m.isRValueQualified then (t, [RValueMethod(m.cppName)]) else (t.(methods := t.methods + [m]), [])
  }

  function AddMember(t: ReflectedType, member: Member, access: AccessKind): (ReflectedType, seq<Diagnostic>) {
    match member
    case Nothing => (t, [])
    case GeneratedBody => (t.(hasGeneratedBody := true), [])
    case ConstructorMember(c) => (t.(constructors := t.constructors + [c.(access := access)]), [])
    case FieldMember(f) => (t.(fields := t.fields + [f.(access := access)]), [])
    case Callable(callable, isProperty, isMethod) =>
      var m := callable.(access := access);
      var (u, first) := if isProperty then OfferAccessor(t, m) else (t, []);
      var (v, second) := if isMethod then OfferMethod(u, m) else (u, []);
      (v, first + second)
  }

  function Declare(t: ReflectedType, d: Declaration, access: AccessKind): (ReflectedType, seq<Diagnostic>) {
    var (u, reports) := AddMember(t, d.member, access);
    (u, Problems(t.cppQualifiedName, d.problems) + reports)
  }

  lemma {:induction false} ProblemsPlain(name: string, n: nat)
    ensures forall d :: d in Problems(name, n) ==> !d.DuplicateType?
  {
    if n > 0 {
      ProblemsPlain(name, n - 1);
    }
  }

  lemma DeclareKeeps(t: ReflectedType, d: Declaration, access: AccessKind)
    requires PropertiesOk(t.properties)
    ensures var (u, reports) := Declare(t, d, access);
      SameHeader(t, u) && PropertiesOk(u.properties) && forall x :: x in reports ==> !x.DuplicateType?
  {
    ProblemsPlain(t.cppQualifiedName, d.problems);
    AddMemberKeeps(t, d.member, access);
  }

  lemma AddMemberKeeps(t: ReflectedType, member: Member, access: AccessKind)
    requires PropertiesOk(t.properties)
    ensures var (u, reports) := AddMember(t, member, access);
      SameHeader(t, u) && PropertiesOk(u.properties) && forall x :: x in reports ==> !x.DuplicateType?
  {
    if member.Callable? {
      OfferAccessorKeeps(t, member.callable.(access := access));
    }
  }

  lemma OfferAccessorKeeps(t: ReflectedType, m: Method)
    requires PropertiesOk(t.properties)
    ensures var (u, reports) := OfferAccessor(t, m);
      SameHeader(t, u) && PropertiesOk(u.properties) && forall x :: x in reports ==> !x.DuplicateType?
  {
    if AccessorProblem(t.properties, m).None? {
      WithAccessorKeeps(t.properties, m);
    }
  }

  /* ---------- where declarations end ---------- */

  // Found: the declaration's tokens end at `stop`, and the next one is looked for at `next`.
  datatype MemberScan = Found(stop: nat, next: nat) | Unbalanced | Unfinished

  // The brackets open inside a declaration, and whether a `)` has been seen.
  datatype Brackets = Brackets(parentheses: int, squares: int, angles: nat, closed: bool)

  const NO_BRACKETS: Brackets := Brackets(0, 0, 0, false)

  predicate Outside(b: Brackets) {
    b.parentheses == 0 && b.squares == 0 && b.angles == 0
  }

  // The brackets after a token other than a brace or a semicolon outside all brackets.
  function Bracketed(b: Brackets, text: string): Brackets {
    if text == "(" then b.(parentheses := b.parentheses + 1)
    else if text == ")" then b.(parentheses := b.parentheses - 1, closed := true)
    else if text == "[" then b.(squares := b.squares + 1)
    else if text == "]" then b.(squares := b.squares - 1)
    else if text == "<" then b.(angles := b.angles + 1)
    else if (text == ">" || text == ">>") && b.angles > 0 then
      var closing := if text == ">>" then 2 else 1;
      b.(angles := if b.angles > closing then b.angles - closing else 0)
    else b
  }

  ghost function ScanMember(tokens: seq<Token>, cursor: nat, end: nat, b: Brackets): (r: MemberScan)
    requires cursor <= end <= |tokens|
    ensures r.Found? ==> cursor <= r.stop < r.next <= end
    decreases end - cursor
  {
    if cursor == end then Unfinished
    else
      var text := tokens[cursor].text;
      if text == "{" && Outside(b) then
        var close := Matching(tokens, "{", "}", cursor, end);
        if close == end then Unbalanced
        else if b.closed then
          Found(cursor, if close + 1 < end && tokens[close + 1].text == ";" then close + 2 else close + 1)
        else ScanMember(tokens, close + 1, end, b)
      else if text == ";" && Outside(b) then Found(cursor, cursor + 1)
      else ScanMember(tokens, cursor + 1, end, Bracketed(b, text))
  }

  datatype MemberRange = MemberRange(begin: nat, end: nat, access: AccessKind)

  predicate IsLabelAt(tokens: seq<Token>, cursor: nat, end: nat)
    requires cursor < end <= |tokens|
  {
    cursor + 1 < end && IsAccessLabel(tokens[cursor].text) && tokens[cursor + 1].text == ":"
  }

  // The declarations of a body, in order, and whether all its braces matched.
  ghost function Members(tokens: seq<Token>, cursor: nat, end: nat, access: AccessKind): (r: (seq<MemberRange>, bool))
    requires cursor <= end <= |tokens|
    decreases end - cursor
  {
    if cursor == end then ([], true)
    else if IsLabelAt(tokens, cursor, end) then Members(tokens, cursor + 2, end, AccessOf(tokens[cursor].text))
    else
      match ScanMember(tokens, cursor, end, NO_BRACKETS)
      case Unbalanced => ([], false)
      case Unfinished => ([], true)
      case Found(stop, next) =>
        var (rest, balanced) := Members(tokens, next, end, access);
        ([MemberRange(cursor, stop, access)] + rest, balanced)
  }

  /** The declarations are disjoint, in order and inside the body. */
  lemma {:induction false} MembersInOrder(tokens: seq<Token>, cursor: nat, end: nat, access: AccessKind)
    requires cursor <= end <= |tokens|
    ensures var ms := Members(tokens, cursor, end, access).0;
      && (forall m :: m in ms ==> cursor <= m.begin <= m.end < end)
      && (forall i, j :: 0 <= i < j < |ms| ==> ms[i].end < ms[j].begin)
    decreases end - cursor
  {
    if cursor < end {
      if IsLabelAt(tokens, cursor, end) {
        MembersInOrder(tokens, cursor + 2, end, AccessOf(tokens[cursor].text));
      } else {
        var scan := ScanMember(tokens, cursor, end, NO_BRACKETS);
        if scan.Found? {
          MembersInOrder(tokens, scan.next, end, access);
        }
      }
    }
  }

  function ReadMember(tokens: seq<Token>, reader: Reader, t: ReflectedType, m: MemberRange)
      : (ReflectedType, seq<Diagnostic>)
    requires m.begin <= m.end <= |tokens|
  {
    if m.begin == m.end then (t, [])
    else Declare(t, reader(tokens[m.begin..m.end], m.access, t.cppQualifiedName), m.access)
  }

  ghost predicate RangesOk(tokens: seq<Token>, ms: seq<MemberRange>) {
    forall m :: m in ms ==> m.begin <= m.end <= |tokens|
  }

  // The type after all the declarations, and everything reported on the way.
  ghost function ReadMembers(tokens: seq<Token>, reader: Reader, t: ReflectedType, ms: seq<MemberRange>)
      : (ReflectedType, seq<Diagnostic>)
    requires RangesOk(tokens, ms)
    decreases |ms|
  {
    if ms == [] then (t, [])
    else
      assert ms[0] in ms;
      var (u, first) := ReadMember(tokens, reader, t, ms[0]);
      var (v, rest) := ReadMembers(tokens, reader, u, ms[1..]);
      (v, first + rest)
  }

  lemma {:induction false} ReadMembersKeeps(tokens: seq<Token>, reader: Reader, t: ReflectedType, ms: seq<MemberRange>)
    requires RangesOk(tokens, ms) && PropertiesOk(t.properties)
    ensures var (u, reports) := ReadMembers(tokens, reader, t, ms);
      SameHeader(t, u) && PropertiesOk(u.properties) && forall x :: x in reports ==> !x.DuplicateType?
    decreases |ms|
  {
    if ms != [] {
      var m := ms[0];
      assert m in ms;
      if m.begin < m.end {
        DeclareKeeps(t, reader(tokens[m.begin..m.end], m.access, t.cppQualifiedName), m.access);
      }
      ReadMembersKeeps(tokens, reader, ReadMember(tokens, reader, t, m).0, ms[1..]);
    }
  }

  // What reading a whole body comes to: the type, and every report.
  ghost function ReadBody(tokens: seq<Token>, reader: Reader, t: ReflectedType, begin: nat, end: nat)
      : (ReflectedType, seq<Diagnostic>)
    requires begin <= end <= |tokens| && PropertiesOk(t.properties)
  {
    MembersInOrder(tokens, begin, end, t.defaultAccess);
    var (ms, balanced) := Members(tokens, begin, end, t.defaultAccess);
    ReadMembersKeeps(tokens, reader, t, ms);
    var (u, reports) := ReadMembers(tokens, reader, t, ms);
    (u, reports + if balanced then Validation(u) else [UnbalancedBody(t.cppQualifiedName)])
  }

  /** Reading a body changes only what the body determines, never reports a
      duplicate type, and reports nothing only for a valid type. */
  lemma ReadBodyKeeps(tokens: seq<Token>, reader: Reader, t: ReflectedType, begin: nat, end: nat)
    requires begin <= end <= |tokens| && PropertiesOk(t.properties)
    ensures var (u, reports) := ReadBody(tokens, reader, t, begin, end);
      && SameHeader(t, u) && PropertiesOk(u.properties)
      && (forall x :: x in reports ==> !x.DuplicateType?)
      && (reports == [] ==> TypeOk(u))
  {
    MembersInOrder(tokens, begin, end, t.defaultAccess);
    var (ms, balanced) := Members(tokens, begin, end, t.defaultAccess);
    ReadMembersKeeps(tokens, reader, t, ms);
    var u := ReadMembers(tokens, reader, t, ms).0;
    ValidationExact(u);
    ValidationPlain(u);
  }

  // The body is balanced, its members are read without a report, and the type is valid.
  ghost predicate ReadsSilently(tokens: seq<Token>, reader: Reader, t: ReflectedType, begin: nat, end: nat)
    requires begin <= end <= |tokens| && PropertiesOk(t.properties)
  {
    MembersInOrder(tokens, begin, end, t.defaultAccess);
    var (ms, balanced) := Members(tokens, begin, end, t.defaultAccess);
    var (u, reports) := ReadMembers(tokens, reader, t, ms);
    balanced && reports == [] && TypeOk(u)
  }

  lemma SilentBody(tokens: seq<Token>, reader: Reader, t: ReflectedType, begin: nat, end: nat)
    requires begin <= end <= |tokens| && PropertiesOk(t.properties)
    ensures ReadBody(tokens, reader, t, begin, end).1 == [] <==> ReadsSilently(tokens, reader, t, begin, end)
  {
    MembersInOrder(tokens, begin, end, t.defaultAccess);
    var ms := Members(tokens, begin, end, t.defaultAccess).0;
    ReadMembersKeeps(tokens, reader, t, ms);
    ValidationExact(ReadMembers(tokens, reader, t, ms).0);
  }
}
