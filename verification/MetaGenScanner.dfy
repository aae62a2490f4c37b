/**
 The recursive scanner of MetaGen: it walks a token stream that need not be
 balanced, and collects the reflected types and the diagnostics.
 */
module MetaGenScanner {
  import opened Common
  import opened Tokenizer
  import opened TokenRanges
  import opened ReflectedTypes
  import opened TypeOrder
  import opened ScopeWalk
  import opened RecordMembers
  import opened Reflection

  /* ---------- what the model satisfies ---------- */

  predicate IsDuplicateType(d: Diagnostic) {
    d.DuplicateType?
  }

  // The diagnostics grew, and not by a report of a duplicate type.
  ghost predicate Extends(before: seq<Diagnostic>, after: seq<Diagnostic>) {
    before <= after && forall d :: d in after && d !in before ==> !IsDuplicateType(d)
  }

  ghost predicate ModelOk(types: seq<ReflectedType>, diagnostics: seq<Diagnostic>, names: set<string>,
                          ownedFiles: set<string>, pathKey: string -> string) {
    forall s {:trigger Opened(s)} :: Opened(s) ==>
      && (forall t :: t in types ==> t.reflectionName in names)
      && (forall x :: x in names ==> exists t :: t in types && t.reflectionName == x)
      && (forall t :: t in types ==> pathKey(t.declarationFile) in ownedFiles && PropertiesOk(t.properties))
      && ((exists d :: d in diagnostics && IsDuplicateType(d)) <==> !DistinctTypes(types))
      && (diagnostics == [] ==> forall t :: t in types ==> TypeOk(t))
  }

  lemma PushType(types: seq<ReflectedType>, diagnostics: seq<Diagnostic>, names: set<string>,
                 ownedFiles: set<string>, pathKey: string -> string, t: ReflectedType, after: seq<Diagnostic>)
    requires ModelOk(types, diagnostics, names, ownedFiles, pathKey)
    requires pathKey(t.declarationFile) in ownedFiles && PropertiesOk(t.properties)
    requires after == [] ==> TypeOk(t)
    requires diagnostics <= after
    requires forall d :: d in after && d !in diagnostics && IsDuplicateType(d) ==> t.reflectionName in names
    requires t.reflectionName in names ==> exists d :: d in after && IsDuplicateType(d)
    ensures ModelOk(types + [t], after, names + {t.reflectionName}, ownedFiles, pathKey)
  {
    assert Opened(Seal);
    var all := types + [t];
    assert forall u :: u in all <==> u in types || u == t;
    assert forall d :: d in diagnostics ==> d in after;
    DistinctPush(types, t, names);
    forall x | x in names + {t.reflectionName}
      ensures exists u :: u in all && u.reflectionName == x
    {
      if x == t.reflectionName {
        assert t in all;
      } else {
        var u :| u in types && u.reflectionName == x;
        assert u in all;
      }
    }
  }

  lemma DistinctPush(types: seq<ReflectedType>, t: ReflectedType, names: set<string>)
    requires forall u :: u in types ==> u.reflectionName in names
    requires forall x :: x in names ==> exists u :: u in types && u.reflectionName == x
    ensures DistinctTypes(types + [t]) <==> DistinctTypes(types) && t.reflectionName !in names
  {
    var all := types + [t];
    if t.reflectionName in names {
      var u :| u in types && u.reflectionName == t.reflectionName;
      var i :| 0 <= i < |types| && types[i] == u;
      assert all[i].reflectionName == all[|types|].reflectionName;
    }
    if !DistinctTypes(types) {
      var i, j :| 0 <= i < j < |types| && types[i].reflectionName == types[j].reflectionName;
      assert all[i] == types[i] && all[j] == types[j];
    }
  }

  lemma ModelMeans(types: seq<ReflectedType>, diagnostics: seq<Diagnostic>, names: set<string>,
                   ownedFiles: set<string>, pathKey: string -> string)
    requires ModelOk(types, diagnostics, names, ownedFiles, pathKey)
    ensures (exists d :: d in diagnostics && IsDuplicateType(d)) <==> !DistinctTypes(types)
    ensures forall t :: t in types ==> pathKey(t.declarationFile) in ownedFiles && PropertiesOk(t.properties)
    ensures diagnostics == [] ==> DistinctTypes(types) && forall t :: t in types ==> TypeOk(t)
  {
    assert Opened(Seal);
  }

  lemma NoNamesYet(diagnostics: seq<Diagnostic>, names: set<string>, ownedFiles: set<string>,
                   pathKey: string -> string)
    requires ModelOk([], diagnostics, names, ownedFiles, pathKey)
    ensures names == {}
  {
    assert Opened(Seal);
  }

  lemma MoreDiagnostics(types: seq<ReflectedType>, diagnostics: seq<Diagnostic>, names: set<string>,
                        ownedFiles: set<string>, pathKey: string -> string, after: seq<Diagnostic>)
    requires ModelOk(types, diagnostics, names, ownedFiles, pathKey) && Extends(diagnostics, after)
    ensures ModelOk(types, after, names, ownedFiles, pathKey)
  {
    assert Opened(Seal);
    assert forall d :: d in diagnostics ==> d in after;
  }

  // Seals Steps.
  predicate OpenedStep(s: Seal) { true }

  datatype WalkState = WalkState(cursor: nat, pending: seq<Annotation>, template: bool)

  /* ---------- the scanner ---------- */

  class Scanner {
    const tokens: seq<Token>
    const ownedFiles: set<string>
    const pathKey: string -> string
    const payload: string -> Payload
    const declare: Reader

    var types: seq<ReflectedType>
    var diagnostics: seq<Diagnostic>
    var reflectedNames: set<string>

    ghost predicate Valid()
      reads this
    {
      ModelOk(types, diagnostics, reflectedNames, ownedFiles, pathKey)
    }

    constructor (tokens: seq<Token>, ownedFiles: set<string>, pathKey: string -> string, payload: string -> Payload,
                 declare: Reader)
      ensures Valid() && types == [] && diagnostics == []
      ensures this.tokens == tokens && this.ownedFiles == ownedFiles && this.pathKey == pathKey
      ensures this.payload == payload && this.declare == declare
    {
      this.tokens, this.ownedFiles, this.pathKey := tokens, ownedFiles, pathKey;
      this.payload, this.declare := payload, declare;
      types, diagnostics, reflectedNames := [], [], {};
    }

    method Report(d: Diagnostic)
      modifies this`diagnostics
      ensures diagnostics == old(diagnostics) + [d]
    {
      diagnostics := diagnostics + [d];
    }

    method AddPropertyMethod(type_: ReflectedType, accessor: Method) returns (t: ReflectedType)
      requires PropertiesOk(type_.properties)
      modifies this`diagnostics
      ensures var problem := AccessorProblem(type_.properties, accessor);
        && t == (if problem.Some? then type_
                 else type_.(properties := WithAccessor(type_.properties, accessor)))
        && diagnostics == old(diagnostics) + (if problem.Some? then [problem.value] else [])
      ensures PropertiesOk(t.properties)
    {
      t := type_;
      if UnsupportedShape(accessor) {
        Report(UnsupportedAccessor(accessor.cppName));
        return;
      }
      var getter := accessor.parameters == [] && accessor.returnType != "void" && accessor.returnType != "";
      var setter := |accessor.parameters| == 1 && accessor.returnType == "void";
      if !getter && !setter {
        Report(NotAnAccessor(accessor.cppName));
        return;
      }
      var found := FindProperty(type_.properties, accessor.reflectionName);
      var p;
      if found == |type_.properties| {
        p := Property(accessor.reflectionName, accessor.attributes, None, None);
      } else {
        p := type_.properties[found];
      }
      if (if getter then p.getter.Some? else p.setter.Some?) {
        Report(if getter then DuplicateGetter(accessor.reflectionName) else DuplicateSetter(accessor.reflectionName));
        return;
      }
      p := p.(attributes := MergeAttributes(p.attributes, accessor.attributes));
      if getter {
        p := p.(getter := Some(accessor));
      } else {
        p := p.(setter := Some(accessor));
      }
      WithAccessorKeeps(type_.properties, accessor);
      if found == |type_.properties| {
        t := type_.(properties := type_.properties + [p]);
      } else {
        t := type_.(properties := type_.properties[found := p]);
      }
    }

    method ParseMember(type_: ReflectedType, begin: nat, end: nat, access: AccessKind) returns (t: ReflectedType)
      requires begin <= end <= |tokens| && PropertiesOk(type_.properties)
      modifies this`diagnostics
      ensures var (u, reports) := ReadMember(tokens, declare, type_, MemberRange(begin, end, access));
        t == u && diagnostics == old(diagnostics) + reports
      ensures PropertiesOk(t.properties)
    {
      if begin >= end {
        return type_;
      }
      var d := declare(tokens[begin..end], access, type_.cppQualifiedName);
      DeclareKeeps(type_, d, access);
      for k := 0 to d.problems
        invariant diagnostics == old(diagnostics) + Problems(type_.cppQualifiedName, k)
      {
        Report(BadDeclaration(type_.cppQualifiedName, k));
      }
      Regroup(old(diagnostics), Problems(type_.cppQualifiedName, d.problems), AddMember(type_, d.member, access).1);
      t := ApplyMember(type_, d.member, access);
    }

    method ApplyMember(type_: ReflectedType, member: Member, access: AccessKind) returns (t: ReflectedType)
      requires PropertiesOk(type_.properties)
      modifies this`diagnostics
      ensures var (u, reports) := AddMember(type_, member, access); t == u && diagnostics == old(diagnostics) + reports
    {
      t := type_;
      match member {
        case Nothing =>
        case GeneratedBody => t := t.(hasGeneratedBody := true);
        case ConstructorMember(constructed) =>
          t := t.(constructors := t.constructors + [constructed.(access := access)]);
        case FieldMember(field) => t := t.(fields := t.fields + [field.(access := access)]);
        case Callable(callable, isProperty, isMethod) =>
          var parsed := callable.(access := access);
          if isProperty {
            t := AddPropertyMethod(t, parsed);
          }
          if isMethod {
            if parsed.isRValueQualified {
              Report(RValueMethod(parsed.cppName));
            } else {
              t := t.(methods := t.methods + [parsed]);
            }
          }
      }
    }

    method ValidateType(t: ReflectedType)
      requires PropertiesOk(t.properties)
      modifies this`diagnostics
      ensures diagnostics == old(diagnostics) + Validation(t)
    {
      ValidateAccess(t);
      ValidateProperties(t);
      ValidateNames(t);
      RegroupFive(old(diagnostics), AccessProblems(t), AllPropertyProblems(t, |t.properties|),
              FieldNames(t, |t.fields|), PropertyNames(t, |t.properties|));
    }

    method ValidateProperties(t: ReflectedType)
      requires PropertiesOk(t.properties)
      modifies this`diagnostics
      ensures diagnostics == old(diagnostics) + AllPropertyProblems(t, |t.properties|)
    {
      for i := 0 to |t.properties|
        invariant diagnostics == old(diagnostics) + AllPropertyProblems(t, i)
      {
        ValidateProperty(t.properties[i], t.hasGeneratedBody);
      }
    }

    method ValidateAccess(t: ReflectedType)
      modifies this`diagnostics
      ensures diagnostics == old(diagnostics) + AccessProblems(t)
    {
      for i := 0 to |t.fields|
        invariant diagnostics == old(diagnostics) + FieldAccess(t, i)
      {
        if t.fields[i].access != Public && !t.hasGeneratedBody {
          Report(NonPublicField(t.fields[i].cppName));
        }
      }
      ghost var d := diagnostics;
      for i := 0 to |t.methods|
        invariant diagnostics == d + MethodAccess(t, i)
      {
        if t.methods[i].access != Public && !t.hasGeneratedBody {
          Report(NonPublicMethod(t.methods[i].cppName));
        }
      }
    }

    method ValidateProperty(p: Property, generated: bool)
      requires PropertyOk(p)
      modifies this`diagnostics
      ensures diagnostics == old(diagnostics) + PropertyProblems(p, generated)
    {
      if p.getter.None? {
        Report(NoGetter(p.reflectionName));
        return;
      }
      if p.setter.Some? {
        var getterType := StripTypeQualifiers(p.getter.value.returnType);
        var setterType := StripTypeQualifiers(p.setter.value.parameters[0].cppType);
        if getterType != setterType || p.getter.value.isStatic != p.setter.value.isStatic {
          Report(AccessorsDisagree(p.reflectionName));
        }
      }
      if (p.getter.value.access != Public || (p.setter.Some? && p.setter.value.access != Public)) && !generated {
        Report(NonPublicAccessor(p.reflectionName));
      }
    }

    // Fields and properties share one set of names; the prefixes keep them apart.
    method ValidateNames(t: ReflectedType)
      modifies this`diagnostics
      ensures diagnostics == old(diagnostics) + FieldNames(t, |t.fields|) + PropertyNames(t, |t.properties|)
    {
      var memberNames: set<string> := {};
      for i := 0 to |t.fields|
        invariant diagnostics == old(diagnostics) + FieldNames(t, i)
        invariant forall x :: x in memberNames <==> FieldKey(t, i, x)
      {
        var key := "field:" + t.fields[i].reflectionName;
        FieldSeen(t, i);
        if key in memberNames {
          Report(DuplicateField(t.fields[i].reflectionName));
        }
        memberNames := memberNames + {key};
      }
      ghost var d := diagnostics;
      for i := 0 to |t.properties|
        invariant diagnostics == d + PropertyNames(t, i)
        invariant forall x :: x in memberNames <==> FieldKey(t, |t.fields|, x) || PropertyKey(t, i, x)
      {
        var key := "property:" + t.properties[i].reflectionName;
        PropertySeen(t, i);
        if key in memberNames {
          Report(DuplicateProperty(t.properties[i].reflectionName));
        }
        memberNames := memberNames + {key};
      }
    }

    /** The body is read declaration by declaration, and then validated unless a
        brace is left open. */
    method ParseRecordMembers(type_: ReflectedType, begin: nat, end: nat) returns (t: ReflectedType)
      requires begin <= end <= |tokens| && PropertiesOk(type_.properties)
      modifies this`diagnostics
      ensures var (u, reports) := ReadBody(tokens, declare, type_, begin, end);
        t == u && diagnostics == old(diagnostics) + reports
    {
      MembersInOrder(tokens, begin, end, type_.defaultAccess);
      ghost var ms := Members(tokens, begin, end, type_.defaultAccess).0;
      ReadMembersKeeps(tokens, declare, type_, ms);
      var balanced;
      t, balanced := ParseMembers(type_, begin, end);
      ghost var reports := ReadMembers(tokens, declare, type_, ms).1;
      if balanced {
        Regroup(old(diagnostics), reports, Validation(t));
        ValidateType(t);
      } else {
        Regroup(old(diagnostics), reports, [UnbalancedBody(type_.cppQualifiedName)]);
        Report(UnbalancedBody(type_.cppQualifiedName));
      }
    }

    method ParseMembers(type_: ReflectedType, begin: nat, end: nat) returns (t: ReflectedType, balanced: bool)
      requires begin <= end <= |tokens| && PropertiesOk(type_.properties)
      requires RangesOk(tokens, Members(tokens, begin, end, type_.defaultAccess).0)
      modifies this`diagnostics
      ensures var (ms, ok) := Members(tokens, begin, end, type_.defaultAccess);
        var (u, reports) := ReadMembers(tokens, declare, type_, ms);
        t == u && balanced == ok && diagnostics == old(diagnostics) + reports
    {
      t := type_;
      var access := type_.defaultAccess;
      var cursor := begin;
      ghost var all := Members(tokens, begin, end, access);
      while cursor < end
        invariant begin <= cursor <= end && PropertiesOk(t.properties)
        invariant Members(tokens, cursor, end, access).1 == all.1
        invariant Continues(type_, all.0, old(diagnostics), t, Members(tokens, cursor, end, access).0, diagnostics)
      {
        if cursor + 1 < end && IsAccessLabel(tokens[cursor].text) && tokens[cursor + 1].text == ":" {
          access := AccessOf(tokens[cursor].text);
          cursor := cursor + 2;
          continue;
        }
        var scan := FindMemberEnd(cursor, end);
        if scan.Found? {
          ContinuesOn(type_, all.0, old(diagnostics), t, MemberRange(cursor, scan.stop, access),
                      Members(tokens, scan.next, end, access).0, diagnostics);
          t := ParseMember(t, cursor, scan.stop, access);
          cursor := scan.next;
        } else {
          ContinuesEnd(type_, all.0, old(diagnostics), t, diagnostics);
          return t, scan.Unfinished?;
        }
      }
      ContinuesEnd(type_, all.0, old(diagnostics), t, diagnostics);
      balanced := true;
    }

    // Reading the rest, from t on, is what reading everything comes to.
    ghost predicate Continues(type_: ReflectedType, all: seq<MemberRange>, before: seq<Diagnostic>,
                              t: ReflectedType, rest: seq<MemberRange>, now: seq<Diagnostic>)
    {
      && RangesOk(tokens, all) && RangesOk(tokens, rest)
      && var (u, reports) := ReadMembers(tokens, declare, type_, all);
         var (v, more) := ReadMembers(tokens, declare, t, rest);
         u == v && before + reports == now + more
    }

    lemma ContinuesOn(type_: ReflectedType, all: seq<MemberRange>, before: seq<Diagnostic>,
                      t: ReflectedType, m: MemberRange, rest: seq<MemberRange>, now: seq<Diagnostic>)
      requires Continues(type_, all, before, t, [m] + rest, now)
      ensures m.begin <= m.end <= |tokens|
      ensures var (u, reports) := ReadMember(tokens, declare, t, m);
        Continues(type_, all, before, u, rest, now + reports)
    {
      var ms := [m] + rest;
      assert ms[0] in ms && ms[1..] == rest;
      assert forall x :: x in rest ==> x in ms;
      var (u, reports) := ReadMember(tokens, declare, t, m);
      Regroup(now, reports, ReadMembers(tokens, declare, u, rest).1);
    }

    lemma ContinuesEnd(type_: ReflectedType, all: seq<MemberRange>, before: seq<Diagnostic>,
                       t: ReflectedType, now: seq<Diagnostic>)
      requires Continues(type_, all, before, t, [], now)
      ensures var (u, reports) := ReadMembers(tokens, declare, type_, all); u == t && before + reports == now
    {
      assert now + [] == now;
    }

    // The bracket counters after a token.
    method CountBracket(text: string, before: Brackets) returns (b: Brackets)
      ensures b == Bracketed(before, text)
    {
      b := before;
      if text == "(" {
        b := b.(parentheses := b.parentheses + 1);
      } else if text == ")" {
        b := b.(parentheses := b.parentheses - 1, closed := true);
      } else if text == "[" {
        b := b.(squares := b.squares + 1);
      } else if text == "]" {
        b := b.(squares := b.squares - 1);
      } else if text == "<" {
        b := b.(angles := b.angles + 1);
      } else if (text == ">" || text == ">>") && b.angles > 0 {
        var closing := if text == ">>" then 2 else 1;
        b := b.(angles := if b.angles > closing then b.angles - closing else 0);
      }
    }

    // Where the declaration that begins at a position ends.
    method FindMemberEnd(begin: nat, end: nat) returns (scan: MemberScan)
      requires begin < end <= |tokens|
      ensures scan == ScanMember(tokens, begin, end, NO_BRACKETS)
    {
      var cursor := begin;
      var b := NO_BRACKETS;
      while cursor < end
        invariant begin <= cursor <= end
        invariant ScanMember(tokens, cursor, end, b) == ScanMember(tokens, begin, end, NO_BRACKETS)
      {
        var text := tokens[cursor].text;
        if text == "{" && Outside(b) {
          var close := FindMatching(tokens, cursor, "{", "}", end);
          if close == end {
            return Unbalanced;
          }
          if b.closed {
            return Found(cursor, if close + 1 < end && tokens[close + 1].text == ";" then close + 2 else close + 1);
          }
          cursor := close;
        } else if text == ";" && Outside(b) {
          return Found(cursor, cursor + 1);
        } else {
          b := CountBracket(text, b);
        }
        cursor := cursor + 1;
      }
      return Unfinished;
    }

    // Whether the keyword follows `template` in the same declaration, looking
    // back no further than 256 tokens.
    method LookBehind(keywordIndex: nat) returns (found: bool)
      requires keywordIndex <= |tokens|
      ensures found == FollowsTemplate(tokens, keywordIndex)
    {
      var lookBehind := keywordIndex;
      while lookBehind > 0 && keywordIndex - lookBehind < 256
        invariant 0 <= lookBehind <= keywordIndex && keywordIndex - lookBehind <= 256
        invariant forall k :: lookBehind <= k < keywordIndex ==> tokens[k].text !in {";", "{", "}", "template"}
      {
        lookBehind := lookBehind - 1;
        var text := tokens[lookBehind].text;
        if text == ";" || text == "{" || text == "}" {
          return false;
        }
        if text == "template" {
          assert TemplateAt(tokens, lookBehind, keywordIndex);
          return true;
        }
      }
      return false;
    }

    predicate IsOwned(source: SourceLocation) {
      pathKey(source.file) in ownedFiles
    }

    function Setting(): Context {
      Context(tokens, ownedFiles, pathKey, declare)
    }

    function Now(): Model
      reads this
    {
      Model(types, diagnostics, reflectedNames)
    }

    // Reads the body of a definition, if it has one to be read.
    method ReadDefinition(s: Sighting) returns (t: ReflectedType)
      requires s.bodyBegin <= s.bodyEnd <= |tokens| && FindAnnotation(s.annotations, "reflect").Some?
      modifies this`diagnostics
      ensures t == TypeOf(Setting(), s)
      ensures diagnostics == old(diagnostics) + BodyOf(Setting(), s).1
    {
      var reflect := FindAnnotation(s.annotations, "reflect").value;
      t := NewType(reflect, s.name, s.isEnum, s.isStruct);
      if t.manualDescriptor {
      } else if s.isEnum {
      } else {
        t := ParseRecordMembers(t, s.bodyBegin, s.bodyEnd);
      }
    }

    // Reports the name of a definition when it is taken, and reads the body.
    method NameAndRead(s: Sighting) returns (t: ReflectedType)
      requires s.bodyBegin <= s.bodyEnd <= |tokens| && FindAnnotation(s.annotations, "reflect").Some?
      modifies this`diagnostics
      ensures t == TypeOf(Setting(), s)
      ensures diagnostics == old(diagnostics) + TypeReports(Setting(), s, reflectedNames)
    {
      ghost var reports, body := TypeReports(Setting(), s, reflectedNames), BodyOf(Setting(), s).1;
      TypeReportsAre(Setting(), s, reflectedNames);
      var name := OptionOr(FindAnnotation(s.annotations, "reflect").value, "name", s.name);
      ghost var first := if name in reflectedNames then [DuplicateType(name)] else [];
      if name in reflectedNames {
        Report(DuplicateType(name));
      }
      t := ReadDefinition(s);
      assert diagnostics == old(diagnostics) + first + body;
      Regroup(old(diagnostics), first, body);
      assert diagnostics == old(diagnostics) + reports;
    }

    // Adds the type of a sighting that is reflected, and reports its name when it is taken.
    method Reflect(s: Sighting)
      requires Valid() && s.bodyBegin <= s.bodyEnd <= |tokens| && Reflects(Setting(), s.annotations, s.openTemplate)
      modifies this
      ensures Valid() && old(diagnostics) <= diagnostics
      ensures types == old(types) + [TypeOf(Setting(), s)]
      ensures diagnostics == old(diagnostics) + TypeReports(Setting(), s, old(reflectedNames))
      ensures reflectedNames == old(reflectedNames) + {TypeOf(Setting(), s).reflectionName}
    {
      PushReflected(Setting(), Now(), s);
      var t := NameAndRead(s);
      reflectedNames := reflectedNames + {t.reflectionName};
      types := types + [t];
    }

    method ReflectType(s: Sighting)
      requires Valid() && s.bodyBegin <= s.bodyEnd <= |tokens|
      modifies this
      ensures Valid() && old(diagnostics) <= diagnostics
      ensures Added(Setting(), old(Now()), Now(), [s])
    {
      var reflect := FindAnnotation(s.annotations, "reflect");
      if reflect.Some? && s.openTemplate && IsOwned(reflect.value.begin) {
        MoreDiagnostics(types, diagnostics, reflectedNames, ownedFiles, pathKey,
                        diagnostics + [OpenTemplate(s.name)]);
        Report(OpenTemplate(s.name));
      }
      if reflect.Some? && FindAnnotation(s.annotations, "ignore").None? && IsOwned(reflect.value.begin) &&
         !s.openTemplate {
        Reflect(s);
      }
      AddedOne(Setting(), old(Now()), Now(), s);
    }

    // The first token from a position on with one of the texts.
    method FindStop(start: nat, end: nat, texts: set<string>) returns (cursor: nat)
      requires start <= end <= |tokens|
      ensures cursor == Stop(tokens, start, end, texts)
    {
      cursor := start;
      while cursor < end && tokens[cursor].text !in texts
        invariant start <= cursor <= end
        invariant Stop(tokens, cursor, end, texts) == Stop(tokens, start, end, texts)
      {
        cursor := cursor + 1;
      }
    }

    method TypeHead(start: nat, end: nat, isEnum: bool) returns (annotations: seq<Annotation>, name: nat, cursor: nat)
      requires start <= end <= |tokens|
      ensures (annotations, name, cursor) == Head(tokens, start, end, isEnum, payload)
    {
      cursor := AfterEnumKey(tokens, start, end, isEnum);
      annotations, cursor := AnnotationSequenceAt(tokens, cursor, end, payload);
      name := cursor;
      if cursor >= end || !tokens[cursor].identifier {
        return;
      }
      cursor := FindStop(cursor + 1, end, HEAD_STOPS);
    }

    /** The types reflected at a keyword, and inside it, are those of TypeAt. */
    method ParseTypeAt(keywordIndex: nat, pending: seq<Annotation>, start: nat, end: nat, scope: string,
                       templateDeclaration: bool) returns (next: nat)
      requires Valid() && keywordIndex < end <= |tokens| && start == keywordIndex + 1
      modifies this
      ensures Valid() && old(diagnostics) <= diagnostics
      ensures var (seen, after) := TypeAt(tokens, payload, keywordIndex, pending, end, scope, templateDeclaration);
        next == after && Added(Setting(), old(Now()), Now(), seen)
      decreases end - keywordIndex, 0
    {
      AddedNone(Setting(), Now());
      var sighting;
      sighting, next := FindDefinition(keywordIndex, pending, start, end, scope, templateDeclaration);
      if sighting.Some? {
        ParseBody(sighting.value);
      }
    }

    // The definition at a type keyword, if it has a body, and where the walk goes on.
    method FindDefinition(keywordIndex: nat, pending: seq<Annotation>, start: nat, end: nat, scope: string,
                          templateDeclaration: bool) returns (s: Option<Sighting>, next: nat)
      requires keywordIndex < end <= |tokens| && start == keywordIndex + 1
      ensures (s, next) == Definition(tokens, payload, keywordIndex, pending, end, scope, templateDeclaration)
    {
      var keyword := tokens[keywordIndex].text;
      var enumType, structType := keyword == "enum", keyword == "struct";
      var afterKeyword, nameIndex, cursor := TypeHead(start, end, enumType);
      if nameIndex >= end || !tokens[nameIndex].identifier {
        return None, keywordIndex + 1;
      }
      if cursor >= end || tokens[cursor].text != "{" {
        return None, cursor;
      }
      var bodyEnd := FindMatching(tokens, cursor, "{", "}", end);
      if bodyEnd == end {
        return None, end;
      }
      var lookBehind := LookBehind(keywordIndex);
      s := Some(Sighting(Qualified(scope, tokens[nameIndex].text), pending + afterKeyword,
                         templateDeclaration || lookBehind, enumType, structType, cursor + 1, bodyEnd));
      next := bodyEnd + 1;
    }

    // Reflects a definition, if it is to be, and then walks its body.
    method ParseBody(s: Sighting)
      requires Valid() && s.bodyBegin <= s.bodyEnd <= |tokens|
      modifies this
      ensures Valid() && old(diagnostics) <= diagnostics
      ensures Added(Setting(), old(Now()), Now(),
                    [s] + Walk(tokens, payload, s.bodyBegin, s.bodyEnd, s.name, [], false))
      decreases s.bodyEnd - s.bodyBegin, 3
    {
      ReflectType(s);
      ghost var between := Now();
      ghost var inside := WalkScope(s.bodyBegin, s.bodyEnd, s.name);
      AddedJoin(Setting(), old(Now()), between, Now(), [s], inside);
    }

    // What the walk has come to: the cursor, the annotations and the template that are pending.
    ghost function AheadOf(at: WalkState, end: nat, scope: string): seq<Sighting>
      requires end <= |tokens|
    {
      Walk(tokens, payload, at.cursor, end, scope, at.pending, at.template)
    }

    /** A walk terminates on every token range, balanced or not, and reflects
        exactly the definitions Walk sees. */
    method WalkScope(begin: nat, end: nat, scope: string) returns (ghost seen: seq<Sighting>)
      requires Valid() && begin <= end <= |tokens|
      modifies this
      ensures Valid() && old(diagnostics) <= diagnostics
      ensures seen == Walk(tokens, payload, begin, end, scope, [], false)
      ensures Added(Setting(), old(Now()), Now(), seen)
      decreases end - begin, 2
    {
      var at := WalkState(begin, [], false);
      seen := [];
      ghost var all := AheadOf(at, end, scope);
      AddedNone(Setting(), Now());
      while at.cursor < end
        invariant begin <= at.cursor <= end + 1
        invariant Valid() && old(diagnostics) <= diagnostics
        invariant Added(Setting(), old(Now()), Now(), seen) && seen + AheadOf(at, end, scope) == all
        decreases end + 1 - at.cursor
      {
        ghost var between := Now();
        ghost var inside: seq<Sighting>;
        ghost var before := at;
        at, inside := WalkStep(at, end, scope);
        AddedJoin(Setting(), old(Now()), between, Now(), seen, inside);
        StepJoin(seen, before, inside, at, end, scope);
        seen := seen + inside;
      }
      assert seen + [] == seen;
    }

    lemma StepJoin(seen: seq<Sighting>, at: WalkState, inside: seq<Sighting>, next: WalkState, end: nat, scope: string)
      requires end <= |tokens| && Steps(at, inside, next, end, scope)
      ensures seen + AheadOf(at, end, scope) == seen + inside + AheadOf(next, end, scope)
    {
      assert OpenedStep(Seal);
      Regroup(seen, inside, AheadOf(next, end, scope));
    }

    // One round of the loop leads from one state to the next and sees what is inside.
    ghost predicate Steps(at: WalkState, inside: seq<Sighting>, next: WalkState, end: nat, scope: string)
      requires end <= |tokens|
    {
      forall s {:trigger OpenedStep(s)} :: OpenedStep(s) ==>
        AheadOf(at, end, scope) == inside + AheadOf(next, end, scope)
    }

    // One round of the loop.
    method WalkStep(at: WalkState, end: nat, scope: string) returns (next: WalkState, ghost inside: seq<Sighting>)
      requires Valid() && at.cursor < end <= |tokens|
      modifies this
      ensures Valid() && old(diagnostics) <= diagnostics && at.cursor < next.cursor <= end + 1
      ensures Added(Setting(), old(Now()), Now(), inside)
      ensures Steps(at, inside, next, end, scope)
      decreases end - at.cursor, 1
    {
      inside := [];
      ghost var start := Now();
      AddedNone(Setting(), start);
      var skipped, ahead := SkipStep(at, end, scope);
      if skipped {
        return ahead, inside;
      }
      if tokens[at.cursor].text == "namespace" {
        var brace := FindStop(at.cursor + 1, end, NAMESPACE_STOPS);
        if brace < end && tokens[brace].text == "{" {
          var close, nestedScope := NamespaceBody(at, brace, end, scope);
          next := at.(cursor := close + 1, pending := []);
          assert Now() == start;
          inside := WalkScope(brace + 1, close, nestedScope);
          return;
        }
      }
      if IsTypeKeyword(tokens[at.cursor].text) {
        inside := TypeAt(tokens, payload, at.cursor, at.pending, end, scope, at.template).0;
        TypeUnfold(at, end, scope);
        assert Now() == start;
        var cursor := ParseTypeAt(at.cursor, at.pending, at.cursor + 1, end, scope, at.template);
        next := WalkState(cursor, [], false);
        return;
      }
      next := OrdinaryStep(at, end, scope);
    }

    // Template parameter lists and annotations.
    method SkipStep(at: WalkState, end: nat, scope: string) returns (skipped: bool, next: WalkState)
      requires at.cursor < end <= |tokens|
      ensures skipped ==> at.cursor < next.cursor <= end && Steps(at, [], next, end, scope)
      ensures !skipped ==> Undecorated(at.cursor, end)
    {
      next := at;
      if tokens[at.cursor].text == "template" && at.cursor + 1 < end && tokens[at.cursor + 1].text == "<" {
        var close := FindTemplateEnd(tokens, at.cursor + 1, end);
        next := at.(template := true, cursor := if close == end then end else close + 1);
        assert AheadOf(at, end, scope) == [] + AheadOf(next, end, scope);
        return true, next;
      }
      var annotation := ParseAnnotationAt(tokens, at.cursor, end, payload);
      if annotation.Some? {
        next := at.(pending := at.pending + [annotation.value.annotation], cursor := annotation.value.next);
        assert AheadOf(at, end, scope) == [] + AheadOf(next, end, scope);
        return true, next;
      }
      return false, at;
    }

    // Neither a template parameter list nor an annotation starts here.
    ghost predicate Undecorated(cursor: nat, end: nat)
      requires cursor < end <= |tokens|
    {
      && !(tokens[cursor].text == "template" && cursor + 1 < end && tokens[cursor + 1].text == "<")
      && AnnotationAt(tokens, cursor, end, payload).None?
    }

    // Any other token; a semicolon or a closing brace ends what was pending.
    method OrdinaryStep(at: WalkState, end: nat, scope: string) returns (next: WalkState)
      requires at.cursor < end <= |tokens| && Undecorated(at.cursor, end)
      requires !OpensNamespace(tokens, at.cursor, end) && !IsTypeKeyword(tokens[at.cursor].text)
      ensures next.cursor == at.cursor + 1 && Steps(at, [], next, end, scope)
    {
      next := at.(cursor := at.cursor + 1);
      if tokens[at.cursor].text == ";" || tokens[at.cursor].text == "}" {
        next := WalkState(at.cursor + 1, [], false);
      }
      assert AheadOf(at, end, scope) == [] + AheadOf(next, end, scope);
    }

    lemma TypeUnfold(at: WalkState, end: nat, scope: string)
      requires at.cursor < end <= |tokens| && Undecorated(at.cursor, end)
      requires !OpensNamespace(tokens, at.cursor, end) && IsTypeKeyword(tokens[at.cursor].text)
      ensures var (inside, cursor) := TypeAt(tokens, payload, at.cursor, at.pending, end, scope, at.template);
        Steps(at, inside, WalkState(cursor, [], false), end, scope)
    {
    }

    lemma NamespaceUnfold(at: WalkState, end: nat, scope: string)
      requires at.cursor < end <= |tokens| && Undecorated(at.cursor, end) && OpensNamespace(tokens, at.cursor, end)
      ensures var brace := Stop(tokens, at.cursor + 1, end, NAMESPACE_STOPS);
        var close := Matching(tokens, "{", "}", brace, end);
        var name := NamespaceText(tokens, at.cursor + 1, brace);
        var inner := if name == "" then scope else Qualified(scope, name);
        Steps(at, Walk(tokens, payload, brace + 1, close, inner, [], false),
              at.(cursor := close + 1, pending := []), end, scope)
    {
    }

    // Where the namespace ends, and the scope inside it.
    method NamespaceBody(at: WalkState, brace: nat, end: nat, scope: string) returns (close: nat, nestedScope: string)
      requires at.cursor < end <= |tokens| && Undecorated(at.cursor, end)
      requires OpensNamespace(tokens, at.cursor, end) && brace == Stop(tokens, at.cursor + 1, end, NAMESPACE_STOPS)
      ensures at.cursor < brace < close <= end
      ensures Steps(at, Walk(tokens, payload, brace + 1, close, nestedScope, [], false),
                    at.(cursor := close + 1, pending := []), end, scope)
    {
      close := FindMatching(tokens, brace, "{", "}", end);
      var namespaceName := NamespaceName(at.cursor + 1, brace);
      nestedScope := if namespaceName == "" then scope else Qualified(scope, namespaceName);
      NamespaceUnfold(at, end, scope);
    }

    method NamespaceName(start: nat, end: nat) returns (name: string)
      requires start <= end <= |tokens|
      ensures name == NamespaceText(tokens, start, end)
    {
      name := "";
      for cursor := start to end
        invariant name == NamespaceText(tokens, start, cursor)
      {
        if tokens[cursor].identifier || tokens[cursor].text == "::" {
          name := name + tokens[cursor].text;
        }
      }
    }

    /** A whole scan yields the reflected types of the walk, ordered by file and
        line, and reports exactly what they and the open templates give rise to.
        Names are distinct exactly when no duplicate is reported, every type is
        owned, accessors are merged by name in every scan, and a scan without
        diagnostics yields only valid types. */
    method Scan()
      requires Valid() && types == [] && diagnostics == []
      modifies this
      ensures var seen := Walk(tokens, payload, 0, |tokens|, "", [], false);
        && SortedFrom(Reflected(Setting(), seen), types, pathKey)
        && diagnostics == Reports(Setting(), seen, {})
      ensures (exists d :: d in diagnostics && IsDuplicateType(d)) <==> !DistinctTypes(types)
      ensures forall t :: t in types ==> pathKey(t.declarationFile) in ownedFiles && PropertiesOk(t.properties)
      ensures diagnostics == [] ==> DistinctTypes(types) && forall t :: t in types ==> TypeOk(t)
    {
      NoNamesYet(diagnostics, reflectedNames, ownedFiles, pathKey);
      ghost var seen := WalkScope(0, |tokens|, "");
      AddedFromNone(Setting(), Now(), seen);
      ModelMeans(types, diagnostics, reflectedNames, ownedFiles, pathKey);
      ghost var found := types;
      types := SortTypes(types, pathKey);
      SortingKeeps(found, types, pathKey);
    }
  }

  // A reflected type, with the report of its name and those of its body, keeps the model.
  lemma PushReflected(c: Context, m: Model, s: Sighting)
    requires Reflects(c, s.annotations, s.openTemplate)
    requires ModelOk(m.types, m.diagnostics, m.names, c.ownedFiles, c.pathKey)
    ensures var t, reports := TypeOf(c, s), TypeReports(c, s, m.names);
      ModelOk(m.types + [t], m.diagnostics + reports, m.names + {t.reflectionName}, c.ownedFiles, c.pathKey)
  {
    var (t, body) := BodyOf(c, s);
    BodyKeeps(c, s);
    var taken := t.reflectionName in m.names;
    var after := m.diagnostics + TypeReports(c, s, m.names);
    ReportedDuplicates(m.diagnostics, t.reflectionName, taken, body, after);
    PushType(m.types, m.diagnostics, m.names, c.ownedFiles, c.pathKey, t, after);
  }

  lemma ReportedDuplicates(before: seq<Diagnostic>, name: string, taken: bool, body: seq<Diagnostic>,
                           after: seq<Diagnostic>)
    requires after == before + ((if taken then [DuplicateType(name)] else []) + body)
    requires forall d :: d in body ==> !IsDuplicateType(d)
    ensures before <= after && (after == [] ==> body == [])
    ensures forall d :: d in after && d !in before && IsDuplicateType(d) ==> taken
    ensures taken ==> exists d :: d in after && IsDuplicateType(d)
  {
    if taken {
      var d := after[|before|];
      assert d in after && IsDuplicateType(d);
    }
  }

  ghost predicate FieldKey(t: ReflectedType, n: nat, x: string)
    requires n <= |t.fields|
  {
    exists j :: 0 <= j < n && x == "field:" + t.fields[j].reflectionName
  }

  ghost predicate PropertyKey(t: ReflectedType, n: nat, x: string)
    requires n <= |t.properties|
  {
    exists j :: 0 <= j < n && x == "property:" + t.properties[j].reflectionName
  }

  lemma RegroupFive<T>(a: seq<T>, b: seq<T>, c: seq<T>, d: seq<T>, e: seq<T>)
    ensures a + b + c + d + e == a + (b + c + d + e)
  {
  }

  lemma SamePrefix(prefix: string, a: string, b: string)
    requires prefix + a == prefix + b
    ensures a == b
  {
    assert a == (prefix + a)[|prefix|..] && b == (prefix + b)[|prefix|..];
  }

  lemma KeysDiffer(a: string, b: string)
    ensures "field:" + a != "property:" + b
  {
    assert ("field:" + a)[0] == 'f' && ("property:" + b)[0] == 'p';
  }

  lemma FieldSeen(t: ReflectedType, i: nat)
    requires i < |t.fields|
    ensures FieldKey(t, i, "field:" + t.fields[i].reflectionName) <==> SameFieldBefore(t, i)
  {
    var key := "field:" + t.fields[i].reflectionName;
    if FieldKey(t, i, key) {
      var j :| 0 <= j < i && key == "field:" + t.fields[j].reflectionName;
      SamePrefix("field:", t.fields[j].reflectionName, t.fields[i].reflectionName);
    }
  }

  lemma PropertySeen(t: ReflectedType, i: nat)
    requires i < |t.properties|
    ensures PropertyKey(t, i, "property:" + t.properties[i].reflectionName) <==> SamePropertyBefore(t, i)
    ensures !FieldKey(t, |t.fields|, "property:" + t.properties[i].reflectionName)
  {
    var key := "property:" + t.properties[i].reflectionName;
    if PropertyKey(t, i, key) {
      var j :| 0 <= j < i && key == "property:" + t.properties[j].reflectionName;
      SamePrefix("property:", t.properties[j].reflectionName, t.properties[i].reflectionName);
    }
    forall j | 0 <= j < |t.fields|
      ensures key != "field:" + t.fields[j].reflectionName
    {
      KeysDiffer(t.fields[j].reflectionName, t.properties[i].reflectionName);
    }
  }
}
