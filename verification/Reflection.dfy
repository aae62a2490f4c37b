/** What a scan makes of the definitions it sees: the reflected types and every report. */
module Reflection {
  import opened Common
  import opened Tokenizer
  import opened TokenRanges
  import opened ReflectedTypes
  import opened ScopeWalk
  import opened RecordMembers
  import opened BodyMembers
  import opened TypeOrder

  // What a scan depends on besides the walk itself.
  datatype Context = Context(
    tokens: seq<Token>,
    ownedFiles: set<string>,
    pathKey: string -> string,
    declare: Reader)

  // Reflection is asked for in an owned file.
  predicate Asked(c: Context, annotations: seq<Annotation>) {
    var reflect := FindAnnotation(annotations, "reflect");
    reflect.Some? && c.pathKey(reflect.value.begin.file) in c.ownedFiles
  }

  // The annotations ask for reflection, in an owned file, of a type that is not a template.
  predicate Reflects(c: Context, annotations: seq<Annotation>, openTemplate: bool) {
    Asked(c, annotations) && !openTemplate && FindAnnotation(annotations, "ignore").None?
  }

  // A reflected type before its body is read.
  function NewType(reflect: Annotation, name: string, isEnum: bool, isStruct: bool): ReflectedType {
    ReflectedType(isEnum, name, OptionOr(reflect, "name", name), reflect.begin.file, reflect.begin.line,
                  if isStruct || isEnum then Public else Private, OptionEnabled(reflect, "manual"),
                  false, [], [], [], [])
  }

  // The type of a definition and what is reported while its body is read; the body
  // of a record is read unless its descriptor is written by hand.
  ghost function BodyOf(c: Context, s: Sighting): (ReflectedType, seq<Diagnostic>)
    requires FindAnnotation(s.annotations, "reflect").Some?
  {
    var t := NewType(FindAnnotation(s.annotations, "reflect").value, s.name, s.isEnum, s.isStruct);
    if t.manualDescriptor || s.isEnum || !(s.bodyBegin <= s.bodyEnd <= |c.tokens|) then (t, [])
    else ReadBody(c.tokens, c.declare, t, s.bodyBegin, s.bodyEnd)
  }

  ghost function TypeOf(c: Context, s: Sighting): ReflectedType
    requires FindAnnotation(s.annotations, "reflect").Some?
  {
    BodyOf(c, s).0
  }

  // Reading a body keeps what was known before, and never reports a duplicate type.
  lemma BodyKeeps(c: Context, s: Sighting)
    requires FindAnnotation(s.annotations, "reflect").Some?
    ensures var reflect := FindAnnotation(s.annotations, "reflect").value;
      var (t, reports) := BodyOf(c, s);
      && t.reflectionName == OptionOr(reflect, "name", s.name) && t.declarationFile == reflect.begin.file
      && PropertiesOk(t.properties) && (forall d :: d in reports ==> !d.DuplicateType?)
      && (reports == [] ==> TypeOk(t))
  {
    var t := NewType(FindAnnotation(s.annotations, "reflect").value, s.name, s.isEnum, s.isStruct);
    if !(t.manualDescriptor || s.isEnum) && s.bodyBegin <= s.bodyEnd <= |c.tokens| {
      ReadBodyKeeps(c.tokens, c.declare, t, s.bodyBegin, s.bodyEnd);
    }
  }

  // The declarations in the body of a definition.
  ghost function Declarations(c: Context, s: Sighting): (ms: seq<MemberRange>)
    requires s.bodyBegin <= s.bodyEnd <= |c.tokens|
    ensures RangesOk(c.tokens, ms)
  {
    MembersInOrder(c.tokens, s.bodyBegin, s.bodyEnd, if s.isStruct then Public else Private);
    Members(c.tokens, s.bodyBegin, s.bodyEnd, if s.isStruct then Public else Private).0
  }

  /** A reflected record has exactly the members its body declares, each under the
      access of the nearest label before it, or else private in a class and public
      in a struct. */
  lemma RecordDeclares(c: Context, s: Sighting)
    requires FindAnnotation(s.annotations, "reflect").Some? && !s.isEnum && s.bodyBegin <= s.bodyEnd <= |c.tokens|
    requires !OptionEnabled(FindAnnotation(s.annotations, "reflect").value, "manual")
    ensures var ms := Declarations(c, s);
      && Having(TypeOf(c, s)) == GainOfAll(c.tokens, c.declare, s.name, ms)
      && forall m :: m in ms ==>
           AccessAt(c.tokens, Labels(c.tokens, s.bodyBegin, s.bodyEnd), m.begin,
                    if s.isStruct then Public else Private, m.access)
  {
    var t := NewType(FindAnnotation(s.annotations, "reflect").value, s.name, s.isEnum, s.isStruct);
    var gain := GainOfAll(c.tokens, c.declare, s.name, Declarations(c, s));
    ReadMembersGains(c.tokens, c.declare, t, Declarations(c, s));
    assert [] + gain.fields == gain.fields && [] + gain.methods == gain.methods;
    assert [] + gain.constructors == gain.constructors;
    MembersUnderLabels(c.tokens, s.bodyBegin, s.bodyEnd, if s.isStruct then Public else Private);
  }

  // What is reported for a reflected definition, given the names taken before it.
  ghost function TypeReports(c: Context, s: Sighting, names: set<string>): seq<Diagnostic>
    requires FindAnnotation(s.annotations, "reflect").Some?
  {
    var (t, reports) := BodyOf(c, s);
    (if t.reflectionName in names then [DuplicateType(t.reflectionName)] else []) + reports
  }

  lemma TypeReportsAre(c: Context, s: Sighting, names: set<string>)
    requires FindAnnotation(s.annotations, "reflect").Some?
    ensures var name := OptionOr(FindAnnotation(s.annotations, "reflect").value, "name", s.name);
      TypeReports(c, s, names) == (if name in names then [DuplicateType(name)] else []) + BodyOf(c, s).1
  {
    BodyKeeps(c, s);
  }

  ghost function SightingReports(c: Context, s: Sighting, names: set<string>): seq<Diagnostic> {
    if Asked(c, s.annotations) && s.openTemplate then [OpenTemplate(s.name)]
    else if Reflects(c, s.annotations, s.openTemplate) then TypeReports(c, s, names)
    else []
  }

  // The type of a definition that is reflected.
  ghost function ReflectedOne(c: Context, s: Sighting): seq<ReflectedType> {
    if Reflects(c, s.annotations, s.openTemplate) then [TypeOf(c, s)] else []
  }

  // The types of the sightings that are reflected, in order.
  ghost function Reflected(c: Context, ss: seq<Sighting>): seq<ReflectedType> {
    if ss == [] then [] else ReflectedOne(c, ss[0]) + Reflected(c, ss[1..])
  }

  // Every reflected type is that of a definition the walk saw.
  lemma {:induction false} ReflectedFrom(c: Context, ss: seq<Sighting>, t: ReflectedType)
    ensures t in Reflected(c, ss) <==>
            exists s :: s in ss && Reflects(c, s.annotations, s.openTemplate) && t == TypeOf(c, s)
  {
    if ss != [] {
      ReflectedFrom(c, ss[1..], t);
      assert forall s :: s in ss <==> s == ss[0] || s in ss[1..];
    }
  }

  ghost function NamesOf(types: seq<ReflectedType>): set<string> {
    set t | t in types :: t.reflectionName
  }

  // Everything the sightings give rise to, one after the other.
  ghost function Reports(c: Context, ss: seq<Sighting>, names: set<string>): seq<Diagnostic>
    decreases |ss|
  {
    if ss == [] then []
    else SightingReports(c, ss[0], names) + Reports(c, ss[1..], names + NamesOf(ReflectedOne(c, ss[0])))
  }

  lemma {:induction false} ReflectedJoin(c: Context, a: seq<Sighting>, b: seq<Sighting>)
    ensures Reflected(c, a + b) == Reflected(c, a) + Reflected(c, b)
  {
    if a == [] {
      assert a + b == b;
    } else {
      assert (a + b)[1..] == a[1..] + b;
      ReflectedJoin(c, a[1..], b);
      Regroup(ReflectedOne(c, a[0]), Reflected(c, a[1..]), Reflected(c, b));
    }
  }

  lemma NamesJoin(s: seq<ReflectedType>, t: seq<ReflectedType>)
    ensures NamesOf(s + t) == NamesOf(s) + NamesOf(t)
  {
  }

  lemma {:induction false} ReportsJoin(c: Context, a: seq<Sighting>, b: seq<Sighting>, names: set<string>)
    ensures Reports(c, a + b, names) == Reports(c, a, names) + Reports(c, b, names + NamesOf(Reflected(c, a)))
    decreases |a|
  {
    if a == [] {
      assert a + b == b;
      assert names + NamesOf(Reflected(c, a)) == names;
    } else {
      assert (a + b)[1..] == a[1..] + b;
      var more := names + NamesOf(ReflectedOne(c, a[0]));
      ReportsJoin(c, a[1..], b, more);
      NamesJoin(ReflectedOne(c, a[0]), Reflected(c, a[1..]));
      assert more + NamesOf(Reflected(c, a[1..])) == names + NamesOf(Reflected(c, a));
      Regroup(SightingReports(c, a[0], names), Reports(c, a[1..], more),
              Reports(c, b, names + NamesOf(Reflected(c, a))));
    }
  }

  /* ---------- how the scanner's model grows ---------- */

  datatype Model = Model(types: seq<ReflectedType>, diagnostics: seq<Diagnostic>, names: set<string>)

  // Seals Added.
  predicate OpenedAdded(s: Seal) { true }

  // The model grew by what the sightings give rise to.
  ghost predicate Added(c: Context, before: Model, after: Model, ss: seq<Sighting>) {
    forall o {:trigger OpenedAdded(o)} :: OpenedAdded(o) ==>
      && after.types == before.types + Reflected(c, ss)
      && after.diagnostics == before.diagnostics + Reports(c, ss, before.names)
      && after.names == before.names + NamesOf(Reflected(c, ss))
  }

  lemma AddedNone(c: Context, m: Model)
    ensures Added(c, m, m, [])
  {
    assert m.types + [] == m.types && m.diagnostics + [] == m.diagnostics && m.names + NamesOf([]) == m.names;
  }

  lemma AddedOne(c: Context, before: Model, after: Model, s: Sighting)
    requires after.types == before.types + ReflectedOne(c, s)
    requires after.diagnostics == before.diagnostics + SightingReports(c, s, before.names)
    requires after.names == before.names + NamesOf(ReflectedOne(c, s))
    ensures Added(c, before, after, [s])
  {
    assert [s][1..] == [];
    assert Reflected(c, [s]) == ReflectedOne(c, s) + Reflected(c, []);
    assert Reports(c, [s], before.names) == SightingReports(c, s, before.names)
                                            + Reports(c, [], before.names + NamesOf(ReflectedOne(c, s)));
  }

  lemma AddedJoin(c: Context, before: Model, between: Model, after: Model, ss: seq<Sighting>, tt: seq<Sighting>)
    requires Added(c, before, between, ss) && Added(c, between, after, tt)
    ensures Added(c, before, after, ss + tt)
  {
    assert OpenedAdded(Seal);
    ReflectedJoin(c, ss, tt);
    ReportsJoin(c, ss, tt, before.names);
    NamesJoin(Reflected(c, ss), Reflected(c, tt));
    Regroup(before.types, Reflected(c, ss), Reflected(c, tt));
    Regroup(before.diagnostics, Reports(c, ss, before.names), Reports(c, tt, between.names));
  }

  lemma AddedFromNone(c: Context, m: Model, ss: seq<Sighting>)
    requires Added(c, Model([], [], {}), m, ss)
    ensures m.types == Reflected(c, ss) && m.diagnostics == Reports(c, ss, {})
  {
    assert OpenedAdded(Seal);
  }

  /* ---------- when a scan is silent ---------- */

  // Nothing is wrong with a definition by itself: it is not an open template that
  // asks for reflection, and if its body is read, that is balanced, its members
  // are read without a report, and the type satisfies every rule.
  ghost predicate Flawless(c: Context, s: Sighting) {
    && !(Asked(c, s.annotations) && s.openTemplate)
    && (Reflects(c, s.annotations, s.openTemplate) ==> BodyOk(c, s))
  }

  ghost predicate BodyOk(c: Context, s: Sighting)
    requires FindAnnotation(s.annotations, "reflect").Some?
  {
    var t := NewType(FindAnnotation(s.annotations, "reflect").value, s.name, s.isEnum, s.isStruct);
    t.manualDescriptor || s.isEnum || !(s.bodyBegin <= s.bodyEnd <= |c.tokens|) ||
    ReadsSilently(c.tokens, c.declare, t, s.bodyBegin, s.bodyEnd)
  }

  /** A scan reports nothing exactly when every definition is flawless and the
      names of the reflected types are distinct. */
  lemma SilentExactly(c: Context, ss: seq<Sighting>)
    ensures Reports(c, ss, {}) == [] <==>
            (forall s :: s in ss ==> Flawless(c, s)) && DistinctTypes(Reflected(c, ss))
  {
    SilentFrom(c, ss, {});
  }

  lemma {:induction false} SilentFrom(c: Context, ss: seq<Sighting>, names: set<string>)
    ensures Reports(c, ss, names) == [] <==>
            (forall s :: s in ss ==> Flawless(c, s)) && DistinctTypes(Reflected(c, ss))
            && NamesOf(Reflected(c, ss)) !! names
    decreases |ss|
  {
    if ss != [] {
      var one, rest := ReflectedOne(c, ss[0]), Reflected(c, ss[1..]);
      SilentOne(c, ss[0], names);
      SilentFrom(c, ss[1..], names + NamesOf(one));
      NamesJoin(one, rest);
      DistinctFirst(one, rest);
      assert forall s :: s in ss <==> s == ss[0] || s in ss[1..];
    }
  }

  lemma SilentOne(c: Context, s: Sighting, names: set<string>)
    ensures SightingReports(c, s, names) == [] <==> Flawless(c, s) && NamesOf(ReflectedOne(c, s)) !! names
  {
    if Reflects(c, s.annotations, s.openTemplate) {
      var t := NewType(FindAnnotation(s.annotations, "reflect").value, s.name, s.isEnum, s.isStruct);
      if !(t.manualDescriptor || s.isEnum) && s.bodyBegin <= s.bodyEnd <= |c.tokens| {
        SilentBody(c.tokens, c.declare, t, s.bodyBegin, s.bodyEnd);
      }
      assert NamesOf([TypeOf(c, s)]) == {TypeOf(c, s).reflectionName};
    } else {
      assert NamesOf([]) == {};
    }
  }

  lemma DistinctFirst(one: seq<ReflectedType>, rest: seq<ReflectedType>)
    requires |one| <= 1
    ensures DistinctTypes(one + rest) <==> DistinctTypes(rest) && NamesOf(rest) !! NamesOf(one)
  {
    if one == [] {
      assert one + rest == rest;
    } else {
      DistinctBehind(one[0], rest);
      assert one == [one[0]] && NamesOf(one) == {one[0].reflectionName};
    }
  }

  lemma DistinctBehind(t: ReflectedType, rest: seq<ReflectedType>)
    ensures DistinctTypes([t] + rest) <==> DistinctTypes(rest) && t.reflectionName !in NamesOf(rest)
  {
    var all := [t] + rest;
    if DistinctTypes(all) {
      forall i | 0 <= i < |rest|
        ensures rest[i].reflectionName != t.reflectionName
      {
        assert all[0].reflectionName != all[i + 1].reflectionName;
      }
      forall i, j | 0 <= i < j < |rest|
        ensures rest[i].reflectionName != rest[j].reflectionName
      {
        assert all[i + 1].reflectionName != all[j + 1].reflectionName;
      }
    } else {
      var i, j :| 0 <= i < j < |all| && all[i].reflectionName == all[j].reflectionName;
      assert all[j] == rest[j - 1] && rest[j - 1].reflectionName in NamesOf(rest);
      assert i > 0 ==> all[i] == rest[i - 1];
    }
  }
}
