/**
 What a record body declares: under which access each declaration stands, and
 which members the type gets.
 */
module BodyMembers {
  import opened Common
  import opened Tokenizer
  import opened TokenRanges
  import opened ReflectedTypes
  import opened RecordMembers

  /* ---------- under which access a member is read ---------- */

  // The positions of the access labels among the declarations of a body.
  ghost function Labels(tokens: seq<Token>, cursor: nat, end: nat): (r: set<nat>)
    requires cursor <= end <= |tokens|
    ensures forall l :: l in r ==> cursor <= l < end
    decreases end - cursor
  {
    if cursor == end then {}
    else if LabelStands(tokens, cursor, end) then {cursor} + Labels(tokens, cursor + 2, end)
    else
      var scan := ScanMember(tokens, cursor, end, NO_BRACKETS);
      if scan.Found? then Labels(tokens, scan.next, end) else {}
  }

  // `public:`, `protected:` or `private:` stands here.
  predicate LabelStands(tokens: seq<Token>, at: nat, end: nat)
    requires at < end <= |tokens|
  {
    && at + 1 < end && tokens[at + 1].text == ":"
    && (tokens[at].text == "public" || tokens[at].text == "protected" || tokens[at].text == "private")
  }

  // The access a label announces.
  predicate Announces(text: string, access: AccessKind) {
    || (text == "public" && access == Public) || (text == "protected" && access == Protected)
    || (text == "private" && access == Private)
  }

  // The access at a position is that of the nearest label before it, or the initial one.
  ghost predicate AccessAt(tokens: seq<Token>, labels: set<nat>, at: nat, initial: AccessKind, access: AccessKind) {
    if forall l :: l in labels ==> at <= l then access == initial
    else exists l :: l in labels && NearestBefore(labels, l, at) && l < |tokens| && Announces(tokens[l].text, access)
  }

  ghost predicate NearestBefore(labels: set<nat>, l: nat, at: nat) {
    l < at && forall k :: k in labels && k < at ==> k <= l
  }

  /** Every declaration of a body is read under the access of the nearest label
      before it among the declarations, or else the type's default. */
  lemma {:induction false} MembersUnderLabels(tokens: seq<Token>, cursor: nat, end: nat, initial: AccessKind)
    requires cursor <= end <= |tokens|
    ensures var labels := Labels(tokens, cursor, end);
      forall m :: m in Members(tokens, cursor, end, initial).0 ==>
        AccessAt(tokens, labels, m.begin, initial, m.access)
    decreases end - cursor
  {
    MembersInOrder(tokens, cursor, end, initial);
    var labels, ms := Labels(tokens, cursor, end), Members(tokens, cursor, end, initial).0;
    if cursor == end {
    } else if LabelStands(tokens, cursor, end) {
      var access := AccessOf(tokens[cursor].text);
      var rest := Labels(tokens, cursor + 2, end);
      MembersInOrder(tokens, cursor + 2, end, access);
      MembersUnderLabels(tokens, cursor + 2, end, access);
      forall m | m in ms
        ensures AccessAt(tokens, labels, m.begin, initial, m.access)
      {
        LabelInFront(tokens, rest, cursor, m.begin, initial, access, m.access);
      }
    } else {
      var scan := ScanMember(tokens, cursor, end, NO_BRACKETS);
      if scan.Found? {
        MembersUnderLabels(tokens, scan.next, end, initial);
        assert AccessAt(tokens, labels, cursor, initial, initial);
      }
    }
  }

  // A label in front decides wherever no later one does.
  lemma LabelInFront(tokens: seq<Token>, rest: set<nat>, first: nat, at: nat, initial: AccessKind,
                     announced: AccessKind, access: AccessKind)
    requires first < at && first < |tokens| && Announces(tokens[first].text, announced)
    requires (forall l :: l in rest ==> first < l) && AccessAt(tokens, rest, at, announced, access)
    ensures AccessAt(tokens, {first} + rest, at, initial, access)
  {
    var labels := {first} + rest;
    if forall l :: l in rest ==> at <= l {
      assert NearestBefore(labels, first, at);
    } else {
      var l :| l in rest && NearestBefore(rest, l, at) && l < |tokens| && Announces(tokens[l].text, access);
      assert NearestBefore(labels, l, at);
    }
  }

  /* ---------- what a body's declarations add up to ---------- */

  // The member a declaration is read as.
  function MemberAt(tokens: seq<Token>, reader: Reader, name: string, m: MemberRange): Member
    requires m.begin <= m.end <= |tokens|
  {
    if m.begin == m.end then Nothing else reader(tokens[m.begin..m.end], m.access, name).member
  }

  // What one member brings in, under an access.
  datatype Gain = Gain(fields: seq<Field>, methods: seq<Method>, constructors: seq<Constructor>, body: bool)

  function GainOf(member: Member, access: AccessKind): Gain {
    match member
    case Nothing => Gain([], [], [], false)
    case GeneratedBody => Gain([], [], [], true)
    case ConstructorMember(c) => Gain([], [], [c.(access := access)], false)
    case FieldMember(f) => Gain([f.(access := access)], [], [], false)
    case Callable(m, _, isMethod) =>
      Gain([], if isMethod && !m.isRValueQualified then [m.(access := access)] else [], [], false)
  }

  function Both(a: Gain, b: Gain): Gain {
    Gain(a.fields + b.fields, a.methods + b.methods, a.constructors + b.constructors, a.body || b.body)
  }

  ghost function GainOfAll(tokens: seq<Token>, reader: Reader, name: string, ms: seq<MemberRange>): Gain
    requires RangesOk(tokens, ms)
  {
    if ms == [] then Gain([], [], [], false)
    else
      assert ms[0] in ms;
      Both(GainOf(MemberAt(tokens, reader, name, ms[0]), ms[0].access), GainOfAll(tokens, reader, name, ms[1..]))
  }

  function Having(t: ReflectedType): Gain {
    Gain(t.fields, t.methods, t.constructors, t.hasGeneratedBody)
  }

  /** The type has exactly the fields, methods and constructors that were declared,
      in order and under the access of their declarations, and a generated body
      exactly if one was declared. */
  lemma {:induction false} ReadMembersGains(tokens: seq<Token>, reader: Reader, t: ReflectedType,
                                            ms: seq<MemberRange>)
    requires RangesOk(tokens, ms) && PropertiesOk(t.properties)
    ensures var u := ReadMembers(tokens, reader, t, ms).0;
      Having(u) == Both(Having(t), GainOfAll(tokens, reader, t.cppQualifiedName, ms))
    decreases |ms|
  {
    if ms == [] {
      BothNothing(Having(t));
    } else {
      assert ms[0] in ms;
      var u := ReadMember(tokens, reader, t, ms[0]).0;
      GainsOne(tokens, reader, t, ms[0]);
      ReadMembersGains(tokens, reader, u, ms[1..]);
      BothTwice(Having(t), GainOf(MemberAt(tokens, reader, t.cppQualifiedName, ms[0]), ms[0].access),
                GainOfAll(tokens, reader, t.cppQualifiedName, ms[1..]));
    }
  }

  lemma BothNothing(a: Gain)
    ensures Both(a, Gain([], [], [], false)) == a
  {
    assert a.fields + [] == a.fields && a.methods + [] == a.methods && a.constructors + [] == a.constructors;
  }

  lemma BothTwice(a: Gain, b: Gain, c: Gain)
    ensures Both(Both(a, b), c) == Both(a, Both(b, c))
  {
    Regroup(a.fields, b.fields, c.fields);
    Regroup(a.methods, b.methods, c.methods);
    Regroup(a.constructors, b.constructors, c.constructors);
  }

  lemma GainsOne(tokens: seq<Token>, reader: Reader, t: ReflectedType, m: MemberRange)
    requires m.begin <= m.end <= |tokens| && PropertiesOk(t.properties)
    ensures var u := ReadMember(tokens, reader, t, m).0;
      && u.cppQualifiedName == t.cppQualifiedName && PropertiesOk(u.properties)
      && Having(u) == Both(Having(t), GainOf(MemberAt(tokens, reader, t.cppQualifiedName, m), m.access))
  {
    if m.begin == m.end {
      BothNothing(Having(t));
    } else {
      var d := reader(tokens[m.begin..m.end], m.access, t.cppQualifiedName);
      DeclareKeeps(t, d, m.access);
      AddedMember(t, d.member, m.access);
    }
  }

  lemma AddedMember(t: ReflectedType, member: Member, access: AccessKind)
    ensures Having(AddMember(t, member, access).0) == Both(Having(t), GainOf(member, access))
  {
    assert t.fields + [] == t.fields && t.methods + [] == t.methods && t.constructors + [] == t.constructors;
    if member.Callable? {
      var m := member.callable.(access := access);
      var u := if member.isProperty then OfferAccessor(t, m).0 else t;
      assert Having(u) == Having(t);
    }
  }
}
