/** The order in which the types of a scan are handed on. */
module TypeOrder {
  import opened Lexical
  import opened Permutations
  import opened ReflectedTypes

  // File by file, and by line within a file.
  predicate Before(a: ReflectedType, b: ReflectedType, pathKey: string -> string) {
    var k, l := pathKey(a.declarationFile), pathKey(b.declarationFile);
    if k == l then a.line < b.line else Less(k, l)
  }

  predicate Ordered(types: seq<ReflectedType>, pathKey: string -> string) {
    forall i, j :: 0 <= i < j < |types| ==> !Before(types[j], types[i], pathKey)
  }

  // The result of a sort that need not be stable.
  predicate SortedFrom(types: seq<ReflectedType>, sorted: seq<ReflectedType>, pathKey: string -> string) {
    multiset(sorted) == multiset(types) && Ordered(sorted, pathKey)
  }

  /** In an ordered list, of two types of one file the one on the earlier line is in
      front, and of two files the one whose key is smaller at the first difference. */
  lemma OrderedExactly(types: seq<ReflectedType>, pathKey: string -> string, i: nat, j: nat)
    requires Ordered(types, pathKey) && i < j < |types|
    ensures var k, l := pathKey(types[i].declarationFile), pathKey(types[j].declarationFile);
      && (k == l ==> types[i].line <= types[j].line)
      && (k != l ==> exists p: nat :: DecidedAt(k, l, p))
  {
    var k, l := pathKey(types[i].declarationFile), pathKey(types[j].declarationFile);
    assert !Before(types[j], types[i], pathKey);
    if k != l {
      LessTotal(k, l);
      LessExactly(k, l);
    }
  }

  lemma BeforeIsTransitive(a: ReflectedType, b: ReflectedType, c: ReflectedType, pathKey: string -> string)
    requires !Before(b, a, pathKey) && !Before(c, b, pathKey)
    ensures !Before(c, a, pathKey)
  {
    var k, l, m := pathKey(a.declarationFile), pathKey(b.declarationFile), pathKey(c.declarationFile);
    LessTotal(k, l);
    LessTotal(l, m);
    if Less(k, l) && Less(l, m) {
      LessTransitive(k, l, m);
    }
    if Less(m, k) {
      if Less(k, m) {
        LessTransitive(k, m, k);
      }
      LessIrreflexive(k);
    }
  }

  ghost function Insert(s: seq<ReflectedType>, t: ReflectedType, pathKey: string -> string): seq<ReflectedType> {
    if s == [] || Before(t, s[0], pathKey) then [t] + s else [s[0]] + Insert(s[1..], t, pathKey)
  }

  lemma {:induction false} InsertKeepsOrder(s: seq<ReflectedType>, t: ReflectedType, pathKey: string -> string)
    requires Ordered(s, pathKey)
    ensures SortedFrom(s + [t], Insert(s, t, pathKey), pathKey)
  {
    if s == [] {
    } else if Before(t, s[0], pathKey) {
      InFront(s, t, pathKey);
    } else {
      InsertKeepsOrder(s[1..], t, pathKey);
      Behind(s, t, Insert(s[1..], t, pathKey), pathKey);
    }
  }

  lemma Behind(s: seq<ReflectedType>, t: ReflectedType, rest: seq<ReflectedType>, pathKey: string -> string)
    requires s != [] && Ordered(s, pathKey) && !Before(t, s[0], pathKey) && SortedFrom(s[1..] + [t], rest, pathKey)
    ensures SortedFrom(s + [t], [s[0]] + rest, pathKey)
  {
    assert s + [t] == [s[0]] + (s[1..] + [t]);
    forall j | 0 <= j < |rest|
      ensures !Before(rest[j], s[0], pathKey)
    {
      assert rest[j] in multiset(s[1..] + [t]);
      assert rest[j] in s[1..] || rest[j] == t;
    }
  }

  lemma InFront(s: seq<ReflectedType>, t: ReflectedType, pathKey: string -> string)
    requires Ordered(s, pathKey) && s != [] && Before(t, s[0], pathKey)
    ensures SortedFrom(s + [t], [t] + s, pathKey)
  {
    forall j | 0 <= j < |s|
      ensures !Before(s[j], t, pathKey)
    {
      NotBeforeItself(t, s[0], pathKey);
      NotBeforeItself(s[0], s[0], pathKey);
      BeforeIsTransitive(t, s[0], s[j], pathKey);
    }
  }

  lemma NotBeforeItself(a: ReflectedType, b: ReflectedType, pathKey: string -> string)
    ensures Before(a, b, pathKey) ==> !Before(b, a, pathKey)
    ensures !Before(a, a, pathKey)
  {
    var k, l := pathKey(a.declarationFile), pathKey(b.declarationFile);
    if Less(k, l) && Less(l, k) {
      LessTransitive(k, l, k);
    }
    LessIrreflexive(k);
  }

  lemma {:induction false} SortedExists(types: seq<ReflectedType>, pathKey: string -> string)
    ensures exists sorted :: SortedFrom(types, sorted, pathKey)
  {
    if types == [] {
      assert SortedFrom([], [], pathKey);
    } else {
      var n := |types| - 1;
      SortedExists(types[..n], pathKey);
      var rest :| SortedFrom(types[..n], rest, pathKey);
      InsertKeepsOrder(rest, types[n], pathKey);
      assert types == types[..n] + [types[n]];
      assert SortedFrom(types, Insert(rest, types[n], pathKey), pathKey);
    }
  }

  // Which of two equal types comes first is left open.
  method SortTypes(types: seq<ReflectedType>, pathKey: string -> string) returns (sorted: seq<ReflectedType>)
    ensures SortedFrom(types, sorted, pathKey)
  {
    SortedExists(types, pathKey);
    sorted :| SortedFrom(types, sorted, pathKey);
  }

  ghost predicate DistinctTypes(types: seq<ReflectedType>) {
    forall i, j :: 0 <= i < j < |types| ==> types[i].reflectionName != types[j].reflectionName
  }

  // Sorting keeps what is said of all types, and whether names are distinct.
  lemma SortingKeeps(types: seq<ReflectedType>, sorted: seq<ReflectedType>, pathKey: string -> string)
    requires SortedFrom(types, sorted, pathKey)
    ensures DistinctTypes(sorted) <==> DistinctTypes(types)
    ensures forall t :: t in sorted <==> t in types
  {
    var key := (t: ReflectedType) => t.reflectionName;
    if DistinctTypes(types) {
      StayDistinct(types, sorted, key);
    }
    if DistinctTypes(sorted) {
      StayDistinct(sorted, types, key);
    }
    assert forall t :: t in sorted <==> t in multiset(sorted);
    assert forall t :: t in types <==> t in multiset(types);
  }
}
