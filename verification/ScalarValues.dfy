/** The kinds of attribute values of a manifest and which strings they admit. */
module ScalarValues {
  import opened Common
  import opened CharacterClasses
  import Decimal

  datatype ValueKind =
    | String
    | Identifier
    | Boolean
    | Integer
    | FilePath
    | SemanticVersion
    | VersionCompatibility
    | Enumeration

  predicate IsIdentifier(s: string) {
    s != "" && IsAlnum(s[0]) && forall i :: 1 <= i < |s| ==> IsAlnum(s[i]) || s[i] in {'.', '_', '-'}
  }

  // What std::from_chars reads completely as a signed 64-bit integer.
  predicate IsInteger(s: string) {
    var negative := s != "" && s[0] == '-';
    var digits := if negative then s[1..] else s;
    && digits != "" && Decimal.AllDigits(digits)
    && Decimal.Value(digits) <= if negative then 0x8000_0000_0000_0000 else 0x7fff_ffff_ffff_ffff
  }

  predicate IsTagChar(c: char) {
    IsAlnum(c) || c == '.' || c == '-'
  }

  /* ---------- the two version languages ---------- */

  // 0, or digits that do not start with 0.
  predicate Numeral(s: string) {
    s != "" && (forall i :: 0 <= i < |s| ==> '0' <= s[i] <= '9') && (s[0] == '0' ==> |s| == 1)
  }

  predicate DottedNumeral(s: string) {
    s != "" && s[0] == '.' && Numeral(s[1..])
  }

  // Nothing, or a tag of at least one character behind its introducer.
  predicate OptionalTag(s: string, introducer: char) {
    s == "" || (|s| > 1 && s[0] == introducer && forall i :: 1 <= i < |s| ==>
      '0' <= s[i] <= '9' || 'A' <= s[i] <= 'Z' || 'a' <= s[i] <= 'z' || s[i] == '.' || s[i] == '-')
  }

  // From i on: a last component up to c, a pre-release tag up to r, and a build tag.
  ghost predicate Tagged(s: string, i: nat, c: nat, r: nat) {
    && i <= c <= r <= |s| && DottedNumeral(s[i..c])
    && OptionalTag(s[c..r], '-') && OptionalTag(s[r..], '+')
  }

  ghost predicate LastPart(s: string, i: nat) {
    exists c: nat, r: nat :: Tagged(s, i, c, r)
  }

  // Components up to i and up to j, and a last part.
  ghost predicate ThreeParts(s: string, i: nat, j: nat) {
    i <= j <= |s| && Numeral(s[..i]) && DottedNumeral(s[i..j]) && LastPart(s, j)
  }

  ghost predicate SemanticVersionLanguage(s: string) {
    exists i: nat, j: nat :: ThreeParts(s, i, j)
  }

  // The second component and the last part may each be missing.
  ghost predicate UpToThreeParts(s: string, i: nat, j: nat) {
    && i <= j <= |s| && Numeral(s[..i])
    && (j == i || DottedNumeral(s[i..j])) && (j == |s| || LastPart(s, j))
  }

  ghost predicate VersionCompatibilityLanguage(s: string) {
    exists i: nat, j: nat :: UpToThreeParts(s, i, j)
  }

  /* ---------- reading a version from left to right ---------- */

  // A number without leading zeros from i on; None if there is none.
  function Number(s: string, i: nat): (r: Option<nat>)
    requires i <= |s|
    ensures r.Some? ==> i < r.value <= |s|
  {
    var end := RunEnd(s, i, IsDigit);
    if end == i then None
    else if s[i] == '0' then Some(i + 1)
    else Some(end)
  }

  function DotNumber(s: string, i: nat): (r: Option<nat>)
    requires i <= |s|
    ensures r.Some? ==> i < r.value <= |s|
  {
    if i < |s| && s[i] == '.' then Number(s, i + 1) else None
  }

  // An optional tag introduced by a character; i if there is none.
  function Tag(s: string, i: nat, introducer: char): (r: nat)
    requires i <= |s|
    ensures i <= r <= |s|
  {
    if i < |s| && s[i] == introducer && RunEnd(s, i + 1, IsTagChar) > i + 1 then RunEnd(s, i + 1, IsTagChar) else i
  }

  // Optional pre-release and build tags up to the end.
  predicate TagsToEnd(s: string, i: nat)
    requires i <= |s|
  {
    Tag(s, Tag(s, i, '-'), '+') == |s|
  }

  // A last component and its tags up to the end.
  predicate LastToEnd(s: string, i: nat)
    requires i <= |s|
  {
    var component := DotNumber(s, i);
    component.Some? && TagsToEnd(s, component.value)
  }

  predicate IsSemanticVersion(s: string) {
    var major := Number(s, 0);
    major.Some? &&
    var minor := DotNumber(s, major.value);
    minor.Some? && LastToEnd(s, minor.value)
  }

  // Without a second component, the last part stands directly behind the first.
  predicate IsVersionCompatibility(s: string) {
    var major := Number(s, 0);
    major.Some? &&
    (major.value == |s| || LastToEnd(s, major.value) ||
     var minor := DotNumber(s, major.value);
     minor.Some? && LastToEnd(s, minor.value))
  }

  // A numeral is read as such where no further digit follows.
  lemma NumberExactly(s: string, i: nat, j: nat)
    requires i <= j <= |s| && (j < |s| ==> !IsDigit(s[j]))
    ensures Numeral(s[i..j]) ==> Number(s, i) == Some(j)
  {
    assert forall k :: i <= k < j ==> s[k] == s[i..j][k - i];
  }

  lemma NumberRead(s: string, i: nat)
    requires i <= |s|
    ensures Number(s, i).Some? ==> Numeral(s[i..Number(s, i).value])
  {
  }

  lemma DottedExactly(s: string, i: nat, j: nat)
    requires i <= j <= |s| && (j < |s| ==> !IsDigit(s[j]))
    ensures DottedNumeral(s[i..j]) ==> DotNumber(s, i) == Some(j)
  {
    if i < j {
      NumberExactly(s, i + 1, j);
      assert s[i..j][1..] == s[i + 1..j];
    }
  }

  lemma DottedRead(s: string, i: nat)
    requires i <= |s|
    ensures DotNumber(s, i).Some? ==> DottedNumeral(s[i..DotNumber(s, i).value])
  {
    if DotNumber(s, i).Some? {
      NumberRead(s, i + 1);
      assert s[i..DotNumber(s, i).value][1..] == s[i + 1..DotNumber(s, i).value];
    }
  }

  lemma TagExactly(s: string, i: nat, j: nat, introducer: char)
    requires i <= j <= |s| && (j < |s| ==> s[j] != introducer && !IsTagChar(s[j]))
    ensures OptionalTag(s[i..j], introducer) ==> Tag(s, i, introducer) == j
  {
    assert forall k :: i <= k < j ==> s[k] == s[i..j][k - i];
  }

  lemma TagRead(s: string, i: nat, introducer: char)
    requires i <= |s|
    ensures OptionalTag(s[i..Tag(s, i, introducer)], introducer)
  {
  }

  lemma TagsThere(s: string, c: nat, r: nat)
    requires c <= r <= |s| && OptionalTag(s[c..r], '-') && OptionalTag(s[r..], '+')
    ensures TagsToEnd(s, c)
  {
    assert r < |s| ==> s[r] == s[r..][0];
    assert s[r..] == s[r..|s|];
    TagExactly(s, c, r, '-');
    TagExactly(s, r, |s|, '+');
  }

  lemma LastThere(s: string, i: nat, c: nat, r: nat)
    requires Tagged(s, i, c, r)
    ensures LastToEnd(s, i)
  {
    assert c < r ==> s[c] == s[c..r][0];
    assert r < |s| ==> s[r] == s[r..][0];
    DottedExactly(s, i, c);
    TagsThere(s, c, r);
  }

  lemma LastExactly(s: string, i: nat)
    requires i <= |s|
    ensures LastToEnd(s, i) <==> LastPart(s, i)
  {
    if LastToEnd(s, i) {
      var c := DotNumber(s, i).value;
      var r := Tag(s, c, '-');
      DottedRead(s, i);
      TagRead(s, c, '-');
      TagRead(s, r, '+');
      assert s[r..] == s[r..|s|];
      assert Tagged(s, i, c, r);
    }
    if LastPart(s, i) {
      var c, r :| Tagged(s, i, c, r);
      LastThere(s, i, c, r);
    }
  }

  // A last part starts with a dot.
  lemma LastStarts(s: string, i: nat)
    requires LastPart(s, i)
    ensures i < |s| && s[i] == '.'
  {
    var c: nat, r: nat :| Tagged(s, i, c, r);
    assert s[i] == s[i..c][0];
  }

  /** The left-to-right reading accepts exactly the semantic versions. */
  lemma SemanticVersionExactly(s: string)
    ensures IsSemanticVersion(s) <==> SemanticVersionLanguage(s)
  {
    if IsSemanticVersion(s) {
      SemanticRead(s);
    }
    if SemanticVersionLanguage(s) {
      var i, j :| ThreeParts(s, i, j);
      LastStarts(s, j);
      ComponentsThere(s, i, j);
      LastExactly(s, j);
    }
  }

  lemma SemanticRead(s: string)
    requires IsSemanticVersion(s)
    ensures SemanticVersionLanguage(s)
  {
    var i := Number(s, 0).value;
    var j := DotNumber(s, i).value;
    NumberRead(s, 0);
    DottedRead(s, i);
    LastExactly(s, j);
    assert ThreeParts(s, i, j);
  }

  lemma ComponentsThere(s: string, i: nat, j: nat)
    requires i <= j <= |s| && Numeral(s[..i]) && (j == i || DottedNumeral(s[i..j])) && (j < |s| ==> s[j] == '.')
    ensures Number(s, 0) == Some(i) && (j == i || DotNumber(s, i) == Some(j))
  {
    assert i < j ==> s[i] == s[i..j][0];
    assert s[..i] == s[0..i];
    NumberExactly(s, 0, i);
    DottedExactly(s, i, j);
  }

  /** The left-to-right reading accepts exactly the versions to be compatible
      with, among them two components with a tag. */
  lemma VersionCompatibilityExactly(s: string)
    ensures IsVersionCompatibility(s) <==> VersionCompatibilityLanguage(s)
  {
    if IsVersionCompatibility(s) {
      CompatibilityRead(s);
    }
    if VersionCompatibilityLanguage(s) {
      var i, j :| UpToThreeParts(s, i, j);
      CompatibilityThere(s, i, j);
    }
  }

  lemma CompatibilityRead(s: string)
    requires IsVersionCompatibility(s)
    ensures VersionCompatibilityLanguage(s)
  {
    var i := Number(s, 0).value;
    NumberRead(s, 0);
    if i == |s| || LastToEnd(s, i) {
      LastExactly(s, i);
      assert UpToThreeParts(s, i, i);
    } else {
      var j := DotNumber(s, i).value;
      DottedRead(s, i);
      LastExactly(s, j);
      assert UpToThreeParts(s, i, j);
    }
  }

  lemma CompatibilityThere(s: string, i: nat, j: nat)
    requires UpToThreeParts(s, i, j)
    ensures IsVersionCompatibility(s)
  {
    if j < |s| {
      LastStarts(s, j);
      LastExactly(s, j);
    } else if i < j {
      MinorIsLast(s, i);
      LastExactly(s, i);
    }
    ComponentsThere(s, i, j);
  }

  // A second component with nothing behind it can also be read as the last part.
  lemma MinorIsLast(s: string, i: nat)
    requires i <= |s| && DottedNumeral(s[i..|s|])
    ensures LastPart(s, i)
  {
    assert Tagged(s, i, |s|, |s|);
  }

  /* ---------- the other kinds ---------- */

  // A sign, zeros, and the shortest numeral of a magnitude.
  function IntegerText(negative: bool, k: nat, n: nat): string {
    (if negative then "-" else "") + Decimal.Zeros(k) + Decimal.Print(n)
  }

  predicate FitsWord(negative: bool, n: nat) {
    n < 0x8000_0000_0000_0000 || (negative && n == 0x8000_0000_0000_0000)
  }

  lemma IntegerThere(negative: bool, k: nat, n: nat)
    requires FitsWord(negative, n)
    ensures IsInteger(IntegerText(negative, k, n))
  {
    var digits := Decimal.Zeros(k) + Decimal.Print(n);
    Decimal.ZerosAdd(k, n);
    Decimal.PrintIsNumeral(n);
    assert digits[0] != '-';
    if negative {
      assert IntegerText(negative, k, n)[1..] == digits;
    } else {
      assert IntegerText(negative, k, n) == digits;
    }
  }

  lemma IntegerRead(s: string) returns (negative: bool, k: nat, n: nat)
    requires IsInteger(s)
    ensures s == IntegerText(negative, k, n) && FitsWord(negative, n)
  {
    negative := s[0] == '-';
    if negative {
      k := Decimal.DigitsAre(s[1..]);
      n := Decimal.Value(s[1..]);
      assert s == "-" + s[1..];
      assert "-" + (Decimal.Zeros(k) + Decimal.Print(n)) == IntegerText(negative, k, n);
    } else {
      k := Decimal.DigitsAre(s);
      n := Decimal.Value(s);
      assert Decimal.Zeros(k) + Decimal.Print(n) == IntegerText(negative, k, n);
    }
  }

  /** An integer is the numeral of a 64-bit signed number, perhaps behind zeros. */
  lemma IntegerExactly(s: string)
    ensures IsInteger(s) <==>
      exists negative: bool, k: nat, n: nat :: s == IntegerText(negative, k, n) && FitsWord(negative, n)
  {
    if IsInteger(s) {
      var negative, k, n := IntegerRead(s);
    }
    forall negative: bool, k: nat, n: nat | s == IntegerText(negative, k, n) && FitsWord(negative, n)
      ensures IsInteger(s)
    {
      IntegerThere(negative, k, n);
    }
  }

  predicate ValidScalar(kind: ValueKind, allowedValues: seq<string>, value: string) {
    value != "" &&
    match kind
    case String => true
    case FilePath => true
    case Identifier => IsIdentifier(value)
    case Boolean => value == "true" || value == "false"
    case Integer => IsInteger(value)
    case SemanticVersion => IsSemanticVersion(value)
    case VersionCompatibility => IsVersionCompatibility(value)
    case Enumeration => value in allowedValues
  }

  /** Which values each kind admits. */
  lemma AdmittedExactly(allowed: seq<string>, s: string)
    ensures ValidScalar(String, allowed, s) == ValidScalar(FilePath, allowed, s) == (s != "")
    ensures ValidScalar(Boolean, allowed, s) <==> s in {"true", "false"}
    ensures ValidScalar(Enumeration, allowed, s) <==> s in allowed && s != ""
    ensures ValidScalar(Integer, allowed, s) <==> IsInteger(s)
    ensures ValidScalar(SemanticVersion, allowed, s) <==> SemanticVersionLanguage(s)
    ensures ValidScalar(VersionCompatibility, allowed, s) <==> VersionCompatibilityLanguage(s)
    ensures ValidScalar(Identifier, allowed, s) <==>
      && s != "" && s[0] !in {'.', '_', '-'}
      && forall i :: 0 <= i < |s| ==>
           '0' <= s[i] <= '9' || 'A' <= s[i] <= 'Z' || 'a' <= s[i] <= 'z' || s[i] in {'.', '_', '-'}
  {
    SemanticVersionExactly(s);
    VersionCompatibilityExactly(s);
  }
}
