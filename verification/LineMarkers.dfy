/** What the scanner makes of the line markers that preprocessors write. */
module LineMarkers {
  import opened Common
  import opened CharacterClasses
  import opened Tokenizer
  import opened SourceTokens
  import Decimal

  // A marker as preprocessors write it, with anything behind the file name.
  function Marker(n: nat, file: string, flags: string): string {
    "# " + Decimal.Print(n) + " " + Quoted(file) + flags
  }

  // The marker's name ends at the first quotation mark, before which the escaper
  // has put a backslash.
  function NameRead(file: string): string {
    var k := IndexOf(file, '"', 0);
    if k == |file| then file else file[..k] + "\\"
  }

  /** A marker sets the line it names and the file it names, but a file name
      reaches only up to its first quotation mark: it is read back exactly when it
      contains none. */
  lemma MarkerRead(n: nat, file: string, flags: string, normal: string -> string)
    requires n < WORD
    ensures LineMarker(Marker(n, file, flags), normal) == Some(SourceLocation(normal(NameRead(file)), n, 1))
    ensures NameRead(file) == file <==> '"' !in file
  {
    var digits := Decimal.Print(n);
    Decimal.PrintIsNumeral(n);
    var t := MarkerBodyOf(n, file, flags);
    var rest := " " + Quoted(file) + t;
    assert digits + " " + Quoted(file) + t == digits + rest;
    BodyRead(Marker(n, file, flags), digits, rest, normal);
    TrimBehind(rest, Quoted(file), t);
    FileOf(file, TrimRight(t));
    NameReadBack(file);
  }

  // A marker with a line number and a name in quotation marks.
  lemma BodyRead(line: string, digits: string, rest: string, normal: string -> string)
    requires MarkerBody(line) == Some(digits + rest)
    requires digits != "" && Decimal.AllDigits(digits) && Decimal.Value(digits) < WORD
    requires rest != "" && !IsDigit(rest[0])
    ensures var s := Trim(rest);
      |s| >= 2 && s[0] == '"' && IndexOf(s, '"', 1) < |s| ==>
        LineMarker(line, normal) ==
        Some(SourceLocation(normal(Decoded(s[..IndexOf(s, '"', 1) + 1])), Decimal.Value(digits), 1))
  {
    Decimal.DigitCountOf(digits, rest);
    assert (digits + rest)[..|digits|] == digits && (digits + rest)[|digits|..] == rest;
  }

  // What is left of a marker behind `#`; t is what is left of the flags.
  lemma MarkerBodyOf(n: nat, file: string, flags: string) returns (t: string)
    ensures MarkerBody(Marker(n, file, flags)) == Some(Decimal.Print(n) + " " + Quoted(file) + t)
  {
    var digits := Decimal.Print(n);
    Decimal.PrintIsNumeral(n);
    var inner := digits + " " + Quoted(file);
    var u := TrimRight(flags);
    t := TrimRight(u);
    assert inner[0] == digits[0] && inner[|inner| - 1] == '"';
    assert Marker(n, file, flags) == ("# " + inner) + flags;
    TrimKeeps("# " + inner, flags);
    TrimKeeps(inner, u);
    BehindHash(Marker(n, file, flags), inner, u);
  }

  lemma BehindHash(line: string, inner: string, u: string)
    requires Trim(line) == "# " + inner + u && Trim([' '] + (inner + u)) == inner + TrimRight(u)
    requires inner != "" && IsDigit(inner[0])
    ensures MarkerBody(line) == Some(inner + TrimRight(u))
  {
    assert ("# " + inner + u)[1..] == [' '] + (inner + u);
    assert !("line" <= inner + TrimRight(u)) by {
      assert "line"[0] == 'l';
    }
  }

  // Blanks are cut only where a text ends.
  lemma TrimKeeps(text: string, rest: string)
    requires text != "" && !IsSpace(text[0]) && !IsSpace(text[|text| - 1])
    ensures Trim(text + rest) == text + TrimRight(rest)
    ensures Trim([' '] + (text + rest)) == text + TrimRight(rest)
  {
    assert ([' '] + (text + rest))[1..] == text + rest;
    TrimRightKeeps(text, rest);
  }

  lemma {:induction false} TrimRightKeeps(text: string, rest: string)
    requires text != "" && !IsSpace(text[|text| - 1])
    ensures TrimRight(text + rest) == text + TrimRight(rest)
  {
    if rest == "" {
      assert text + rest == text;
    } else if IsSpace(rest[|rest| - 1]) {
      assert (text + rest)[..|text + rest| - 1] == text + rest[..|rest| - 1];
      TrimRightKeeps(text, rest[..|rest| - 1]);
    }
  }

  lemma TrimBehind(s: string, text: string, rest: string)
    requires s == " " + text + rest && text != "" && !IsSpace(text[0]) && !IsSpace(text[|text| - 1])
    ensures Trim(s) == text + TrimRight(rest)
  {
    assert s == [' '] + (text + rest);
    TrimKeeps(text, rest);
  }

  // Where the spelling of the name ends, and what it decodes to.
  ghost predicate ReadsName(s: string, file: string) {
    s != "" &&
    var closing := IndexOf(s, '"', 1);
    closing < |s| && Decoded(s[..closing + 1]) == NameRead(file)
  }

  // The spelling of the name ends at the first quotation mark behind the opening one.
  lemma FileOf(file: string, rest: string)
    ensures ReadsName(Quoted(file) + rest, file)
  {
    var k := IndexOf(file, '"', 0);
    IndexOfFirst(file, '"', 0);
    assert forall j :: 0 <= j < k ==> file[..k][j] != '"';
    NoQuoteEscaped(file[..k]);
    if k == |file| {
      assert file[..k] == file;
      WholeName(file, rest);
    } else {
      var behind := Escaped(file[k + 1..]) + ['"'] + rest;
      QuotedAround(file, k, rest);
      CutName(file[..k], behind, file);
    }
  }

  lemma QuotedAround(file: string, k: nat, rest: string)
    requires k < |file| && file[k] == '"'
    ensures Quoted(file) + rest ==
            ['"'] + Escaped(file[..k]) + ['\\', '"'] + (Escaped(file[k + 1..]) + ['"'] + rest)
  {
    assert file[..k] + file[k..] == file;
    EscapedJoin(file[..k], file[k..]);
    assert file[k..][1..] == file[k + 1..];
  }

  lemma WholeName(file: string, rest: string)
    requires '"' !in Escaped(file) && '"' !in file
    ensures ReadsName(Quoted(file) + rest, file)
  {
    NameEnds(Escaped(file), rest);
    DecodedQuoted(file);
    NameReadBack(file);
  }

  lemma CutName(name: string, behind: string, file: string)
    requires '"' !in Escaped(name) && NameRead(file) == name + ['\\']
    ensures ReadsName(['"'] + Escaped(name) + ['\\', '"'] + behind, file)
  {
    var inner := Escaped(name) + ['\\'];
    assert ['"'] + Escaped(name) + ['\\', '"'] + behind == ['"'] + inner + ['"'] + behind;
    NameEnds(inner, behind);
    CutEscape(name);
  }

  // A spelling without a quotation mark inside ends where it should.
  lemma NameEnds(inner: string, behind: string)
    requires '"' !in inner
    ensures var s := ['"'] + inner + ['"'] + behind;
      && IndexOf(s, '"', 1) == |inner| + 1
      && s[..|inner| + 2] == ['"'] + inner + ['"']
      && Decoded(s[..|inner| + 2]) == Unescaped(inner)
  {
    var s := ['"'] + inner + ['"'] + behind;
    forall j | 1 <= j < |inner| + 1
      ensures s[j] != '"'
    {
      assert s[j] == inner[j - 1];
    }
    FirstAt(s, 1, |inner| + 1);
    assert s[..|inner| + 2] == ['"'] + inner + ['"'];
    assert (['"'] + inner + ['"'])[1..|inner| + 1] == inner;
  }

  lemma {:induction false} FirstAt(s: string, i: nat, k: nat)
    requires i <= k < |s| && s[k] == '"' && forall j :: i <= j < k ==> s[j] != '"'
    ensures IndexOf(s, '"', i) == k
    decreases k - i
  {
    if i < k {
      FirstAt(s, i + 1, k);
    }
  }

  lemma {:induction false} NoQuoteEscaped(s: string)
    requires '"' !in s
    ensures '"' !in Escaped(s)
  {
    if s != "" {
      NoQuoteEscaped(s[1..]);
    }
  }

  lemma {:induction false} EscapedJoin(a: string, b: string)
    ensures Escaped(a + b) == Escaped(a) + Escaped(b)
  {
    if a == "" {
      assert a + b == b;
    } else {
      assert (a + b)[1..] == a[1..] + b;
      EscapedJoin(a[1..], b);
    }
  }

  // A backslash left over at the end is read as itself.
  lemma {:induction false} CutEscape(s: string)
    ensures Unescaped(Escaped(s) + ['\\']) == s + ['\\']
  {
    if s != "" {
      var rest := Escaped(s[1..]) + ['\\'];
      assert Escaped(s) + ['\\'] == Escape(s[0]) + rest;
      UnescapedOne(s[0], rest);
      CutEscape(s[1..]);
      assert s + ['\\'] == [s[0]] + (s[1..] + ['\\']);
    }
  }

  lemma UnescapedOne(c: char, rest: string)
    ensures Unescaped(Escape(c) + rest) == [c] + Unescaped(rest)
  {
    EscapeMeans(c);
    assert (Escape(c) + rest)[|Escape(c)|..] == rest;
  }

  lemma NameReadBack(file: string)
    ensures NameRead(file) == file <==> '"' !in file
  {
    var k := IndexOf(file, '"', 0);
    IndexOfFirst(file, '"', 0);
    if k < |file| {
      assert NameRead(file)[k] == '\\' && file[k] == '"';
    }
  }
}
