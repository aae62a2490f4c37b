/** Which lines are line markers, by their form, and what they mark. */
module MarkerForm {
  import opened Common
  import opened CharacterClasses
  import opened Tokenizer
  import opened SourceTokens
  import LineMarkers
  import Decimal

  // blanks # blanks, perhaps `line` and blanks, digits, blanks, "name", anything
  datatype Form = Form(
    a: string,
    b: string,
    word: bool,
    c: string,
    digits: string,
    d: string,
    name: string,
    rest: string)

  function Named(f: Form): string {
    f.digits + (f.d + (['"'] + f.name + ['"']))
  }

  function Body(f: Form): string {
    if f.word then "line" + (f.c + Named(f)) else Named(f)
  }

  function Spelled(f: Form): string {
    f.a + (['#'] + (f.b + Body(f))) + f.rest
  }

  predicate FormOk(f: Form) {
    && AllBlank(f.a) && AllBlank(f.b) && AllBlank(f.c) && AllBlank(f.d) && '"' !in f.name
    && f.digits != "" && Decimal.AllDigits(f.digits) && Decimal.Value(f.digits) < 0x1_0000_0000_0000_0000
  }

  /* ---------- such lines are markers ---------- */

  lemma {:induction false} TrimLeftBlank(a: string, text: string)
    requires AllBlank(a) && text != "" && !IsSpace(text[0])
    ensures TrimLeft(a + text) == text
    decreases |a|
  {
    if a == "" {
      assert a + text == text;
    } else {
      assert (a + text)[1..] == a[1..] + text;
      TrimLeftBlank(a[1..], text);
    }
  }

  lemma TrimAround(a: string, text: string, rest: string)
    requires AllBlank(a) && text != "" && !IsSpace(text[0]) && !IsSpace(text[|text| - 1])
    ensures Trim(a + text + rest) == text + TrimRight(rest)
  {
    assert a + text + rest == a + (text + rest);
    TrimLeftBlank(a, text + rest);
    LineMarkers.TrimRightKeeps(text, rest);
  }

  lemma NamedEnds(f: Form)
    requires FormOk(f)
    ensures Named(f) != "" && IsDigit(Named(f)[0]) && Named(f)[|Named(f)| - 1] == '"'
    ensures Body(f) != "" && !IsSpace(Body(f)[0]) && Body(f)[|Body(f)| - 1] == '"'
  {
    assert Named(f)[0] == f.digits[0];
    if f.word {
      assert Body(f)[0] == 'l';
    }
  }

  // What follows the hash mark and the word, up to what is left of the rest.
  lemma BodyOf(f: Form) returns (t: string)
    requires FormOk(f)
    ensures MarkerBody(Spelled(f)) == Some(Named(f) + t)
  {
    NamedEnds(f);
    var core, u := ['#'] + (f.b + Body(f)), TrimRight(f.rest);
    TrimAround(f.a, core, f.rest);
    assert Trim(Spelled(f)) == core + u;
    assert (core + u)[1..] == f.b + Body(f) + u;
    TrimAround(f.b, Body(f), u);
    t := TrimRight(u);
    if f.word {
      var behind := f.c + Named(f) + t;
      assert Body(f) + t == "line" + behind;
      assert ("line" + behind)[4..] == behind;
      TrimAround(f.c, Named(f), t);
      t := TrimRight(t);
    } else {
      assert (Body(f) + t)[0] != 'l';
    }
  }

  // The digits of a body, and what is behind them.
  lemma DigitsOf(f: Form, t: string)
    requires FormOk(f)
    ensures var body := Named(f) + t; var n := Decimal.DigitCount(body);
      && n == |f.digits| && body[..n] == f.digits
      && Trim(body[n..]) == ['"'] + f.name + ['"'] + TrimRight(t)
  {
    var quoted := ['"'] + f.name + ['"'];
    var behind := f.d + quoted + t;
    assert Named(f) + t == f.digits + behind;
    assert behind[0] == if f.d == "" then '"' else f.d[0];
    Decimal.DigitCountOf(f.digits, behind);
    assert (f.digits + behind)[|f.digits|..] == behind;
    TrimAround(f.d, quoted, t);
  }

  lemma FormMarks(f: Form, normal: string -> string)
    requires FormOk(f)
    ensures LineMarker(Spelled(f), normal) ==
            Some(SourceLocation(normal(Unescaped(f.name)), Decimal.Value(f.digits), 1))
  {
    var t := BodyOf(f);
    DigitsOf(f, t);
    LineMarkers.NameEnds(f.name, TrimRight(t));
  }

  /* ---------- and no others are ---------- */

  // What trimming takes away.
  lemma Trimmed(s: string) returns (a: string, b: string)
    ensures s == a + Trim(s) + b && AllBlank(a) && AllBlank(b)
  {
    TrimExactly(s);
    a, b :| s == a + Trim(s) + b && AllBlank(a) && AllBlank(b);
  }

  // A body cut into digits, blanks, a name and the rest.
  lemma NamedBody(f: Form, file: string, z: string, b4: string)
    requires file == ['"'] + f.name + ['"'] + z
    ensures f.digits + (f.d + file + b4) == Named(f) + (z + b4)
  {
    var quoted := ['"'] + f.name + ['"'];
    assert f.d + (quoted + z) + b4 == f.d + quoted + (z + b4);
    Regroup(f.digits, f.d + quoted, z + b4);
  }

  lemma WithWord(f: Form, x: string)
    ensures (if f.word then "line" + (f.c + (Named(f) + x)) else Named(f) + x) == Body(f) + x
  {
    if f.word {
      Regroup(f.c, Named(f), x);
      Regroup("line", f.c + Named(f), x);
    }
  }

  lemma WithHash(f: Form, x: string)
    requires f.rest == x
    ensures f.a + (['#'] + (f.b + (Body(f) + x))) == Spelled(f)
  {
    Regroup(f.b, Body(f), x);
    Regroup(['#'], f.b + Body(f), x);
    Regroup(f.a, ['#'] + (f.b + Body(f)), x);
  }

  lemma FormOfMarker(line: string, normal: string -> string) returns (f: Form)
    requires LineMarker(line, normal).Some?
    ensures FormOk(f) && Spelled(f) == line
  {
    var a, b1 := Trimmed(line);
    var value := Trim(line);
    var b, b2 := Trimmed(value[1..]);
    var rest := Trim(value[1..]);
    var word := "line" <= rest;
    var c, body, b3 := BehindWord(rest);
    var digits, d, name, z := FormOfBody(body);
    f := Form(a, b, word, c, digits, d, name, z + b3 + (b2 + b1));
    assert value == ['#'] + value[1..];
    Tail(f, rest, body, z, b3);
    assert line == a + (['#'] + (b + rest + b2)) + b1;
    Tails(a, b, Body(f), z + b3, b2, b1);
    WithHash(f, f.rest);
  }

  lemma Tail(f: Form, rest: string, body: string, z: string, b3: string)
    requires body == Named(f) + z && rest == if f.word then "line" + (f.c + body + b3) else body + b3
    ensures rest == Body(f) + (z + b3)
  {
    Regroup(Named(f), z, b3);
    Regroup(f.c, body, b3);
    WithWord(f, z + b3);
  }

  lemma Tails(a: string, b: string, body: string, x: string, b2: string, b1: string)
    ensures a + (['#'] + (b + (body + x) + b2)) + b1 == a + (['#'] + (b + (body + (x + (b2 + b1)))))
  {
    assert b + (body + x) + b2 == b + (body + x + b2);
    assert a + (['#'] + (b + (body + x + b2))) + b1 == a + (['#'] + (b + (body + x + b2)) + b1);
    assert (['#'] + (b + (body + x + b2))) + b1 == ['#'] + (b + (body + x + b2 + b1));
    assert body + x + b2 + b1 == body + (x + (b2 + b1));
  }

  // What stands behind the word, if it is there.
  lemma BehindWord(rest: string) returns (c: string, body: string, b3: string)
    ensures AllBlank(c) && body == if "line" <= rest then Trim(rest[4..]) else rest
    ensures rest == if "line" <= rest then "line" + (c + body + b3) else body + b3
  {
    if "line" <= rest {
      c, b3 := Trimmed(rest[4..]);
      body := Trim(rest[4..]);
    } else {
      c, body, b3 := "", rest, "";
    }
  }

  lemma FormOfBody(body: string) returns (digits: string, d: string, name: string, z: string)
    requires var n := Decimal.DigitCount(body);
      var file := Trim(body[n..]);
      n > 0 && |file| >= 2 && file[0] == '"' && IndexOf(file, '"', 1) < |file|
    ensures digits == body[..Decimal.DigitCount(body)] && AllBlank(d) && '"' !in name
    ensures body == Named(Form("", "", false, "", digits, d, name, "")) + z
  {
    var n := Decimal.DigitCount(body);
    var b4;
    d, b4 := Trimmed(body[n..]);
    var file := Trim(body[n..]);
    var k := IndexOf(file, '"', 1);
    IndexOfFirst(file, '"', 1);
    digits, name := body[..n], file[1..k];
    assert file == ['"'] + name + ['"'] + file[k + 1..];
    z := file[k + 1..] + b4;
    NamedBody(Form("", "", false, "", digits, d, name, ""), file, file[k + 1..], b4);
  }

  /** A line is a marker exactly when it has this form; it marks the number's line
      of the file whose name stands between the first two quotation marks, decoded. */
  lemma MarkerExactly(line: string, normal: string -> string, at: SourceLocation)
    ensures LineMarker(line, normal) == Some(at) <==>
            exists f :: FormOk(f) && Spelled(f) == line &&
                        at == SourceLocation(normal(Unescaped(f.name)), Decimal.Value(f.digits), 1)
  {
    if LineMarker(line, normal) == Some(at) {
      var f := FormOfMarker(line, normal);
      FormMarks(f, normal);
    }
    forall f | FormOk(f) && Spelled(f) == line
      ensures LineMarker(line, normal) ==
              Some(SourceLocation(normal(Unescaped(f.name)), Decimal.Value(f.digits), 1))
    {
      FormMarks(f, normal);
    }
  }
}
