/**
 Tokenizing a whole preprocessed source: it is cut into lines, line markers set
 the location, and every other line is tokenized where it stands.
 */
module SourceTokens {
  import opened Common
  import opened CharacterClasses
  import opened Tokenizer
  import Decimal

  const WORD: nat := 0x1_0000_0000_0000_0000

  /* ---------- line markers ---------- */

  // The first position of a character at or after i, or the length.
  function IndexOf(s: string, c: char, i: nat): (r: nat)
    requires i <= |s|
    ensures i <= r <= |s| && (r < |s| ==> s[r] == c)
    decreases |s| - i
  {
    if i == |s| || s[i] == c then i else IndexOf(s, c, i + 1)
  }

  lemma {:induction false} IndexOfFirst(s: string, c: char, i: nat)
    requires i <= |s|
    ensures forall k :: i <= k < IndexOf(s, c, i) ==> s[k] != c
    decreases |s| - i
  {
    if i < |s| && s[i] != c {
      IndexOfFirst(s, c, i + 1);
    }
  }

  // What follows `#` and an optional `line`.
  function MarkerBody(line: string): Option<string> {
    var value := Trim(line);
    if value == "" || value[0] != '#' then None
    else
      var rest := Trim(value[1..]);
      Some(if "line" <= rest then Trim(rest[4..]) else rest)
  }

  // The location a line marker names, in a column of 1; `normal` is the path's normal form.
  function LineMarker(line: string, normal: string -> string): Option<SourceLocation> {
    var body := MarkerBody(line);
    if body.None? then None
    else
      var n := Decimal.DigitCount(body.value);
      if n == 0 || Decimal.Value(body.value[..n]) >= WORD then None
      else
        var file := Trim(body.value[n..]);
        if |file| < 2 || file[0] != '"' then None
        else
          var closing := IndexOf(file, '"', 1);
          if closing == |file| then None
          else Some(SourceLocation(normal(Decoded(file[..closing + 1])), Decimal.Value(body.value[..n]), 1))
  }

  method ParseLineMarker(line: string, source: SourceLocation, normal: string -> string)
      returns (marked: bool, after: SourceLocation)
    ensures marked == LineMarker(line, normal).Some?
    ensures after == if marked then LineMarker(line, normal).value else source
  {
    after := source;
    var value := Trim(line);
    if value == "" || value[0] != '#' {
      return false, source;
    }
    value := value[1..];
    value := Trim(value);
    if "line" <= value {
      value := value[4..];
      value := Trim(value);
    }
    var digits := Decimal.DigitCount(value);
    if digits == 0 || Decimal.Value(value[..digits]) >= WORD {
      return false, source;
    }
    var lineNumber := Decimal.Value(value[..digits]);
    value := value[digits..];
    value := Trim(value);
    if |value| < 2 || value[0] != '"' {
      return false, source;
    }
    var closing := IndexOf(value, '"', 1);
    if closing == |value| {
      return false, source;
    }
    var file := DecodeStringLiteral(value[..closing + 1]);
    return true, SourceLocation(normal(file), lineNumber, 1);
  }

  /* ---------- lines ---------- */

  function Lines(source: string): (r: seq<string>)
    ensures r != []
    decreases |source|
  {
    var end := IndexOf(source, '\n', 0);
    if end == |source| then [source] else [source[..end]] + Lines(source[end + 1..])
  }

  function Joined(lines: seq<string>): string
    requires lines != []
  {
    if |lines| == 1 then lines[0] else lines[0] + ['\n'] + Joined(lines[1..])
  }

  /** Cutting into lines loses nothing, and no line contains a line end. */
  lemma {:induction false} LinesJoin(source: string)
    ensures Joined(Lines(source)) == source
    ensures forall l :: l in Lines(source) ==> '\n' !in l
    decreases |source|
  {
    var end := IndexOf(source, '\n', 0);
    IndexOfFirst(source, '\n', 0);
    if end < |source| {
      LinesJoin(source[end + 1..]);
      JoinedFirst(source[..end], Lines(source[end + 1..]));
      Around(source, end);
    } else {
      assert source[..end] == source;
    }
  }

  lemma JoinedFirst(line: string, rest: seq<string>)
    requires rest != []
    ensures Joined([line] + rest) == line + ['\n'] + Joined(rest)
  {
    assert ([line] + rest)[1..] == rest;
  }

  lemma Around(s: string, i: nat)
    requires i < |s|
    ensures s[..i] + [s[i]] + s[i + 1..] == s
  {
  }

  /* ---------- the tokens of a source ---------- */

  // Which lines are markers, and what they mark.
  type Marking = string -> Option<SourceLocation>

  function Markers(normal: string -> string): Marking {
    line => LineMarker(line, normal)
  }

  function Advance(at: SourceLocation, line: string, mark: Marking): SourceLocation {
    var marker := mark(line);
    if marker.Some? then marker.value else at.(line := at.line + 1)
  }

  function TokensOfLine(line: string, at: SourceLocation, mark: Marking): seq<Token> {
    if mark(line).Some? then [] else LineTokens(line, at, 0)
  }

  const START: SourceLocation := SourceLocation("<preprocessed>", 1, 1)

  // The location at which the k-th line is read.
  function LocationAt(lines: seq<string>, at: SourceLocation, mark: Marking, k: nat): SourceLocation
    requires k <= |lines|
  {
    if k == 0 then at else Advance(LocationAt(lines, at, mark, k - 1), lines[k - 1], mark)
  }

  // The tokens of the first k lines, each read at its own location.
  function TokensOf(lines: seq<string>, at: SourceLocation, mark: Marking, k: nat): seq<Token>
    requires k <= |lines|
  {
    if k == 0 then []
    else TokensOf(lines, at, mark, k - 1) + TokensOfLine(lines[k - 1], LocationAt(lines, at, mark, k - 1), mark)
  }

  // One round of the loop over the lines.
  method TokenizeOne(line: string, current: SourceLocation, before: seq<Token>, normal: string -> string,
                     ghost mark: Marking)
      returns (tokens: seq<Token>, after: SourceLocation)
    requires mark == Markers(normal)
    ensures tokens == before + TokensOfLine(line, current, mark)
    ensures after == Advance(current, line, mark)
  {
    tokens := before;
    var marked;
    marked, after := ParseLineMarker(line, current, normal);
    if !marked {
      tokens := TokenizeLine(line, after, tokens);
      after := after.(line := after.line + 1);
    }
  }

  method Tokenize(source: string, normal: string -> string) returns (tokens: seq<Token>)
    ensures tokens ==
            TokensOf(Lines(source), SourceLocation("<preprocessed>", 1, 1), Markers(normal), |Lines(source)|)
  {
    LinesFromStart(source);
    tokens := TokenizeLines(source, normal, Markers(normal), Lines(source));
  }

  method TokenizeLines(source: string, normal: string -> string, ghost mark: Marking, ghost lines: seq<string>)
      returns (tokens: seq<Token>)
    requires mark == Markers(normal)
    requires lines != [] && LinesFrom(lines, 0, source, 0)
    ensures tokens == TokensOf(lines, START, mark, |lines|)
  {
    tokens := [];
    var current := START;
    var offset := 0;
    ghost var k := 0;
    ReadStart(lines, mark);
    while true
      invariant offset <= |source| && k < |lines| && LinesFrom(lines, k, source, offset)
      invariant ReadTo(lines, mark, k, current, tokens)
      decreases |source| - offset
    {
      var newline := IndexOf(source, '\n', offset);
      var line := source[offset..newline];
      LineAt(lines, k, source, offset, newline);
      ReadNext(lines, mark, k, current, tokens);
      tokens, current := TokenizeOne(line, current, tokens, normal, mark);
      k := k + 1;
      if newline == |source| {
        ReadAll(lines, mark, current, tokens);
        return;
      }
      offset := newline + 1;
    }
  }

  // Seals ReadTo.
  predicate OpenedRead(s: Seal) { true }

  // The first k lines have been read.
  ghost predicate ReadTo(lines: seq<string>, mark: Marking, k: nat, current: SourceLocation, tokens: seq<Token>) {
    forall s {:trigger OpenedRead(s)} :: OpenedRead(s) ==>
      k <= |lines| && current == LocationAt(lines, START, mark, k) && tokens == TokensOf(lines, START, mark, k)
  }

  lemma ReadStart(lines: seq<string>, mark: Marking)
    ensures ReadTo(lines, mark, 0, START, [])
  {
  }

  lemma ReadNext(lines: seq<string>, mark: Marking, k: nat, current: SourceLocation, tokens: seq<Token>)
    requires k < |lines| && ReadTo(lines, mark, k, current, tokens)
    ensures ReadTo(lines, mark, k + 1, Advance(current, lines[k], mark), tokens + TokensOfLine(lines[k], current, mark))
  {
    assert OpenedRead(Seal);
  }

  lemma ReadAll(lines: seq<string>, mark: Marking, current: SourceLocation, tokens: seq<Token>)
    requires ReadTo(lines, mark, |lines|, current, tokens)
    ensures tokens == TokensOf(lines, START, mark, |lines|)
  {
    assert OpenedRead(Seal);
  }

  // The lines from the k-th on are those of what follows an offset, sealed.
  ghost predicate LinesFrom(lines: seq<string>, k: nat, source: string, offset: nat)
    requires offset <= |source| && k <= |lines|
  {
    forall s {:trigger Opened(s)} :: Opened(s) ==> lines[k..] == Lines(source[offset..])
  }

  lemma LinesFromStart(source: string)
    ensures LinesFrom(Lines(source), 0, source, 0)
  {
    assert source[0..] == source && Lines(source)[0..] == Lines(source);
  }

  // The line at an offset is the next one.
  lemma LineAt(lines: seq<string>, k: nat, source: string, offset: nat, newline: nat)
    requires offset <= |source| && k < |lines| && LinesFrom(lines, k, source, offset)
    requires newline == IndexOf(source, '\n', offset)
    ensures lines[k] == source[offset..newline]
    ensures k + 1 == |lines| <==> newline == |source|
    ensures newline < |source| ==> LinesFrom(lines, k + 1, source, newline + 1)
  {
    assert Opened(Seal);
    IndexInRest(source, offset, offset);
    var rest, end := source[offset..], newline - offset;
    FirstLine(rest, end, Lines(rest));
    FirstOf(lines, k, Lines(rest));
    SliceOf(source, offset, newline);
  }

  lemma FirstOf(lines: seq<string>, k: nat, rest: seq<string>)
    requires k < |lines| && lines[k..] == rest
    ensures lines[k] == rest[0] && lines[k + 1..] == rest[1..]
  {
  }

  lemma SliceOf(source: string, offset: nat, newline: nat)
    requires offset <= newline <= |source|
    ensures source[offset..][..newline - offset] == source[offset..newline]
    ensures newline < |source| ==> source[offset..][newline - offset + 1..] == source[newline + 1..]
  {
  }

  lemma FirstLine(rest: string, end: nat, lines: seq<string>)
    requires end == IndexOf(rest, '\n', 0) && lines == Lines(rest)
    ensures lines[0] == rest[..end]
    ensures lines[1..] == if end == |rest| then [] else Lines(rest[end + 1..])
  {
    if end == |rest| {
      assert rest[..end] == rest;
      assert [rest][1..] == [];
    } else {
      RestOfLines(rest[..end], Lines(rest[end + 1..]));
    }
  }

  lemma RestOfLines(line: string, more: seq<string>)
    ensures ([line] + more)[0] == line && ([line] + more)[1..] == more
  {
  }

  lemma {:induction false} IndexInRest(source: string, offset: nat, i: nat)
    requires offset <= i <= |source|
    ensures IndexOf(source[offset..], '\n', i - offset) == IndexOf(source, '\n', i) - offset
    decreases |source| - i
  {
    if i < |source| && source[i] != '\n' {
      IndexInRest(source, offset, i + 1);
    }
  }

  /** Before the first marker, the lines are numbered from the start on. */
  lemma {:induction false} FirstNumbers(lines: seq<string>, at: SourceLocation, mark: Marking, k: nat)
    requires k <= |lines| && forall j :: 0 <= j < k ==> mark(lines[j]).None?
    ensures LocationAt(lines, at, mark, k) == at.(line := at.line + k)
  {
    if k > 0 {
      FirstNumbers(lines, at, mark, k - 1);
    }
  }

  /** A line adds its tokens where it stands, and a marker adds none. */
  lemma OneMoreLine(lines: seq<string>, at: SourceLocation, mark: Marking, k: nat)
    requires k < |lines|
    ensures TokensOf(lines, at, mark, k + 1) ==
            TokensOf(lines, at, mark, k)
            + if mark(lines[k]).Some? then [] else LineTokens(lines[k], LocationAt(lines, at, mark, k), 0)
  {
  }

  /** After a marker, the lines are numbered from the marker's number on, in its file. */
  lemma {:induction false} LineNumbers(lines: seq<string>, at: SourceLocation, mark: Marking, m: nat, k: nat)
    requires m < k <= |lines| && mark(lines[m]).Some?
    requires forall j :: m < j < k ==> mark(lines[j]).None?
    ensures var marker := mark(lines[m]).value;
      LocationAt(lines, at, mark, k) == marker.(line := marker.line + (k - m - 1))
    decreases k
  {
    if k > m + 1 {
      LineNumbers(lines, at, mark, m, k - 1);
    }
  }
}
