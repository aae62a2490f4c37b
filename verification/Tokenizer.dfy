/**
 The line tokenizer of the MetaGen scanner, and the C++ string escaper it
 undoes.
 */
module Tokenizer {
  import opened Common
  import opened CharacterClasses

  datatype SourceLocation = SourceLocation(file: string, line: nat, column: nat)

  datatype Token = Token(
    text: string,
    decoded: string,
    source: SourceLocation,
    identifier: bool,
    stringLiteral: bool,
    number: bool)

  predicate IsIdentifierStart(c: char) {
    IsAlpha(c) || c == '_' || c as int >= 0x80
  }

  predicate IsIdentifierContinue(c: char) {
    IsAlnum(c) || c == '_' || c as int >= 0x80
  }

  predicate IsNumberContinue(c: char) {
    IsAlnum(c) || c == '.' || c == '_' || c == '\''
  }

  /* ---------- decoding and escaping string literals ---------- */

  // The character a backslash and c stand for.
  function Meaning(c: char): char {
    match c
    case 'n' => '\n'
    case 'r' => '\r'
    case 't' => '\t'
    case _ => c
  }

  // The characters between the quotes, decoded; a backslash at the very end stands for itself.
  function Unescaped(body: string): string {
    if body == "" then ""
    else if body[0] != '\\' || |body| == 1 then [body[0]] + Unescaped(body[1..])
    else [Meaning(body[1])] + Unescaped(body[2..])
  }

  function Decoded(spelling: string): string {
    if |spelling| < 2 then spelling else Unescaped(spelling[1..|spelling| - 1])
  }

  method DecodeStringLiteral(spelling: string) returns (result: string)
    ensures result == Decoded(spelling)
  {
    if |spelling| < 2 {
      return spelling;
    }
    ghost var body := spelling[1..|spelling| - 1];
    result := "";
    var index := 1;
    assert body[0..] == body;
    while index + 1 < |spelling|
      invariant 1 <= index < |spelling|
      invariant result + Unescaped(body[index - 1..]) == Unescaped(body)
    {
      UnescapedStep(body, index - 1);
      var ch := spelling[index];
      if ch != '\\' || index + 2 >= |spelling| {
        Regroup(result, [ch], Unescaped(body[index..]));
        result := result + [ch];
      } else {
        index := index + 1;
        ch := spelling[index];
        Regroup(result, [Meaning(ch)], Unescaped(body[index..]));
        result := result + [Meaning(ch)];
      }
      index := index + 1;
    }
  }

  lemma UnescapedStep(body: string, i: nat)
    requires i < |body|
    ensures Unescaped(body[i..]) ==
            if body[i] != '\\' || i + 1 == |body| then [body[i]] + Unescaped(body[i + 1..])
            else [Meaning(body[i + 1])] + Unescaped(body[i + 2..])
  {
    var rest := body[i..];
    assert rest[0] == body[i] && rest[1..] == body[i + 1..];
    assert |rest| > 1 ==> rest[1] == body[i + 1] && rest[2..] == body[i + 2..];
  }

  function Escape(c: char): string {
    match c
    case '\\' => "\\\\"
    case '"' => "\\\""
    case '\n' => "\\n"
    case '\r' => "\\r"
    case '\t' => "\\t"
    case _ => [c]
  }

  function Escaped(s: string): string {
    if s == "" then "" else Escape(s[0]) + Escaped(s[1..])
  }

  method EscapeCppString(input: string) returns (output: string)
    ensures output == Escaped(input)
  {
    output := "";
    assert input[0..] == input;
    for i := 0 to |input|
      invariant output + Escaped(input[i..]) == Escaped(input)
    {
      assert input[i..][1..] == input[i + 1..];
      output := output + Escape(input[i]);
    }
  }

  function Quoted(s: string): string {
    ['"'] + Escaped(s) + ['"']
  }

  /* ---------- where a token ends ---------- */

  // The end of a literal whose opening quote stands just before i.
  function LiteralEnd(line: string, i: nat, quote: char): (r: nat)
    requires i <= |line|
    ensures i <= r <= |line|
    decreases |line| - i
  {
    if i == |line| then i
    else if line[i] == '\\' && i + 1 < |line| then LiteralEnd(line, i + 2, quote)
    else if line[i] == quote then i + 1
    else LiteralEnd(line, i + 1, quote)
  }

  function Punctuation(): (r: seq<string>)
  {
    ["<=>", "...", "[[", "]]", "::", "&&", "||", "->", "++", "--", "==", "!=", "<=",
     ">=", "<<", ">>", "+=", "-=", "*=", "/=", "%=", "&=", "|=", "^=", "##"]
  }

  // The length of the first entry that begins the text, or 1.
  function PunctuationLength(table: seq<string>, text: string): nat {
    if table == [] then 1
    else if table[0] <= text then |table[0]|
    else PunctuationLength(table[1..], text)
  }

  function TokenEnd(line: string, i: nat): (r: nat)
    requires i < |line|
  {
    var c := line[i];
    if IsIdentifierStart(c) then RunEnd(line, i + 1, IsIdentifierContinue)
    else if IsDigit(c) then RunEnd(line, i + 1, IsNumberContinue)
    else if c == '"' || c == '\'' then LiteralEnd(line, i + 1, c)
    else i + PunctuationLength(Punctuation(), line[i..])
  }

  lemma PunctuationFits(table: seq<string>, text: string)
    requires text != "" && forall e :: e in table ==> e != ""
    ensures 0 < PunctuationLength(table, text) <= |text|
  {
    if table != [] {
      assert table[0] in table;
      assert forall e :: e in table[1..] ==> e in table;
      if !(table[0] <= text) {
        PunctuationFits(table[1..], text);
      }
    }
  }

  lemma PunctuationEntries()
    ensures forall e :: e in Punctuation() ==> e != ""
    ensures Descending(Punctuation())
  {
  }

  ghost predicate Descending(table: seq<string>) {
    forall i, j :: 0 <= i < j < |table| ==> |table[i]| >= |table[j]|
  }

  lemma TokenEndInside(line: string, i: nat)
    requires i < |line|
    ensures i < TokenEnd(line, i) <= |line|
  {
    PunctuationEntries();
    PunctuationFits(Punctuation(), line[i..]);
  }

  /** The first table entry that fits is the longest one that fits. */
  lemma {:induction false} LongestPunctuation(table: seq<string>, text: string, e: string)
    requires Descending(table) && e in table && e <= text
    ensures |e| <= PunctuationLength(table, text) && PunctuationLength(table, text) <= |text|
    ensures text[..PunctuationLength(table, text)] in table
  {
    if table[0] <= text {
      assert text[..|table[0]|] == table[0];
    } else {
      LongestPunctuation(table[1..], text, e);
    }
  }

  /* ---------- the tokens of a line ---------- */

  function TokenAt(line: string, source: SourceLocation, i: nat): Token
    requires i < |line| && TokenEnd(line, i) <= |line|
    requires i <= TokenEnd(line, i)
  {
    var text := line[i..TokenEnd(line, i)];
    var c := line[i];
    var literal := !IsIdentifierStart(c) && !IsDigit(c) && c == '"';
    Token(text, if literal then Decoded(text) else "", source.(column := i + 1),
          IsIdentifierStart(c), literal, !IsIdentifierStart(c) && IsDigit(c))
  }

  function LineTokens(line: string, source: SourceLocation, i: nat): seq<Token>
    requires i <= |line|
    decreases |line| - i
  {
    if i == |line| then []
    else if IsSpace(line[i]) then LineTokens(line, source, i + 1)
    else TokenEndInside(line, i); [TokenAt(line, source, i)] + LineTokens(line, source, TokenEnd(line, i))
  }

  method ScanRun(line: string, i: nat, within: char -> bool) returns (index: nat)
    requires i <= |line|
    ensures index == RunEnd(line, i, within)
  {
    index := i;
    while index < |line| && within(line[index])
      invariant i <= index <= |line|
      invariant RunEnd(line, index, within) == RunEnd(line, i, within)
    {
      index := index + 1;
    }
  }

  method ScanLiteral(line: string, i: nat, quote: char) returns (index: nat)
    requires i <= |line|
    ensures index == LiteralEnd(line, i, quote)
  {
    index := i;
    while index < |line|
      invariant i <= index <= |line|
      invariant LiteralEnd(line, index, quote) == LiteralEnd(line, i, quote)
    {
      if line[index] == '\\' && index + 1 < |line| {
        index := index + 2;
        continue;
      }
      index := index + 1;
      if line[index - 1] == quote {
        return;
      }
    }
  }

  method ScanPunctuation(text: string) returns (length: nat)
    ensures length == PunctuationLength(Punctuation(), text)
  {
    var table := Punctuation();
    assert table[0..] == table;
    for k := 0 to |table|
      invariant PunctuationLength(table[k..], text) == PunctuationLength(table, text)
    {
      assert table[k..][1..] == table[k + 1..];
      if table[k] <= text {
        return |table[k]|;
      }
    }
    return 1;
  }

  // The token that starts at a character that is not blank.
  method ScanToken(line: string, start: nat, lineSource: SourceLocation) returns (token: Token, index: nat)
    requires start < |line|
    ensures start < index == TokenEnd(line, start) <= |line|
    ensures token == TokenAt(line, lineSource, start)
  {
    TokenEndInside(line, start);
    var ch := line[start];
    token := Token("", "", lineSource.(column := start + 1), false, false, false);
    if IsIdentifierStart(ch) {
      index := ScanRun(line, start + 1, IsIdentifierContinue);
      token := token.(identifier := true);
    } else if IsDigit(ch) {
      index := ScanRun(line, start + 1, IsNumberContinue);
      token := token.(number := true);
    } else if ch == '"' || ch == '\'' {
      index := ScanLiteral(line, start + 1, ch);
      token := token.(stringLiteral := ch == '"');
    } else {
      var length := ScanPunctuation(line[start..]);
      index := start + length;
    }
    token := token.(text := line[start..index]);
    if token.stringLiteral {
      var decoded := DecodeStringLiteral(token.text);
      token := token.(decoded := decoded);
    }
  }

  method TokenizeLine(line: string, lineSource: SourceLocation, before: seq<Token>) returns (tokens: seq<Token>)
    ensures tokens == before + LineTokens(line, lineSource, 0)
  {
    tokens := before;
    var index := 0;
    ghost var all := before + LineTokens(line, lineSource, 0);
    while index < |line|
      invariant index <= |line|
      invariant tokens + LineTokens(line, lineSource, index) == all
    {
      if IsSpace(line[index]) {
        index := index + 1;
      } else {
        ghost var start := index;
        var token;
        token, index := ScanToken(line, index, lineSource);
        OneMoreToken(line, lineSource, start, tokens, all);
        tokens := tokens + [token];
      }
    }
  }

  lemma OneMoreToken(line: string, source: SourceLocation, i: nat, tokens: seq<Token>, all: seq<Token>)
    requires i < |line| && !IsSpace(line[i]) && i < TokenEnd(line, i) <= |line|
    requires tokens + LineTokens(line, source, i) == all
    ensures tokens + [TokenAt(line, source, i)] + LineTokens(line, source, TokenEnd(line, i)) == all
  {
  }

  /* ---------- tokens tile the line ---------- */

  // The token is the slice of the line at its column, and starts with no blank.
  ghost predicate SliceOf(line: string, t: Token) {
    var start := t.source.column - 1;
    && 0 <= start && t.text != "" && start + |t.text| <= |line|
    && t.text == line[start..start + |t.text|] && !IsSpace(line[start])
  }

  ghost predicate Covers(t: Token, p: nat) {
    t.source.column - 1 <= p < t.source.column - 1 + |t.text|
  }

  ghost predicate Ordered(tokens: seq<Token>) {
    forall j, k :: 0 <= j < k < |tokens| ==>
      tokens[j].source.column + |tokens[j].text| <= tokens[k].source.column
  }

  // Every character from i on that is not blank belongs to a token.
  ghost predicate Covered(line: string, tokens: seq<Token>, i: nat) {
    forall p :: i <= p < |line| && !IsSpace(line[p]) ==> exists t :: t in tokens && Covers(t, p)
  }

  /** On every line the tokens are exact, ordered, disjoint slices at their
      columns, and every character they leave out is a blank. */
  lemma TokensTile(line: string, source: SourceLocation)
    ensures var tokens := LineTokens(line, source, 0);
      && (forall t :: t in tokens ==> SliceOf(line, t) && t.source == source.(column := t.source.column))
      && Ordered(tokens) && Covered(line, tokens, 0)
  {
    TokensAreSlices(line, source, 0);
    TokensCover(line, source, 0);
  }

  lemma {:induction false} TokensAreSlices(line: string, source: SourceLocation, i: nat)
    requires i <= |line|
    ensures var tokens := LineTokens(line, source, i);
      && (forall t :: t in tokens ==>
            SliceOf(line, t) && t.source == source.(column := t.source.column) && i < t.source.column)
      && Ordered(tokens)
    decreases |line| - i
  {
    if i < |line| {
      if IsSpace(line[i]) {
        TokensAreSlices(line, source, i + 1);
      } else {
        TokenEndInside(line, i);
        TokensAreSlices(line, source, TokenEnd(line, i));
        OrderedFirst(TokenAt(line, source, i), LineTokens(line, source, TokenEnd(line, i)));
      }
    }
  }

  lemma OrderedFirst(token: Token, rest: seq<Token>)
    requires Ordered(rest) && forall t :: t in rest ==> token.source.column + |token.text| <= t.source.column
    ensures Ordered([token] + rest)
    ensures forall t :: t in [token] + rest <==> t == token || t in rest
  {
  }

  lemma {:induction false} TokensCover(line: string, source: SourceLocation, i: nat)
    requires i <= |line|
    ensures Covered(line, LineTokens(line, source, i), i)
    decreases |line| - i
  {
    if i < |line| {
      if IsSpace(line[i]) {
        TokensCover(line, source, i + 1);
      } else {
        TokenEndInside(line, i);
        TokensCover(line, source, TokenEnd(line, i));
        CoveredFirst(line, TokenAt(line, source, i), LineTokens(line, source, TokenEnd(line, i)), i);
      }
    }
  }

  lemma CoveredFirst(line: string, token: Token, rest: seq<Token>, i: nat)
    requires token.source.column == i + 1 && Covered(line, rest, i + |token.text|)
    ensures Covered(line, [token] + rest, i)
  {
    var tokens := [token] + rest;
    forall p | i <= p < |line| && !IsSpace(line[p])
      ensures exists t :: t in tokens && Covers(t, p)
    {
      if p < i + |token.text| {
        assert token in tokens && Covers(token, p);
      } else {
        var t :| t in rest && Covers(t, p);
        assert t in tokens;
      }
    }
  }

  /* ---------- a quoted, escaped string is one token ---------- */

  lemma EscapeMeans(c: char)
    ensures (Escape(c) == [c] && c != '\\' && c != '"')
            || (|Escape(c)| == 2 && Escape(c)[0] == '\\' && Meaning(Escape(c)[1]) == c)
  {
  }

  /** Decoding undoes escaping. */
  lemma {:induction false} UnescapedEscaped(s: string)
    ensures Unescaped(Escaped(s)) == s
  {
    if s != "" {
      var e, rest := Escape(s[0]), Escaped(s[1..]);
      EscapeMeans(s[0]);
      UnescapedEscaped(s[1..]);
      assert (e + rest)[|e|..] == rest;
      assert s == [s[0]] + s[1..];
    }
  }

  ghost predicate StandsAt(line: string, i: nat, text: string) {
    i + |text| <= |line| && forall k :: 0 <= k < |text| ==> line[i + k] == text[k]
  }

  lemma StandsAtParts(line: string, i: nat, a: string, b: string)
    requires StandsAt(line, i, a + b)
    ensures StandsAt(line, i, a) && StandsAt(line, i + |a|, b)
  {
    assert forall k :: 0 <= k < |a| ==> (a + b)[k] == a[k];
    assert forall k :: 0 <= k < |b| ==> (a + b)[|a| + k] == b[k] && line[i + (|a| + k)] == (a + b)[|a| + k];
  }

  // The closing quote of an escaped body is the first unescaped one.
  lemma {:induction false} EscapedBodyEnd(line: string, i: nat, s: string)
    requires StandsAt(line, i, Escaped(s) + ['"'])
    ensures LiteralEnd(line, i, '"') == i + |Escaped(s)| + 1
    decreases s
  {
    if s == "" {
      assert line[i] == (Escaped(s) + ['"'])[0];
    } else {
      var e, rest := Escape(s[0]), Escaped(s[1..]);
      EscapeMeans(s[0]);
      assert Escaped(s) + ['"'] == e + (rest + ['"']);
      StandsAtParts(line, i, e, rest + ['"']);
      EscapedBodyEnd(line, i + |e|, s[1..]);
      EscapeStep(line, i, s[0]);
    }
  }

  lemma EscapeStep(line: string, i: nat, c: char)
    requires StandsAt(line, i, Escape(c)) && i + |Escape(c)| < |line|
    ensures LiteralEnd(line, i, '"') == LiteralEnd(line, i + |Escape(c)|, '"')
  {
    EscapeMeans(c);
    assert line[i + 0] == Escape(c)[0];
  }

  /** Wherever a quoted, escaped string stands in a line, it is exactly one
      string token, and its decoded value is the string. */
  lemma QuotedIsOneToken(line: string, i: nat, s: string, source: SourceLocation)
    requires StandsAt(line, i, Quoted(s))
    ensures LineTokens(line, source, i) ==
            [Token(Quoted(s), s, source.(column := i + 1), false, true, false)]
            + LineTokens(line, source, i + |Quoted(s)|)
  {
    QuotedEnd(line, i, s);
    QuotedTokenAt(line, i, s, source);
  }

  lemma QuotedTokenAt(line: string, i: nat, s: string, source: SourceLocation)
    requires StandsAt(line, i, Quoted(s)) && line[i] == '"' && TokenEnd(line, i) == i + |Quoted(s)|
    ensures TokenAt(line, source, i) == Token(Quoted(s), s, source.(column := i + 1), false, true, false)
  {
    var text := Quoted(s);
    assert line[i..i + |text|] == text;
    DecodedQuoted(s);
  }

  lemma QuotedEnd(line: string, i: nat, s: string)
    requires StandsAt(line, i, Quoted(s))
    ensures line[i] == '"' && TokenEnd(line, i) == i + |Quoted(s)|
  {
    assert Quoted(s) == ['"'] + (Escaped(s) + ['"']);
    StandsAtParts(line, i, ['"'], Escaped(s) + ['"']);
    assert line[i + 0] == ['"'][0];
    EscapedBodyEnd(line, i + 1, s);
  }

  lemma DecodedQuoted(s: string)
    ensures Decoded(Quoted(s)) == s
  {
    assert Quoted(s)[1..|Quoted(s)| - 1] == Escaped(s);
    UnescapedEscaped(s);
  }

  lemma QuotedAlone(s: string, source: SourceLocation)
    ensures LineTokens(Quoted(s), source, 0) == [Token(Quoted(s), s, source.(column := 1), false, true, false)]
    ensures '\n' !in Quoted(s)
  {
    var q := Quoted(s);
    assert LineTokens(q, source, |q|) == [];
    QuotedIsOneToken(q, 0, s, source);
    OneLine(s);
  }

  lemma {:induction false} OneLine(s: string)
    ensures '\n' !in Escaped(s)
  {
    if s != "" {
      OneLine(s[1..]);
    }
  }
}
