/** Which characters a token takes and what its spelling means, by the characters themselves. */
module TokenLaws {
  import opened Common
  import opened CharacterClasses
  import opened Tokenizer

  predicate Letter(c: char) {
    'a' <= c <= 'z' || 'A' <= c <= 'Z' || c == '_' || c as int >= 128
  }

  predicate DecimalDigit(c: char) {
    '0' <= c <= '9'
  }

  /* ---------- where tokens end ---------- */

  // The token from i to r is a run of these characters and goes as far as it can.
  predicate LongestRun(line: string, i: nat, r: nat, within: char -> bool) {
    && i < r <= |line| && (forall k :: i < k < r ==> within(line[k]))
    && (r < |line| ==> !within(line[r]))
  }

  // How many backslashes stand directly before p, none of them before lo.
  function SlashesBefore(line: string, lo: nat, p: nat): nat
    requires lo <= p <= |line|
  {
    if p == lo || line[p - 1] != '\\' then 0 else 1 + SlashesBefore(line, lo, p - 1)
  }

  // The quote at p is not escaped by the text from lo on.
  predicate Closes(line: string, lo: nat, p: nat, quote: char) {
    lo <= p < |line| && line[p] == quote && SlashesBefore(line, lo, p) % 2 == 0
  }

  lemma {:induction false} SlashesFrom(line: string, lo: nat, hi: nat, p: nat)
    requires lo < hi <= p <= |line| && line[hi - 1] != '\\'
    ensures SlashesBefore(line, lo, p) == SlashesBefore(line, hi, p)
    decreases p
  {
    if p > hi && line[p - 1] == '\\' {
      SlashesFrom(line, lo, hi, p - 1);
    }
  }

  lemma {:induction false} TwoSlashes(line: string, lo: nat, p: nat)
    requires lo + 2 <= p <= |line| && line[lo] == '\\'
    ensures SlashesBefore(line, lo, p) % 2 == SlashesBefore(line, lo + 2, p) % 2
    decreases p
  {
    if p == lo + 2 {
      assert SlashesBefore(line, lo, lo + 1) == 1;
    } else if line[p - 1] == '\\' {
      TwoSlashes(line, lo, p - 1);
    }
  }

  /** A literal ends behind its first quote that is not escaped, or with the line. */
  lemma {:induction false} LiteralEndsExactly(line: string, i: nat, quote: char)
    requires i <= |line| && quote != '\\'
    ensures var r := LiteralEnd(line, i, quote);
      && (forall p :: i <= p < r - 1 ==> !Closes(line, i, p, quote))
      && (r < |line| ==> Closes(line, i, r - 1, quote))
    decreases |line| - i
  {
    if i < |line| && line[i] == '\\' && i + 1 < |line| {
      LiteralEndsExactly(line, i + 2, quote);
      forall p | i + 2 <= p < |line|
        ensures Closes(line, i, p, quote) <==> Closes(line, i + 2, p, quote)
      {
        TwoSlashes(line, i, p);
      }
      assert SlashesBefore(line, i, i + 1) == 1 + SlashesBefore(line, i, i);
    } else if i < |line| && line[i] != quote {
      LiteralEndsExactly(line, i + 1, quote);
      if line[i] != '\\' {
        forall p | i + 1 <= p < |line|
          ensures Closes(line, i, p, quote) <==> Closes(line, i + 1, p, quote)
        {
          SlashesFrom(line, i, i + 1, p);
        }
      }
    }
  }

  // Two characters that are one token.
  predicate Pair(a: char, b: char) {
    || (a == b && a in {'[', ']', ':', '&', '|', '+', '-', '=', '<', '>', '#'})
    || (b == '=' && a in {'!', '<', '>', '+', '-', '*', '/', '%', '&', '|', '^'})
    || (a == '-' && b == '>')
  }

  // The entries of the table: two of three characters, then the pairs.
  lemma EntryIs(j: nat)
    requires j < |Punctuation()|
    ensures var e := Punctuation()[j];
      if j < 2 then e in ["<=>", "..."] else |e| == 2 && Pair(e[0], e[1])
  {
  }

  lemma PairIsEntry(a: char, b: char) returns (j: nat)
    requires Pair(a, b)
    ensures 2 <= j < |Punctuation()| && Punctuation()[j] == [a, b]
  {
    if a == b {
      j := if a == '[' then 2 else if a == ']' then 3 else if a == ':' then 4 else if a == '&' then 5
           else if a == '|' then 6 else if a == '+' then 8 else if a == '-' then 9 else if a == '=' then 10
           else if a == '<' then 14 else if a == '>' then 15 else 24;
    } else if b == '>' {
      j := 7;
    } else {
      j := if a == '!' then 11 else if a == '<' then 12 else if a == '>' then 13 else if a == '+' then 16
           else if a == '-' then 17 else if a == '*' then 18 else if a == '/' then 19 else if a == '%' then 20
           else if a == '&' then 21 else if a == '|' then 22 else 23;
    }
  }

  lemma {:induction false} FirstFits(table: seq<string>, text: string) returns (j: nat)
    ensures j <= |table| && forall k :: 0 <= k < j ==> !(table[k] <= text)
    ensures j < |table| ==> table[j] <= text && PunctuationLength(table, text) == |table[j]|
    ensures j == |table| ==> PunctuationLength(table, text) == 1
  {
    if table == [] || table[0] <= text {
      j := 0;
    } else {
      j := FirstFits(table[1..], text);
      j := j + 1;
    }
  }

  predicate StartsTriple(text: string) {
    "<=>" <= text || "..." <= text
  }

  predicate StartsPair(text: string) {
    |text| > 1 && Pair(text[0], text[1])
  }

  // The entry that fits says how the text starts.
  lemma FittingEntry(text: string, j: nat)
    requires j < |Punctuation()| && Punctuation()[j] <= text
    ensures if j < 2 then StartsTriple(text) && |Punctuation()[j]| == 3
            else StartsPair(text) && |Punctuation()[j]| == 2
  {
    EntryIs(j);
    var e := Punctuation()[j];
    assert forall k :: 0 <= k < |e| ==> text[k] == e[k];
  }

  lemma TripleIsEntry(text: string) returns (j: nat)
    requires StartsTriple(text)
    ensures j < 2 && Punctuation()[j] <= text
  {
    j := if "<=>" <= text then 0 else 1;
  }

  lemma PairFits(text: string) returns (j: nat)
    requires StartsPair(text)
    ensures j < |Punctuation()| && Punctuation()[j] <= text
  {
    j := PairIsEntry(text[0], text[1]);
    assert text[..2] == [text[0], text[1]];
  }

  /** Punctuation is three characters for "<=>" and "...", else two for a pair, else one. */
  lemma PunctuationExactly(text: string)
    ensures PunctuationLength(Punctuation(), text) ==
            if StartsTriple(text) then 3 else if StartsPair(text) then 2 else 1
  {
    var table := Punctuation();
    var j := FirstFits(table, text);
    if j < |table| {
      FittingEntry(text, j);
    }
    if StartsTriple(text) {
      var k := TripleIsEntry(text);
      assert j <= k;
    } else if StartsPair(text) {
      var k := PairFits(text);
      assert j <= k;
    }
  }

  /** What the token at a character that is not blank is, and where it ends. */
  lemma TokenExactly(line: string, source: SourceLocation, i: nat)
    requires i < |line| && i < TokenEnd(line, i) <= |line|
    ensures var c, lo := line[i], i + 1; var r := TokenEnd(line, i); var t := TokenAt(line, source, i);
      && t.text == line[i..r] && t.source == source.(column := i + 1)
      && t.identifier == Letter(c) && t.number == DecimalDigit(c) && t.stringLiteral == (c == '"')
      && (Letter(c) ==> LongestRun(line, i, r, d => Letter(d) || DecimalDigit(d)))
      && (DecimalDigit(c) ==>
            LongestRun(line, i, r, d => DecimalDigit(d) || d in {'.', '_', '\''} || (Letter(d) && d as int < 128)))
      && (c == '"' || c == '\'' ==>
            (forall p :: lo <= p < r - 1 ==> !Closes(line, lo, p, c)) && (r < |line| ==> Closes(line, lo, r - 1, c)))
      && (!Letter(c) && !DecimalDigit(c) && c != '"' && c != '\'' ==>
            r == i + if StartsTriple(line[i..]) then 3 else if StartsPair(line[i..]) then 2 else 1)
  {
    var c := line[i];
    if c == '"' || c == '\'' {
      LiteralEndsExactly(line, i + 1, c);
    } else if !Letter(c) && !DecimalDigit(c) {
      PunctuationExactly(line[i..]);
    }
  }

  /** A string token's value is what stands between its quotes, decoded; others have none. */
  lemma ValueExactly(line: string, source: SourceLocation, i: nat)
    requires i < |line| && i < TokenEnd(line, i) <= |line|
    ensures var c, r := line[i], TokenEnd(line, i);
      TokenAt(line, source, i).decoded ==
        if c != '"' then "" else if r == i + 1 then line[i..r] else Unescaped(line[i + 1..r - 1])
  {
    var r := TokenEnd(line, i);
    if r > i + 1 {
      assert line[i..r][1..r - i - 1] == line[i + 1..r - 1];
    }
  }

  /** Every token of a line is the one at its column. */
  lemma {:induction false} TokensAreAt(line: string, source: SourceLocation, i: nat, t: Token)
    requires i <= |line| && t in LineTokens(line, source, i)
    ensures i < t.source.column <= |line|
    ensures var k := t.source.column - 1; k < TokenEnd(line, k) <= |line| && t == TokenAt(line, source, k)
    decreases |line| - i
  {
    if IsSpace(line[i]) {
      TokensAreAt(line, source, i + 1, t);
    } else {
      TokenEndInside(line, i);
      if t != TokenAt(line, source, i) {
        TokensAreAt(line, source, TokenEnd(line, i), t);
      }
    }
  }

  /* ---------- what string literals mean ---------- */

  // A character for itself, or a backslash and a character.
  datatype Spelled = Itself(c: char) | Backslash(c: char)

  function Spelling(items: seq<Spelled>): string {
    if items == [] then ""
    else (if items[0].Itself? then [items[0].c] else ['\\', items[0].c]) + Spelling(items[1..])
  }

  function Meant(items: seq<Spelled>): string {
    if items == [] then ""
    else
      var c := items[0].c;
      [if items[0].Itself? then c
       else if c == 'n' then '\n' else if c == 'r' then '\r' else if c == 't' then '\t' else c]
      + Meant(items[1..])
  }

  /** A literal's body means its characters; n, r and t behind a backslash mean the
      control characters, and any other character there means itself. */
  lemma {:induction false} UnescapedExactly(items: seq<Spelled>, slash: bool)
    requires forall k :: 0 <= k < |items| && items[k].Itself? ==> items[k].c != '\\'
    ensures Unescaped(Spelling(items) + if slash then "\\" else "") == Meant(items) + if slash then "\\" else ""
  {
    var end := if slash then "\\" else "";
    if items == [] {
      assert "" + end == end;
    } else {
      UnescapedExactly(items[1..], slash);
      var first := if items[0].Itself? then [items[0].c] else ['\\', items[0].c];
      var body := Spelling(items) + end;
      Regroup(first, Spelling(items[1..]), end);
      Regroup(Meant(items)[..1], Meant(items[1..]), end);
      assert body[|first|..] == Spelling(items[1..]) + end;
    }
  }

  /** Escaping changes five characters and no other, each by itself. */
  lemma EscapedExactly(c: char, b: string)
    ensures Escaped([c] + b) == Escaped([c]) + Escaped(b) && Escaped("") == ""
    ensures Escaped([c]) ==
            if c == '\n' then ['\\', 'n'] else if c == '\r' then ['\\', 'r'] else if c == '\t' then ['\\', 't']
            else if c == '"' || c == '\\' then ['\\', c] else [c]
  {
    assert ([c] + b)[1..] == b && [c][1..] == "";
    assert Escaped([c]) == Escape(c) + Escaped("") == Escape(c);
  }
}
