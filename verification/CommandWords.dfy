/**
 What a command means: words of plain characters, quotations and escapes,
 separated by blanks outside quotations. The splitter yields the words' values.
 */
module CommandWords {
  import opened Common
  import opened CharacterClasses
  import opened CommandLine

  // Inside double quotes: a character that stands for itself, or an escaped one.
  datatype Inner = Plain(c: char) | Escaped(e: char)

  datatype Piece =
    | Bare(c: char)
    | Backslashed(e: char)
    | SingleQuoted(s: string)
    | DoubleQuoted(items: seq<Inner>)

  function InnerText(items: seq<Inner>): string {
    if items == [] then ""
    else (if items[0].Plain? then [items[0].c] else ['\\', items[0].e]) + InnerText(items[1..])
  }

  function InnerValue(items: seq<Inner>): string {
    if items == [] then "" else [if items[0].Plain? then items[0].c else items[0].e] + InnerValue(items[1..])
  }

  // Only a quotation mark ends the quotation; a backslash stands for itself where
  // nothing escapable follows. `slash` says that a backslash comes behind the items.
  predicate InnerOk(items: seq<Inner>, slash: bool) {
    items == [] ||
    (InnerOk(items[1..], slash) &&
     match items[0]
     case Escaped(e) => e == '"' || e == '\'' || IsSpace(e)
     case Plain(c) =>
       c != '"' &&
       (c == '\\' ==> if |items| == 1 then slash else items[1].Plain? ==> !IsSpace(items[1].c) && items[1].c != '\''))
  }

  function PieceText(p: Piece): string {
    match p
    case Bare(c) => [c]
    case Backslashed(e) => ['\\', e]
    case SingleQuoted(s) => ['\''] + s + ['\'']
    case DoubleQuoted(items) => ['"'] + InnerText(items) + ['"']
  }

  function PieceValue(p: Piece): string {
    match p
    case Bare(c) => [c]
    case Backslashed(e) => [e]
    case SingleQuoted(s) => s
    case DoubleQuoted(items) => InnerValue(items)
  }

  function Text(word: seq<Piece>): string {
    if word == [] then "" else PieceText(word[0]) + Text(word[1..])
  }

  function Value(word: seq<Piece>): string {
    if word == [] then "" else PieceValue(word[0]) + Value(word[1..])
  }

  // A bare backslash needs another bare character or an escape behind it.
  predicate WordOk(word: seq<Piece>, slash: bool) {
    word == [] ||
    (WordOk(word[1..], slash) &&
     match word[0]
     case Bare(c) =>
       c != '"' && c != '\'' && !IsSpace(c) &&
       (c == '\\' ==> if |word| == 1 then slash else word[1].Bare? || word[1].Backslashed?)
     case Backslashed(e) => e == '"' || e == '\'' || IsSpace(e)
     case SingleQuoted(s) => '\'' !in s
     case DoubleQuoted(items) => InnerOk(items, false))
  }

  /* ---------- the splitter reads a word ---------- */

  lemma {:induction false} ReadsAll(st: Splitter, s: string)
    requires st.single && !st.double && '\'' !in s
    ensures Reads(st, s, Grow(st, s))
    decreases |s|
  {
    GrowTwice(st, "", "");
    if s == "" {
      ReadsNothing(st);
    } else {
      ReadsOne(st, s[0], Push(st, s[0]));
      ReadsAll(Push(st, s[0]), s[1..]);
      GrowTwice(st, [s[0]], s[1..]);
      ReadsInTurn(st, [s[0]], Push(st, s[0]), s[1..], Grow(Push(st, s[0]), s[1..]));
      assert s == [s[0]] + s[1..];
    }
  }

  // The text goes on, if at all, with a backslash.
  function Slash(slash: bool): string {
    if slash then "\\" else ""
  }

  // A backslash at the very end of a command stands for itself.
  lemma EndsWithSlash(st: Splitter, slash: bool)
    ensures Scan(st, Slash(slash)) == Grow(st, Slash(slash))
  {
    GrowTwice(st, "", "");
    if slash {
      assert Step(st, "\\") == (Push(st, '\\'), 1);
    }
  }

  lemma {:induction false} ReadsInner(st: Splitter, items: seq<Inner>)
    requires st.double && !st.single && InnerOk(items, false)
    ensures Reads(st, InnerText(items), Grow(st, InnerValue(items)))
    decreases |items|
  {
    GrowTwice(st, "", "");
    if items == [] {
      ReadsNothing(st);
    } else {
      var item, rest := items[0], items[1..];
      var c := if item.Plain? then item.c else item.e;
      ReadsInner(Push(st, c), rest);
      GrowTwice(st, [c], InnerValue(rest));
      if item == Plain('\\') {
        ReadsLoneSlash(st, InnerText(rest), Grow(Push(st, c), InnerValue(rest)));
      } else {
        ReadsItem(st, item);
        ReadsInTurn(st, if item.Plain? then [c] else ['\\', c], Push(st, c), InnerText(rest),
                    Grow(Push(st, c), InnerValue(rest)));
      }
    }
  }

  // An item other than a plain backslash.
  lemma ReadsItem(st: Splitter, item: Inner)
    requires st.double && !st.single && InnerOk([item], false)
    ensures Reads(st, if item.Plain? then [item.c] else ['\\', item.e],
                  Push(st, if item.Plain? then item.c else item.e))
  {
    if item.Plain? {
      ReadsOne(st, item.c, Push(st, item.c));
    } else {
      ReadsEscape(st, item.e);
    }
  }

  // The rest of a command that ends inside double quotes.
  lemma {:induction false} InnerToEnd(st: Splitter, items: seq<Inner>, slash: bool)
    requires st.double && !st.single && InnerOk(items, slash)
    ensures Scan(st, InnerText(items) + Slash(slash)) == Grow(st, InnerValue(items) + Slash(slash))
    decreases |items|
  {
    if items == [] {
      EndsWithSlash(st, slash);
      assert "" + Slash(slash) == Slash(slash);
    } else {
      var item, rest := items[0], items[1..];
      var c := if item.Plain? then item.c else item.e;
      var first := if item.Plain? then [c] else ['\\', c];
      InnerToEnd(Push(st, c), rest, slash);
      GrowTwice(st, [c], InnerValue(rest) + Slash(slash));
      Regroup([c], InnerValue(rest), Slash(slash));
      Regroup(first, InnerText(rest), Slash(slash));
      ItemThen(st, item, rest, slash);
    }
  }

  lemma ItemThen(st: Splitter, item: Inner, rest: seq<Inner>, slash: bool)
    requires st.double && !st.single && InnerOk([item] + rest, slash)
    ensures var c := if item.Plain? then item.c else item.e;
      Scan(st, (if item.Plain? then [c] else ['\\', c]) + (InnerText(rest) + Slash(slash))) ==
      Scan(Push(st, c), InnerText(rest) + Slash(slash))
  {
    assert ([item] + rest)[1..] == rest && [item][1..] == [];
    if item == Plain('\\') {
      SlashThen(st, InnerText(rest) + Slash(slash));
    } else {
      ReadsItem(st, item);
    }
  }

  lemma SlashThen(st: Splitter, behind: string)
    requires !st.single && (behind != "" ==> !Escapable(behind[0]))
    ensures Scan(st, ['\\'] + behind) == Scan(Push(st, '\\'), behind)
  {
    var s := ['\\'] + behind;
    assert s[0] == '\\' && s[1..] == behind;
    assert behind != "" ==> s[1] == behind[0];
  }

  lemma ReadsSingle(st: Splitter, s: string)
    requires !st.single && !st.double && '\'' !in s
    ensures Reads(st, ['\''] + s + ['\''], Grow(st, s))
  {
    var inside := st.(single := true);
    ReadsOne(st, '\'', inside);
    ReadsAll(inside, s);
    ReadsOne(Grow(inside, s), '\'', Grow(st, s));
    ReadsInTurn(st, ['\''], inside, s, Grow(inside, s));
    ReadsInTurn(st, ['\''] + s, Grow(inside, s), ['\''], Grow(st, s));
  }

  lemma ReadsDouble(st: Splitter, items: seq<Inner>)
    requires !st.single && !st.double && InnerOk(items, false)
    ensures Reads(st, ['"'] + InnerText(items) + ['"'], Grow(st, InnerValue(items)))
  {
    var inside, v := st.(double := true), InnerValue(items);
    ReadsOne(st, '"', inside);
    ReadsInner(inside, items);
    ReadsOne(Grow(inside, v), '"', Grow(st, v));
    ReadsInTurn(st, ['"'], inside, InnerText(items), Grow(inside, v));
    ReadsInTurn(st, ['"'] + InnerText(items), Grow(inside, v), ['"'], Grow(st, v));
  }

  // A piece other than a bare backslash.
  lemma ReadsPiece(st: Splitter, p: Piece)
    requires !st.single && !st.double && WordOk([p], false)
    ensures Reads(st, PieceText(p), Grow(st, PieceValue(p)))
  {
    match p
    case Bare(c) => ReadsOne(st, c, Push(st, c));
    case Backslashed(e) => ReadsEscape(st, e);
    case SingleQuoted(s) => ReadsSingle(st, s);
    case DoubleQuoted(items) => ReadsDouble(st, items);
  }

  /** A word of any pieces adds the concatenation of their values to what is in
      hand, and ends no argument. */
  lemma {:induction false} ReadsWord(st: Splitter, word: seq<Piece>, slash: bool, behind: string)
    requires !st.single && !st.double && WordOk(word, slash) && (slash ==> behind == "\\")
    ensures Scan(st, Text(word) + behind) == Scan(Grow(st, Value(word)), behind)
    decreases |word|
  {
    GrowTwice(st, "", "");
    if word == [] {
      assert "" + behind == behind;
    } else {
      var p, rest := word[0], word[1..];
      var next, more := Grow(st, PieceValue(p)), Text(rest) + behind;
      ReadsWord(next, rest, slash, behind);
      GrowTwice(st, PieceValue(p), Value(rest));
      assert Text(word) + behind == PieceText(p) + more;
      if p == Bare('\\') {
        assert |word| == 1 ==> more == behind;
        assert |word| > 1 ==> more[0] == PieceText(word[1])[0];
        SlashThen(st, more);
      } else {
        assert [p][1..] == [];
        ReadsPiece(st, p);
        assert Scan(next, more) == Scan(st, PieceText(p) + more);
      }
    }
  }

  /* ---------- a whole command ---------- */

  // A word and the blank behind it.
  datatype Word = Word(pieces: seq<Piece>, blank: char)

  // How a command can stop short: in the middle of a quotation, or with a backslash.
  datatype Tail = Complete | OpenSingle(s: string) | OpenDouble(items: seq<Inner>, slash: bool) | LastBackslash

  datatype Command = Command(words: seq<Word>, last: seq<Piece>, tail: Tail)

  predicate CommandOk(c: Command) {
    && (forall w :: w in c.words ==> WordOk(w.pieces, false) && IsSpace(w.blank))
    && WordOk(c.last, c.tail.LastBackslash?)
    && (c.tail.OpenSingle? ==> '\'' !in c.tail.s)
    && (c.tail.OpenDouble? ==> InnerOk(c.tail.items, c.tail.slash))
  }

  function WordsText(words: seq<Word>): string {
    if words == [] then "" else Text(words[0].pieces) + [words[0].blank] + WordsText(words[1..])
  }

  function CommandText(c: Command): string {
    WordsText(c.words) + (Text(c.last) + TailText(c.tail))
  }

  function Values(words: seq<Word>): (r: seq<string>)
    ensures |r| == |words| && forall i :: 0 <= i < |words| ==> r[i] == Value(words[i].pieces)
  {
    seq(|words|, i requires 0 <= i < |words| => Value(words[i].pieces))
  }

  // The arguments: the words' values; the last one ends with what the tail has.
  function Arguments(c: Command): seq<string> {
    Values(c.words) + [Value(c.last) + TailValue(c.tail)]
  }

  function TailText(tail: Tail): string {
    match tail
    case Complete => ""
    case OpenSingle(s) => ['\''] + s
    case OpenDouble(items, slash) => ['"'] + (InnerText(items) + Slash(slash))
    case LastBackslash => "\\"
  }

  function TailValue(tail: Tail): string {
    match tail
    case Complete => ""
    case OpenSingle(s) => s
    case OpenDouble(items, slash) => InnerValue(items) + Slash(slash)
    case LastBackslash => "\\"
  }

  lemma ReadsTail(result: seq<string>, a: string, c: Command)
    requires CommandOk(c)
    ensures Flush(Scan(Holding(result, a), TailText(c.tail))).result == Taken(result, a + TailValue(c.tail))
  {
    var st := Holding(result, a);
    match c.tail {
      case Complete => assert a + "" == a;
      case OpenSingle(s) =>
        var inside := st.(single := true);
        ReadsOne(st, '\'', inside);
        ReadsAll(inside, s);
        assert s + "" == s;
        assert Scan(inside, s + "") == Scan(Grow(inside, s), "");
        assert Scan(st, ['\''] + s) == Scan(inside, s);
      case OpenDouble(items, slash) =>
        var inside := st.(double := true);
        ReadsOne(st, '"', inside);
        InnerToEnd(inside, items, slash);
        assert Scan(st, ['"'] + (InnerText(items) + Slash(slash))) == Scan(inside, InnerText(items) + Slash(slash));
      case LastBackslash => EndsWithSlash(st, true);
    }
  }

  lemma ReadsLast(result: seq<string>, c: Command)
    requires CommandOk(c)
    ensures Flush(Scan(Between(result), Text(c.last) + TailText(c.tail))).result ==
            result + NonEmpty([Value(c.last) + TailValue(c.tail)])
  {
    var a := Value(c.last);
    ReadsWord(Between(result), c.last, c.tail.LastBackslash?, TailText(c.tail));
    assert Grow(Between(result), a) == Holding(result, a);
    ReadsTail(result, a, c);
    TakenFirst(result, [a + TailValue(c.tail)]);
    assert NonEmpty([a + TailValue(c.tail)][1..]) == [];
  }

  // The first word and its blank are read before the rest.
  lemma ReadsFirst(result: seq<string>, w: Word, more: string)
    requires WordOk(w.pieces, false) && IsSpace(w.blank)
    ensures Scan(Between(result), Text(w.pieces) + [w.blank] + more) ==
            Scan(Between(Taken(result, Value(w.pieces))), more)
  {
    var a := Value(w.pieces);
    assert Text(w.pieces) + [w.blank] + more == Text(w.pieces) + ([w.blank] + more);
    ReadsWord(Between(result), w.pieces, false, [w.blank] + more);
    assert Grow(Between(result), a) == Holding(result, a);
    ScanSeparator(result, a, w.blank, more);
  }

  // A command that has words: its first one, and the command behind it.
  lemma FirstText(c: Command)
    requires c.words != []
    ensures CommandText(c) ==
            Text(c.words[0].pieces) + [c.words[0].blank] + CommandText(Command(c.words[1..], c.last, c.tail))
  {
    Regroup(Text(c.words[0].pieces) + [c.words[0].blank], WordsText(c.words[1..]), Text(c.last) + TailText(c.tail));
  }

  lemma FirstArgument(c: Command)
    requires c.words != []
    ensures Arguments(c)[0] == Value(c.words[0].pieces)
    ensures Arguments(c)[1..] == Arguments(Command(c.words[1..], c.last, c.tail))
  {
    assert Values(c.words)[1..] == Values(c.words[1..]);
  }

  lemma {:induction false} ReadsWords(result: seq<string>, c: Command)
    requires CommandOk(c)
    ensures Flush(Scan(Between(result), CommandText(c))).result == result + NonEmpty(Arguments(c))
    decreases |c.words|
  {
    if c.words == [] {
      assert WordsText(c.words) == "" && Values(c.words) == [];
      assert CommandText(c) == Text(c.last) + TailText(c.tail);
      assert Arguments(c) == [Value(c.last) + TailValue(c.tail)];
      ReadsLast(result, c);
    } else {
      var w, d := c.words[0], Command(c.words[1..], c.last, c.tail);
      assert w in c.words && forall v :: v in d.words ==> v in c.words;
      FirstText(c);
      FirstArgument(c);
      ReadsFirst(result, w, CommandText(d));
      ReadsWords(Taken(result, Value(w.pieces)), d);
      TakenFirst(result, Arguments(c));
    }
  }

  /** A command of words, whatever quotations and escapes they are made of, is
      split into the words' values; empty ones are dropped, and a command that
      stops short ends with what it has. */
  lemma SplitGivesArguments(c: Command)
    requires CommandOk(c)
    ensures Split(CommandText(c)) == NonEmpty(Arguments(c))
  {
    ReadsWords([], c);
  }

  /* ---------- every command has such words ---------- */

  // The items behind an opening double quote, up to the closing one or the end.
  lemma {:induction false} InnerShape(s: string) returns (items: seq<Inner>, behind: string)
    ensures InnerOk(items, behind == "\\") && s == InnerText(items) + behind
    ensures behind == "" || behind == "\\" || behind[0] == '"'
    decreases |s|
  {
    items, behind := [], s;
    if s == "" || s[0] == '"' || s == "\\" {
    } else if s[0] == '\\' && Escapable(s[1]) {
      items, behind := InnerShape(s[2..]);
      AddItem(s[1], true, items, behind);
      assert s == ['\\', s[1]] + s[2..];
      items := [Escaped(s[1])] + items;
    } else {
      items, behind := InnerShape(s[1..]);
      if s[0] == '\\' && items != [] {
        assert s[1] == InnerText(items)[0];
      }
      AddItem(s[0], false, items, behind);
      assert s == [s[0]] + s[1..];
      items := [Plain(s[0])] + items;
    }
  }

  lemma AddItem(c: char, escaped: bool, items: seq<Inner>, behind: string)
    ensures InnerText([if escaped then Escaped(c) else Plain(c)] + items) + behind ==
            (if escaped then ['\\', c] else [c]) + (InnerText(items) + behind)
  {
    assert ([if escaped then Escaped(c) else Plain(c)] + items)[1..] == items;
    Regroup(if escaped then ['\\', c] else [c], InnerText(items), behind);
  }

  lemma {:induction false} SingleShape(s: string) returns (q: string, closed: bool, rest: string)
    ensures '\'' !in q && s == q + if closed then ['\''] + rest else ""
    decreases |s|
  {
    q, closed, rest := "", false, "";
    if s != "" && s[0] == '\'' {
      closed, rest := true, s[1..];
    } else if s != "" {
      q, closed, rest := SingleShape(s[1..]);
      q := [s[0]] + q;
    }
  }

  function FirstPieces(c: Command): seq<Piece> {
    if c.words == [] then c.last else c.words[0].pieces
  }

  function AddPiece(p: Piece, c: Command): Command {
    if c.words == [] then c.(last := [p] + c.last)
    else c.(words := [c.words[0].(pieces := [p] + c.words[0].pieces)] + c.words[1..])
  }

  function AddBlank(blank: char, c: Command): Command {
    c.(words := [Word([], blank)] + c.words)
  }

  // Whether p can stand in front of the word.
  predicate Fits(p: Piece, word: seq<Piece>, slash: bool) {
    if p != Bare('\\') then WordOk([p], false)
    else if word == [] then slash
    else word[0].Bare? || word[0].Backslashed?
  }

  predicate Joins(p: Piece, c: Command) {
    Fits(p, FirstPieces(c), c.words == [] && c.tail.LastBackslash?)
  }

  lemma AddPieceText(p: Piece, c: Command)
    requires CommandOk(c) && Joins(p, c)
    ensures CommandOk(AddPiece(p, c)) && CommandText(AddPiece(p, c)) == PieceText(p) + CommandText(c)
  {
    PieceInFront(p, FirstPieces(c));
    if c.words == [] {
      AddPieceLast(p, c);
    } else {
      assert c.words[0] in c.words;
      AddPieceWords(p, c.words);
      Regroup(PieceText(p), WordsText(c.words), Text(c.last) + TailText(c.tail));
    }
  }

  lemma AddPieceLast(p: Piece, c: Command)
    requires c.words == []
    ensures CommandText(AddPiece(p, c)) == PieceText(p) + CommandText(c)
  {
    PieceInFront(p, c.last);
    assert WordsText(c.words) == "";
    Regroup(PieceText(p), Text(c.last), TailText(c.tail));
  }

  lemma PieceInFront(p: Piece, word: seq<Piece>)
    ensures Text([p] + word) == PieceText(p) + Text(word)
    ensures forall slash :: WordOk(word, slash) && Fits(p, word, slash) ==> WordOk([p] + word, slash)
  {
    assert ([p] + word)[1..] == word;
  }

  lemma AddPieceWords(p: Piece, words: seq<Word>)
    requires words != []
    ensures WordsText([words[0].(pieces := [p] + words[0].pieces)] + words[1..]) == PieceText(p) + WordsText(words)
  {
    var w := words[0];
    var more := [w.(pieces := [p] + w.pieces)] + words[1..];
    assert more[1..] == words[1..];
    PieceInFront(p, w.pieces);
    Regroup(PieceText(p), Text(w.pieces), [w.blank]);
    Regroup(PieceText(p), Text(w.pieces) + [w.blank], WordsText(words[1..]));
  }

  lemma AddBlankText(blank: char, c: Command)
    requires CommandOk(c) && IsSpace(blank)
    ensures CommandOk(AddBlank(blank, c)) && CommandText(AddBlank(blank, c)) == [blank] + CommandText(c)
  {
    var d := AddBlank(blank, c);
    assert d.words[1..] == c.words;
    FirstText(d);
  }

  lemma BlankFirst(c: Command)
    requires CommandOk(c) && c.words != [] && c.words[0].pieces == []
    ensures CommandText(c) != "" && IsSpace(CommandText(c)[0])
  {
    assert c.words[0] in c.words;
    FirstText(c);
  }

  // The first character of a command's text tells its first piece.
  lemma SlashJoins(c: Command)
    requires CommandOk(c) && CommandText(c) != "" && !Escapable(CommandText(c)[0])
    ensures Joins(Bare('\\'), c)
  {
    if c.words == [] {
      assert CommandText(c) == Text(c.last) + TailText(c.tail);
    } else if c.words[0].pieces == [] {
      BlankFirst(c);
    } else {
      FirstText(c);
      assert CommandText(c)[0] == PieceText(c.words[0].pieces[0])[0];
    }
  }

  lemma TailOnly(tail: Tail)
    ensures CommandText(Command([], [], tail)) == TailText(tail)
  {
    assert WordsText([]) == "" && Text([]) == "";
  }

  lemma {:induction false} Shape(s: string) returns (c: Command)
    ensures CommandOk(c) && CommandText(c) == s
    decreases |s|
  {
    c := Command([], [], Complete);
    TailOnly(Complete);
    if s == "" {
    } else if s[0] == '\'' {
      c := ShapeSingle(s);
    } else if s[0] == '"' {
      c := ShapeDouble(s);
    } else if s == "\\" {
      TailOnly(LastBackslash);
      c := Command([], [], LastBackslash);
    } else if s[0] == '\\' && Escapable(s[1]) {
      c := Shape(s[2..]);
      assert s == PieceText(Backslashed(s[1])) + s[2..] && [Backslashed(s[1])][1..] == [];
      AddPieceText(Backslashed(s[1]), c);
      c := AddPiece(Backslashed(s[1]), c);
    } else {
      c := Shape(s[1..]);
      assert s == [s[0]] + s[1..];
      if IsSpace(s[0]) {
        AddBlankText(s[0], c);
        c := AddBlank(s[0], c);
      } else {
        if s[0] == '\\' {
          SlashJoins(c);
        } else {
          assert [Bare(s[0])][1..] == [];
        }
        AddPieceText(Bare(s[0]), c);
        c := AddPiece(Bare(s[0]), c);
      }
    }
  }

  lemma {:induction false} ShapeSingle(s: string) returns (c: Command)
    requires s != "" && s[0] == '\''
    ensures CommandOk(c) && CommandText(c) == s
    decreases |s|, 0
  {
    var q, closed, rest := SingleShape(s[1..]);
    assert s == ['\''] + s[1..];
    if closed {
      c := Shape(rest);
      assert [SingleQuoted(q)][1..] == [];
      AddPieceText(SingleQuoted(q), c);
      c := AddPiece(SingleQuoted(q), c);
    } else {
      TailOnly(OpenSingle(q));
      c := Command([], [], OpenSingle(q));
    }
  }

  lemma {:induction false} ShapeDouble(s: string) returns (c: Command)
    requires s != "" && s[0] == '"'
    ensures CommandOk(c) && CommandText(c) == s
    decreases |s|, 0
  {
    assert s == ['"'] + s[1..];
    var items, behind := InnerShape(s[1..]);
    var slash := behind == "\\";
    if behind == "" || slash {
      TailOnly(OpenDouble(items, slash));
      c := Command([], [], OpenDouble(items, slash));
    } else {
      c := Shape(behind[1..]);
      Quotation(items, behind);
      AddPieceText(DoubleQuoted(items), c);
      c := AddPiece(DoubleQuoted(items), c);
    }
  }

  lemma Quotation(items: seq<Inner>, behind: string)
    requires InnerOk(items, false) && behind != "" && behind[0] == '"'
    ensures WordOk([DoubleQuoted(items)], false)
    ensures ['"'] + (InnerText(items) + behind) == PieceText(DoubleQuoted(items)) + behind[1..]
  {
    assert [DoubleQuoted(items)][1..] == [] && behind == ['"'] + behind[1..];
    Regroup(['"'] + InnerText(items), ['"'], behind[1..]);
    Regroup(['"'], InnerText(items), behind);
  }

  /** Every text is a command of words in exactly this sense, so the law about
      their values covers whatever the splitter can be given. */
  lemma EveryCommand(s: string)
    ensures exists c :: CommandOk(c) && CommandText(c) == s && Split(s) == NonEmpty(Arguments(c))
  {
    var c := Shape(s);
    SplitGivesArguments(c);
  }
}
