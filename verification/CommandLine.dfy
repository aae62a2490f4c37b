/** Splitting a compiler command into arguments, and the two ways of quoting one. */
module CommandLine {
  import opened Common
  import opened CharacterClasses

  predicate Escapable(c: char) {
    c == '"' || c == '\'' || IsSpace(c)
  }

  /* ---------- the splitter ---------- */

  datatype Splitter = Splitter(result: seq<string>, current: string, single: bool, double: bool)

  function Start(): Splitter {
    Splitter([], "", false, false)
  }

  function Push(st: Splitter, c: char): Splitter {
    st.(current := st.current + [c])
  }

  function Flush(st: Splitter): Splitter {
    if st.current == "" then st else st.(result := st.result + [st.current], current := "")
  }

  // One round of the loop: the new state and how many characters it took.
  function Step(st: Splitter, s: string): (r: (Splitter, nat))
    requires s != ""
    ensures 0 < r.1 <= |s|
  {
    var c := s[0];
    if c == '\'' && !st.double then (st.(single := !st.single), 1)
    else if c == '"' && !st.single then (st.(double := !st.double), 1)
    else if c == '\\' && !st.single && |s| > 1 && Escapable(s[1]) then (Push(st, s[1]), 2)
    else if IsSpace(c) && !st.single && !st.double then (Flush(st), 1)
    else (Push(st, c), 1)
  }

  function Scan(st: Splitter, s: string): Splitter
    decreases |s|
  {
    if s == "" then st
    else var (next, taken) := Step(st, s); Scan(next, s[taken..])
  }

  function Split(command: string): seq<string> {
    Flush(Scan(Start(), command)).result
  }

  method SplitCommand(command: string) returns (result: seq<string>)
    ensures result == Split(command)
  {
    var current := "";
    var singleQuoted, doubleQuoted := false, false;
    var index := 0;
    result := [];
    assert command[0..] == command;
    while index < |command|
      invariant index <= |command|
      invariant Scan(Splitter(result, current, singleQuoted, doubleQuoted), command[index..]) == Scan(Start(), command)
    {
      var ch := command[index];
      ghost var rest := command[index..];
      assert rest[0] == ch && rest[1..] == command[index + 1..];
      assert |rest| > 1 ==> rest[1] == command[index + 1] && rest[2..] == command[index + 2..];
      if ch == '\'' && !doubleQuoted {
        singleQuoted := !singleQuoted;
      } else if ch == '"' && !singleQuoted {
        doubleQuoted := !doubleQuoted;
      } else if ch == '\\' && !singleQuoted && index + 1 < |command| && Escapable(command[index + 1]) {
        index := index + 1;
        current := current + [command[index]];
      } else if IsSpace(ch) && !singleQuoted && !doubleQuoted {
        if current != "" {
          result := result + [current];
          current := "";
        }
      } else {
        current := current + [ch];
      }
      index := index + 1;
    }
    if current != "" {
      result := result + [current];
    }
  }

  /* ---------- the quoters ---------- */

  function ShellBody(a: string): string {
    if a == "" then ""
    else (if a[0] == '\'' then "'\\''" else [a[0]]) + ShellBody(a[1..])
  }

  function ShellQuoted(a: string): string {
    ['\''] + ShellBody(a) + ['\'']
  }

  function Slashes(n: nat): (s: string)
    ensures |s| == n && forall i :: 0 <= i < n ==> s[i] == '\\'
  {
    seq(n, _ => '\\')
  }

  // The body of a response-file argument, with n backslashes held back.
  function ResponseBody(a: string, n: nat): string {
    if a == "" then Slashes(2 * n)
    else if a[0] == '\\' then ResponseBody(a[1..], n + 1)
    else if a[0] == '"' then Slashes(2 * n + 1) + ['"'] + ResponseBody(a[1..], 0)
    else Slashes(n) + [a[0]] + ResponseBody(a[1..], 0)
  }

  function ResponseQuoted(a: string): string {
    ['"'] + ResponseBody(a, 0) + ['"']
  }

  method ShellQuote(argument: string) returns (result: string)
    ensures result == ShellQuoted(argument)
  {
    result := "'";
    assert argument[0..] == argument;
    for i := 0 to |argument|
      invariant result + ShellBody(argument[i..]) == "'" + ShellBody(argument)
    {
      assert argument[i..][1..] == argument[i + 1..];
      if argument[i] == '\'' {
        result := result + "'\\''";
      } else {
        result := result + [argument[i]];
      }
    }
    result := result + "'";
  }

  method ResponseQuote(argument: string) returns (result: string)
    ensures result == ResponseQuoted(argument)
  {
    result := "\"";
    var backslashes := 0;
    assert argument[0..] == argument;
    for i := 0 to |argument|
      invariant result + ResponseBody(argument[i..], backslashes) == "\"" + ResponseBody(argument, 0)
    {
      ghost var rest := argument[i..];
      assert rest[1..] == argument[i + 1..];
      if argument[i] == '\\' {
        backslashes := backslashes + 1;
      } else if argument[i] == '"' {
        result := result + Slashes(backslashes * 2 + 1) + ['"'];
        backslashes := 0;
      } else {
        result := result + Slashes(backslashes) + [argument[i]];
        backslashes := 0;
      }
    }
    result := result + Slashes(backslashes * 2);
    result := result + "\"";
  }

  /* ---------- how a piece of text moves the splitter ---------- */

  function Grow(st: Splitter, s: string): Splitter {
    st.(current := st.current + s)
  }

  // Whatever follows, scanning the word leads from st to after.
  ghost predicate Reads(st: Splitter, word: string, after: Splitter) {
    forall rest: string {:trigger Scan(after, rest)} :: Scan(st, word + rest) == Scan(after, rest)
  }

  lemma ReadsInTurn(st: Splitter, first: string, between: Splitter, second: string, after: Splitter)
    requires Reads(st, first, between) && Reads(between, second, after)
    ensures Reads(st, first + second, after)
  {
    forall rest: string
      ensures Scan(st, first + second + rest) == Scan(after, rest)
    {
      assert first + second + rest == first + (second + rest);
      assert Scan(between, second + rest) == Scan(after, rest);
    }
  }

  lemma ReadsNothing(st: Splitter)
    ensures Reads(st, "", st)
  {
    forall rest: string
      ensures Scan(st, "" + rest) == Scan(st, rest)
    {
      assert "" + rest == rest;
    }
  }

  // A character that is not a backslash outside single quotes is read on its own.
  lemma ReadsOne(st: Splitter, c: char, after: Splitter)
    requires c != '\\' || st.single
    requires Step(st, [c]) == (after, 1)
    ensures Reads(st, [c], after)
  {
    forall rest: string
      ensures Scan(st, [c] + rest) == Scan(after, rest)
    {
      var s := [c] + rest;
      assert s[0] == c && s[1..] == rest;
    }
  }

  lemma ReadsEscape(st: Splitter, c: char)
    requires !st.single && Escapable(c)
    ensures Reads(st, ['\\', c], Push(st, c))
  {
    forall rest: string
      ensures Scan(st, ['\\', c] + rest) == Scan(Push(st, c), rest)
    {
      var s := ['\\', c] + rest;
      assert s[0] == '\\' && s[1] == c && s[2..] == rest;
    }
  }

  // A backslash before a character that needs no escape stands for itself.
  lemma ReadsLoneSlash(st: Splitter, word: string, after: Splitter)
    requires !st.single && word != "" && !Escapable(word[0])
    requires Reads(Push(st, '\\'), word, after)
    ensures Reads(st, ['\\'] + word, after)
  {
    forall rest: string
      ensures Scan(st, ['\\'] + word + rest) == Scan(after, rest)
    {
      var s := ['\\'] + word + rest;
      assert s[0] == '\\' && s[1] == word[0] && s[1..] == word + rest;
    }
  }

  lemma SlashesSplit(n: nat, c: char)
    ensures Slashes(n + 1) + [c] == ['\\'] + (Slashes(n) + [c])
    ensures Slashes(0) + [c] == [c]
  {
  }

  lemma GrowTwice(st: Splitter, s: string, t: string)
    ensures Grow(Grow(st, s), t) == Grow(st, s + t)
    ensures Grow(st, "") == st
  {
    assert st.current + s + t == st.current + (s + t);
    assert st.current + "" == st.current;
  }

  // Inside double quotes, backslashes before an ordinary character stand for themselves.
  lemma {:induction false} ReadsSlashes(st: Splitter, n: nat, c: char)
    requires st.double && !st.single && c != '"' && c != '\\' && (n > 0 ==> !Escapable(c))
    ensures Reads(st, Slashes(n) + [c], Grow(st, Slashes(n) + [c]))
    decreases n
  {
    if n == 0 {
      SlashesSplit(0, c);
      ReadsOne(st, c, Push(st, c));
    } else {
      SlashesSplit(n - 1, c);
      ReadsSlashes(Push(st, '\\'), n - 1, c);
      ReadsLoneSlash(st, Slashes(n - 1) + [c], Grow(Push(st, '\\'), Slashes(n - 1) + [c]));
      GrowTwice(st, ['\\'], Slashes(n - 1) + [c]);
    }
  }

  // The last of a run of backslashes escapes the character after it.
  lemma {:induction false} ReadsSlashesBefore(st: Splitter, n: nat, c: char)
    requires !st.single && Escapable(c)
    ensures Reads(st, Slashes(n + 1) + [c], Grow(st, Slashes(n) + [c]))
    decreases n
  {
    SlashesSplit(n, c);
    if n == 0 {
      SlashesSplit(0, c);
      ReadsEscape(st, c);
      assert ['\\'] + [c] == ['\\', c];
    } else {
      SlashesSplit(n - 1, c);
      ReadsSlashesBefore(Push(st, '\\'), n - 1, c);
      ReadsLoneSlash(st, Slashes(n) + [c], Grow(Push(st, '\\'), Slashes(n - 1) + [c]));
      GrowTwice(st, ['\\'], Slashes(n - 1) + [c]);
    }
  }

  /* ---------- lists of quoted arguments ---------- */

  // Words with a separator between them and some blank text after the last.
  function Joined(words: seq<string>, separator: char, end: string): string
    decreases |words|, 1
  {
    if words == [] then end
    else words[0] + AfterWord(words, separator, end)
  }

  function AfterWord(words: seq<string>, separator: char, end: string): string
    requires words != []
    decreases |words|, 0
  {
    if |words| == 1 then end else [separator] + Joined(words[1..], separator, end)
  }

  function ShellWords(args: seq<string>): (r: seq<string>)
    ensures |r| == |args| && forall i :: 0 <= i < |args| ==> r[i] == ShellQuoted(args[i])
  {
    seq(|args|, i requires 0 <= i < |args| => ShellQuoted(args[i]))
  }

  function ResponseWords(args: seq<string>): (r: seq<string>)
    ensures |r| == |args| && forall i :: 0 <= i < |args| ==> r[i] == ResponseQuoted(args[i])
  {
    seq(|args|, i requires 0 <= i < |args| => ResponseQuoted(args[i]))
  }

  predicate AllSpace(s: string) {
    forall i :: 0 <= i < |s| ==> IsSpace(s[i])
  }

  function NonEmpty(args: seq<string>): seq<string> {
    if args == [] then [] else (if args[0] == "" then [] else [args[0]]) + NonEmpty(args[1..])
  }

  lemma {:induction false} NonEmptyIsAll(args: seq<string>)
    ensures |NonEmpty(args)| <= |args|
    ensures NonEmpty(args) == args <==> "" !in args
  {
    if args != [] {
      NonEmptyIsAll(args[1..]);
      assert args == [args[0]] + args[1..];
    }
  }

  // Between two words the splitter is outside quotes and has nothing in hand.
  function Between(result: seq<string>): Splitter {
    Splitter(result, "", false, false)
  }

  function Holding(result: seq<string>, a: string): Splitter {
    Splitter(result, a, false, false)
  }

  function Taken(result: seq<string>, a: string): seq<string> {
    if a == "" then result else result + [a]
  }

  // The word is read as the argument a, whatever was split off before.
  ghost predicate Quotes(word: string, a: string) {
    forall result :: Reads(Between(result), word, Holding(result, a))
  }

  lemma {:induction false} ScanSpaces(result: seq<string>, a: string, s: string)
    requires AllSpace(s)
    ensures Flush(Scan(Holding(result, a), s)).result == Taken(result, a)
    decreases |s|
  {
    if s != "" {
      ScanSpaces(Taken(result, a), "", s[1..]);
      assert Step(Holding(result, a), s) == (Between(Taken(result, a)), 1);
    }
  }

  lemma ScanSeparator(result: seq<string>, a: string, separator: char, more: string)
    requires IsSpace(separator)
    ensures Scan(Holding(result, a), [separator] + more) == Scan(Between(Taken(result, a)), more)
  {
    var s := [separator] + more;
    assert s[0] == separator && s[1..] == more;
    assert Step(Holding(result, a), s) == (Between(Taken(result, a)), 1);
  }

  // Reading one word and then the text after it.
  lemma ScanWord(result: seq<string>, words: seq<string>, a: string, separator: char, end: string)
    requires words != [] && Quotes(words[0], a) && IsSpace(separator)
    ensures Scan(Between(result), Joined(words, separator, end)) ==
            if |words| == 1 then Scan(Holding(result, a), end)
            else Scan(Between(Taken(result, a)), Joined(words[1..], separator, end))
  {
    assert Reads(Between(result), words[0], Holding(result, a));
    var after := AfterWord(words, separator, end);
    assert Scan(Between(result), words[0] + after) == Scan(Holding(result, a), after);
    if |words| > 1 {
      ScanSeparator(result, a, separator, Joined(words[1..], separator, end));
    }
  }

  lemma {:induction false} SplitJoined(result: seq<string>, words: seq<string>, args: seq<string>,
                                       separator: char, end: string)
    requires |words| == |args| && IsSpace(separator) && AllSpace(end)
    requires forall i :: 0 <= i < |args| ==> Quotes(words[i], args[i])
    ensures Flush(Scan(Between(result), Joined(words, separator, end))).result == result + NonEmpty(args)
    decreases |words|
  {
    if words == [] {
      ScanSpaces(result, "", end);
      assert Between(result) == Holding(result, "");
    } else {
      ScanWord(result, words, args[0], separator, end);
      if |words| == 1 {
        ScanSpaces(result, args[0], end);
        assert NonEmpty(args[1..]) == [];
      } else {
        SplitJoined(Taken(result, args[0]), words[1..], args[1..], separator, end);
      }
      TakenFirst(result, args);
    }
  }

  lemma TakenFirst(result: seq<string>, args: seq<string>)
    requires args != []
    ensures Taken(result, args[0]) + NonEmpty(args[1..]) == result + NonEmpty(args)
  {
    var first, others := if args[0] == "" then [] else [args[0]], NonEmpty(args[1..]);
    assert result + first == Taken(result, args[0]);
    Regroup(result, first, others);
  }

  /* ---------- shell quoting ---------- */

  lemma {:induction false} ReadsShellBody(st: Splitter, a: string)
    requires st.single && !st.double
    ensures Reads(st, ShellBody(a), Grow(st, a))
    decreases |a|
  {
    GrowTwice(st, "", "");
    if a == "" {
      ReadsNothing(st);
    } else {
      var first := if a[0] == '\'' then "'\\''" else [a[0]];
      if a[0] == '\'' {
        ReadsApostrophe(st);
      } else {
        ReadsOne(st, a[0], Push(st, a[0]));
      }
      ReadsShellBody(Push(st, a[0]), a[1..]);
      GrowTwice(st, [a[0]], a[1..]);
      assert a == [a[0]] + a[1..];
      ReadsInTurn(st, first, Push(st, a[0]), ShellBody(a[1..]), Grow(Push(st, a[0]), a[1..]));
    }
  }

  // The four characters that put an apostrophe into a single-quoted word.
  lemma ReadsApostrophe(st: Splitter)
    requires st.single && !st.double
    ensures Reads(st, "'\\''", Push(st, '\''))
  {
    var outside := st.(single := false);
    var pushed := Push(outside, '\'');
    ReadsOne(st, '\'', outside);
    ReadsEscape(outside, '\'');
    ReadsOne(pushed, '\'', Push(st, '\''));
    ReadsInTurn(st, "'", outside, "\\'", pushed);
    assert "'" + "\\'" == "'\\'";
    ReadsInTurn(st, "'\\'", pushed, "'", Push(st, '\''));
    assert "'\\'" + "'" == "'\\''";
  }

  // A body between two quote characters that open and close a quotation.
  lemma ReadsQuoted(result: seq<string>, quote: char, inside: Splitter, body: string, a: string, filled: Splitter)
    requires quote != '\\' && Step(Between(result), [quote]) == (inside, 1)
    requires Reads(inside, body + [quote], Holding(result, a))
    ensures Reads(Between(result), [quote] + body + [quote], Holding(result, a))
  {
    ReadsOne(Between(result), quote, inside);
    ReadsInTurn(Between(result), [quote], inside, body + [quote], Holding(result, a));
    assert [quote] + body + [quote] == [quote] + (body + [quote]);
  }

  lemma ShellReads(a: string)
    ensures Quotes(ShellQuoted(a), a)
  {
    forall result
      ensures Reads(Between(result), ShellQuoted(a), Holding(result, a))
    {
      var inside := Between(result).(single := true);
      ReadsShellBody(inside, a);
      assert "" + a == a;
      ReadsOne(Grow(inside, a), '\'', Holding(result, a));
      ReadsInTurn(inside, ShellBody(a), Grow(inside, a), ['\''], Holding(result, a));
      ReadsQuoted(result, '\'', inside, ShellBody(a), a, Grow(inside, a));
    }
  }

  /** Splitting the joined shell forms gives back the non-empty arguments. */
  lemma SplitUndoesShell(args: seq<string>, separator: char, end: string)
    requires IsSpace(separator) && AllSpace(end)
    ensures Split(Joined(ShellWords(args), separator, end)) == NonEmpty(args)
    ensures Split(Joined(ShellWords(args), separator, end)) == args <==> "" !in args
  {
    forall i | 0 <= i < |args|
      ensures Quotes(ShellWords(args)[i], args[i])
    {
      ShellReads(args[i]);
    }
    SplitJoined([], ShellWords(args), args, separator, end);
    NonEmptyIsAll(args);
  }

  /* ---------- response-file quoting ---------- */

  // No backslash stands directly before a quote, an apostrophe, a blank or the end.
  predicate Safe(a: string) {
    forall i :: 0 <= i < |a| && a[i] == '\\' ==> i + 1 < |a| && !Escapable(a[i + 1])
  }

  // The same, read from the left; held says that a backslash came just before.
  predicate SafeAfter(a: string, held: bool) {
    if a == "" then !held
    else (held ==> !Escapable(a[0])) && SafeAfter(a[1..], a[0] == '\\')
  }

  lemma {:induction false} SafeFromLeft(a: string, held: bool)
    ensures SafeAfter(a, held) <==> Safe(a) && (held ==> a != "" && !Escapable(a[0]))
  {
    if a != "" {
      var t := a[1..];
      SafeFromLeft(t, a[0] == '\\');
      assert forall i :: 0 <= i < |t| ==> t[i] == a[i + 1];
      if Safe(a) {
        assert Safe(t);
        assert a[0] == '\\' ==> t != "" && t[0] == a[1];
      } else {
        var i :| 0 <= i < |a| && a[i] == '\\' && !(i + 1 < |a| && !Escapable(a[i + 1]));
        if i > 0 {
          assert t[i - 1] == '\\';
          assert !Safe(t);
        }
      }
    }
  }

  // What one character contributes to the body, after n held-back backslashes.
  function ResponseStep(c: char, n: nat): string {
    if c == '"' then Slashes(2 * n + 1) + ['"'] else Slashes(n) + [c]
  }

  lemma ResponseText(a: string, n: nat)
    requires a != "" && a[0] != '\\'
    ensures ResponseBody(a, n) + ['"'] == ResponseStep(a[0], n) + (ResponseBody(a[1..], 0) + ['"'])
  {
  }

  lemma ReadsResponseStep(st: Splitter, c: char, n: nat)
    requires st.double && !st.single && c != '\\' && (n > 0 ==> !Escapable(c))
    ensures Reads(st, ResponseStep(c, n), Grow(st, Slashes(n) + [c]))
  {
    if c == '"' {
      ReadsSlashesBefore(st, 0, c);
    } else {
      ReadsSlashes(st, n, c);
    }
  }

  lemma HeldText(a: string, n: nat)
    requires a != ""
    ensures a[0] == '\\' ==> Slashes(n + 1) + a[1..] == Slashes(n) + a
    ensures Slashes(n) + [a[0]] + (Slashes(0) + a[1..]) == Slashes(n) + a
  {
    assert a == [a[0]] + a[1..];
  }

  lemma {:induction false} ReadsResponseBody(st: Splitter, a: string, n: nat)
    requires st.double && !st.single && SafeAfter(a, n > 0)
    ensures Reads(st, ResponseBody(a, n) + ['"'], Grow(st, Slashes(n) + a).(double := false))
    decreases |a|
  {
    if a == "" {
      GrowTwice(st, "", "");
      assert Slashes(0) + "" == "";
      ReadsOne(st, '"', st.(double := false));
      assert ResponseBody(a, n) + ['"'] == ['"'];
    } else {
      HeldText(a, n);
      if a[0] == '\\' {
        ReadsResponseBody(st, a[1..], n + 1);
      } else {
        var next := Grow(st, Slashes(n) + [a[0]]);
        var after := Grow(next, Slashes(0) + a[1..]).(double := false);
        ReadsResponseBody(next, a[1..], 0);
        ReadsResponseStep(st, a[0], n);
        ResponseText(a, n);
        ReadsInTurn(st, ResponseStep(a[0], n), next, ResponseBody(a[1..], 0) + ['"'], after);
        GrowTwice(st, Slashes(n) + [a[0]], Slashes(0) + a[1..]);
      }
    }
  }

  lemma ResponseReads(a: string)
    requires Safe(a)
    ensures Quotes(ResponseQuoted(a), a)
  {
    forall result
      ensures Reads(Between(result), ResponseQuoted(a), Holding(result, a))
    {
      var inside := Between(result).(double := true);
      SafeFromLeft(a, false);
      ReadsResponseBody(inside, a, 0);
      assert Slashes(0) + a == a;
      ReadsQuoted(result, '"', inside, ResponseBody(a, 0), a, inside);
    }
  }

  /* ---------- what an unsafe argument does ---------- */

  // The word under construction only grows, and finished words stay.
  lemma {:induction false} WordsStay(st: Splitter, s: string)
    requires st.current != ""
    ensures var r := Flush(Scan(st, s)).result;
      |r| > |st.result| && st.result <= r && st.current <= r[|st.result|]
    decreases |s|
  {
    if s != "" {
      var (next, taken) := Step(st, s);
      if next.current != "" {
        WordsStay(next, s[taken..]);
      } else {
        FinishedStay(next, s[taken..]);
      }
    }
  }

  lemma {:induction false} FinishedStay(st: Splitter, s: string)
    ensures st.result <= Flush(Scan(st, s)).result
    decreases |s|
  {
    if s != "" {
      var (next, taken) := Step(st, s);
      FinishedStay(next, s[taken..]);
      assert st.result <= next.result;
    }
  }

  // Whatever follows, the word begun by st does not come out as `wanted`.
  ghost predicate Spoils(st: Splitter, word: string, wanted: string) {
    forall rest: string :: Misread(st, word + rest, wanted)
  }

  ghost predicate Misread(st: Splitter, s: string, wanted: string) {
    var r := Flush(Scan(st, s)).result;
    |r| > |st.result| && r[|st.result|] != wanted
  }

  lemma SpoilsLater(st: Splitter, first: string, between: Splitter, second: string, wanted: string)
    requires Reads(st, first, between) && between.result == st.result
    requires Spoils(between, second, wanted)
    ensures Spoils(st, first + second, wanted)
  {
    forall rest: string
      ensures Misread(st, first + second + rest, wanted)
    {
      assert first + second + rest == first + (second + rest);
      assert Scan(st, first + (second + rest)) == Scan(between, second + rest);
      assert Misread(between, second + rest, wanted);
    }
  }

  lemma SpoilsNow(st: Splitter, word: string, grown: string, tail: string, wanted: string)
    requires Reads(st, word, st.(current := grown)) && grown != "" && !(grown <= wanted)
    ensures Spoils(st, word + tail, wanted)
  {
    forall rest: string
      ensures Misread(st, word + tail + rest, wanted)
    {
      assert word + tail + rest == word + (tail + rest);
      assert Scan(st, word + (tail + rest)) == Scan(st.(current := grown), tail + rest);
      WordsStay(st.(current := grown), tail + rest);
    }
  }

  // The held-back backslashes meet a character that the last of them escapes.
  lemma SpoilsAt(st: Splitter, c: char, n: nat, a: string, tail: string)
    requires st.double && !st.single && n > 0 && Escapable(c) && (a != "" ==> a[0] == c)
    requires a == "" ==> c == '"'
    ensures Spoils(st, (if a == "" then Slashes(2 * n) + ['"'] else ResponseStep(c, n)) + tail,
                   st.current + (Slashes(n) + a))
  {
    var k := if a == "" then 2 * n - 1 else if c == '"' then 2 * n else n - 1;
    ReadsSlashesBefore(st, k, c);
    var grown := st.current + (Slashes(k) + [c]);
    NotAPrefix(st.current, k, c, n, a);
    SpoilsNow(st, Slashes(k + 1) + [c], grown, tail, st.current + (Slashes(n) + a));
  }

  lemma NotAPrefix(current: string, k: nat, c: char, n: nat, a: string)
    requires Escapable(c) && n > 0
    requires if a == "" then k == 2 * n - 1 else a[0] == c && (k == n - 1 || k == 2 * n)
    ensures !(current + (Slashes(k) + [c]) <= current + (Slashes(n) + a))
  {
    var grown, wanted := current + (Slashes(k) + [c]), current + (Slashes(n) + a);
    if a == "" {
      assert |grown| > |wanted|;
    } else {
      var at := |current| + if k == n - 1 then n - 1 else n;
      assert grown[at] == if k == n - 1 then c else '\\';
      assert wanted[at] == if k == n - 1 then '\\' else a[0];
    }
  }

  lemma {:induction false} UnsafeSpoils(st: Splitter, a: string, n: nat)
    requires st.double && !st.single && !SafeAfter(a, n > 0)
    ensures Spoils(st, ResponseBody(a, n) + ['"'], st.current + (Slashes(n) + a))
    decreases |a|
  {
    if a == "" {
      SpoilsAt(st, '"', n, a, "");
      assert Slashes(2 * n) + ['"'] + "" == ResponseBody(a, n) + ['"'];
    } else {
      HeldText(a, n);
      if a[0] == '\\' {
        UnsafeSpoils(st, a[1..], n + 1);
      } else {
        ResponseText(a, n);
        var tail := ResponseBody(a[1..], 0) + ['"'];
        if n > 0 && Escapable(a[0]) {
          SpoilsAt(st, a[0], n, a, tail);
        } else {
          var next := Grow(st, Slashes(n) + [a[0]]);
          UnsafeSpoils(next, a[1..], 0);
          ReadsResponseStep(st, a[0], n);
          GrowTwice(st, Slashes(n) + [a[0]], Slashes(0) + a[1..]);
          SpoilsLater(st, ResponseStep(a[0], n), next, tail, st.current + (Slashes(n) + a));
        }
      }
    }
  }

  lemma UnsafeWord(result: seq<string>, a: string)
    requires !Safe(a)
    ensures Spoils(Between(result), ResponseQuoted(a), a)
  {
    var inside := Between(result).(double := true);
    SafeFromLeft(a, false);
    UnsafeSpoils(inside, a, 0);
    assert inside.current + (Slashes(0) + a) == a;
    ReadsOne(Between(result), '"', inside);
    SpoilsLater(Between(result), ['"'], inside, ResponseBody(a, 0) + ['"'], a);
    assert ['"'] + (ResponseBody(a, 0) + ['"']) == ResponseQuoted(a);
  }

  predicate AllSafe(args: seq<string>) {
    forall i :: 0 <= i < |args| ==> Safe(args[i])
  }

  lemma SafeSplit(result: seq<string>, args: seq<string>, separator: char, end: string)
    requires IsSpace(separator) && AllSpace(end) && AllSafe(args)
    ensures Flush(Scan(Between(result), Joined(ResponseWords(args), separator, end))).result == result + NonEmpty(args)
  {
    forall i | 0 <= i < |args|
      ensures Quotes(ResponseWords(args)[i], args[i])
    {
      ResponseReads(args[i]);
    }
    SplitJoined(result, ResponseWords(args), args, separator, end);
  }

  lemma {:induction false} UnsafeSplit(result: seq<string>, args: seq<string>, separator: char, end: string)
    requires IsSpace(separator) && "" !in args && !AllSafe(args)
    ensures Flush(Scan(Between(result), Joined(ResponseWords(args), separator, end))).result != result + args
    decreases |args|
  {
    if Safe(args[0]) {
      SafeFirst(result, args, separator, end);
      UnsafeSplit(result + [args[0]], args[1..], separator, end);
      assert result + args == result + [args[0]] + args[1..];
    } else {
      UnsafeFirst(result, args[0], AfterWord(ResponseWords(args), separator, end));
      assert (result + args)[|result|] == args[0];
    }
  }

  lemma UnsafeFirst(result: seq<string>, a: string, rest: string)
    requires !Safe(a)
    ensures Misread(Between(result), ResponseQuoted(a) + rest, a)
  {
    UnsafeWord(result, a);
  }

  // A safe first argument is split off; what follows is on its own.
  lemma SafeFirst(result: seq<string>, args: seq<string>, separator: char, end: string)
    requires IsSpace(separator) && "" !in args && !AllSafe(args) && Safe(args[0])
    ensures |args| > 1 && "" !in args[1..] && !AllSafe(args[1..])
    ensures Scan(Between(result), Joined(ResponseWords(args), separator, end)) ==
            Scan(Between(result + [args[0]]), Joined(ResponseWords(args[1..]), separator, end))
  {
    var i :| 0 <= i < |args| && !Safe(args[i]);
    assert args[1..][i - 1] == args[i];
    assert args[0] in args;
    ResponseReads(args[0]);
    ScanWord(result, ResponseWords(args), args[0], separator, end);
    assert ResponseWords(args)[1..] == ResponseWords(args[1..]);
  }

  // The splitter never produces an empty word.
  lemma {:induction false} NoEmptyWords(st: Splitter, s: string)
    requires "" !in st.result
    ensures "" !in Flush(Scan(st, s)).result
    decreases |s|
  {
    if s != "" {
      var (next, taken) := Step(st, s);
      NoEmptyWords(next, s[taken..]);
    }
  }

  /** Splitting undoes response quoting exactly when every argument is safe and
      none is empty. */
  lemma SplitUndoesResponse(args: seq<string>, separator: char, end: string)
    requires IsSpace(separator) && AllSpace(end)
    ensures Split(Joined(ResponseWords(args), separator, end)) == args <==> AllSafe(args) && "" !in args
  {
    assert [] + args == args;
    if "" in args {
      NoEmptyWords(Start(), Joined(ResponseWords(args), separator, end));
    } else if AllSafe(args) {
      SafeSplit([], args, separator, end);
      NonEmptyIsAll(args);
    } else {
      UnsafeSplit([], args, separator, end);
    }
  }
}
