/** What the two quoters write, character by character. */
module QuotingLaws {
  import opened Common
  import opened CommandLine

  /** Between single quotes every character stands for itself, except that a single
      quote is written by ending the quotation, escaping it, and going on. */
  lemma ShellExactly(c: char, b: string)
    ensures ShellBody("") == "" && ShellBody([c] + b) == ShellBody([c]) + ShellBody(b)
    ensures ShellBody([c]) == if c == '\'' then ['\'', '\\', '\'', '\''] else [c]
    ensures ShellQuoted(b) == ['\''] + ShellBody(b) + ['\'']
  {
    assert ([c] + b)[1..] == b && [c][1..] == "";
    assert ShellBody([c]) == (if c == '\'' then "'\\''" else [c]) + ShellBody("");
  }

  /* ---------- how a quoted argument of a response file is read ---------- */

  // A backslash counts only in front of a quotation mark, where two stand for one
  // and one more escapes the mark; `held` are those just read. The result is the
  // value and what follows the closing mark.
  function ReadQuoted(s: string, held: nat): Option<(string, string)> {
    if s == "" then None
    else if s[0] == '\\' then ReadQuoted(s[1..], held + 1)
    else if s[0] == '"' then
      if held % 2 == 0 then Some((Slashes(held / 2), s[1..]))
      else Behind(Slashes(held / 2) + ['"'], ReadQuoted(s[1..], 0))
    else Behind(Slashes(held) + [s[0]], ReadQuoted(s[1..], 0))
  }

  function Behind(front: string, r: Option<(string, string)>): Option<(string, string)> {
    if r.None? then None else Some((front + r.value.0, r.value.1))
  }

  lemma {:induction false} ReadSlashes(n: nat, s: string, held: nat)
    ensures ReadQuoted(Slashes(n) + s, held) == ReadQuoted(s, held + n)
    decreases n
  {
    if n == 0 {
      assert Slashes(0) + s == s;
    } else {
      assert Slashes(n) + s == ['\\'] + (Slashes(n - 1) + s);
      ReadSlashes(n - 1, s, held + 1);
    }
  }

  // One character that is no backslash, behind n that are.
  lemma CharacterRead(c: char, n: nat, behind: string)
    requires c != '\\'
    ensures ReadQuoted((Slashes(if c == '"' then 2 * n + 1 else n) + [c]) + behind, 0) ==
            Behind(Slashes(n) + [c], ReadQuoted(behind, 0))
  {
    var k := if c == '"' then 2 * n + 1 else n;
    ReadSlashes(k, [c] + behind, 0);
    Regroup(Slashes(k), [c], behind);
    assert ([c] + behind)[1..] == behind;
  }

  lemma EndRead(n: nat, rest: string)
    ensures ReadQuoted(Slashes(2 * n) + (['"'] + rest), 0) == Some((Slashes(n), rest))
  {
    ReadSlashes(2 * n, ['"'] + rest, 0);
    assert (['"'] + rest)[1..] == rest;
  }

  lemma {:induction false} BodyRead(a: string, n: nat, rest: string)
    ensures ReadQuoted(ResponseBody(a, n) + (['"'] + rest), 0) == Some((Slashes(n) + a, rest))
    decreases |a|
  {
    if a == "" {
      EndRead(n, rest);
      assert Slashes(n) + a == Slashes(n);
    } else if a[0] == '\\' {
      BodyRead(a[1..], n + 1, rest);
      assert Slashes(n + 1) + a[1..] == Slashes(n) + a;
    } else {
      var k := if a[0] == '"' then 2 * n + 1 else n;
      BodyRead(a[1..], 0, rest);
      CharacterRead(a[0], n, ResponseBody(a[1..], 0) + (['"'] + rest));
      Regroup(Slashes(k) + [a[0]], ResponseBody(a[1..], 0), ['"'] + rest);
      assert Slashes(n) + [a[0]] + (Slashes(0) + a[1..]) == Slashes(n) + a;
    }
  }

  /** Every argument, whatever it contains, is read back from its quoted form. */
  lemma ResponseReadsBack(a: string, rest: string)
    ensures ResponseQuoted(a) + rest != "" && (ResponseQuoted(a) + rest)[0] == '"'
    ensures ReadQuoted((ResponseQuoted(a) + rest)[1..], 0) == Some((a, rest))
  {
    BodyRead(a, 0, rest);
    assert (ResponseQuoted(a) + rest)[1..] == ResponseBody(a, 0) + (['"'] + rest);
    assert Slashes(0) + a == a;
  }
}
