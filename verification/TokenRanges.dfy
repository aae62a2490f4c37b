/**
 The bracket- and annotation-matching helpers of the MetaGen scanner, on
 arbitrary token streams, balanced or not.
 */
module TokenRanges {
  import opened Common
  import opened Tokenizer

  /* ---------- matching brackets ---------- */

  // Opening minus closing tokens in tokens[i..j].
  function Depth(tokens: seq<Token>, open: string, close: string, i: nat, j: nat): int
    requires i <= j <= |tokens|
    decreases j - i
  {
    if i == j then 0
    else Depth(tokens, open, close, i, j - 1)
         + (if tokens[j - 1].text == open then 1 else if tokens[j - 1].text == close then -1 else 0)
  }

  // Every prefix of the range from `from` up to `to` has something left open.
  ghost predicate StaysOpen(tokens: seq<Token>, open: string, close: string, from: nat, to: nat)
    requires to <= |tokens|
  {
    forall k :: from < k <= to ==> Depth(tokens, open, close, from, k) > 0
  }

  // r closes the bracket at `from`; limit stands for "nothing does".
  ghost predicate Closes(tokens: seq<Token>, open: string, close: string, from: nat, limit: nat, r: nat)
    requires from < limit <= |tokens|
  {
    && from < r <= limit && StaysOpen(tokens, open, close, from, r)
    && (r < limit ==> tokens[r].text == close && Depth(tokens, open, close, from, r + 1) == 0)
  }

  method FindMatching(tokens: seq<Token>, open: nat, openToken: string, closeToken: string, limit: nat)
      returns (r: nat)
    requires open < limit <= |tokens| && tokens[open].text == openToken && openToken != closeToken
    ensures Closes(tokens, openToken, closeToken, open, limit, r)
    ensures r == Matching(tokens, openToken, closeToken, open, limit)
  {
    var depth: nat := 0;
    for index := open to limit
      invariant depth == Depth(tokens, openToken, closeToken, open, index)
      invariant StaysOpen(tokens, openToken, closeToken, open, index)
    {
      if tokens[index].text == openToken {
        depth := depth + 1;
      } else if tokens[index].text == closeToken {
        depth := depth - 1;
        if depth == 0 {
          MatchingIs(tokens, openToken, closeToken, open, limit, index);
          return index;
        }
      }
    }
    MatchingIs(tokens, openToken, closeToken, open, limit, limit);
    return limit;
  }

  /** The matching position is unique, and it is `limit` exactly when no token
      brings the depth back to zero. */
  lemma ClosingUnique(tokens: seq<Token>, open: string, close: string, from: nat, limit: nat, r: nat, q: nat)
    requires from < limit <= |tokens|
    requires Closes(tokens, open, close, from, limit, r)
    requires Closes(tokens, open, close, from, limit, q)
    ensures r == q
    ensures r == limit <==> StaysOpen(tokens, open, close, from, limit)
  {
    if r < limit {
      assert Depth(tokens, open, close, from, r + 1) == 0;
    }
  }

  lemma {:induction false} ClosingExists(tokens: seq<Token>, open: string, close: string, from: nat, limit: nat, k: nat)
    requires from < k <= limit <= |tokens| && StaysOpen(tokens, open, close, from, k)
    ensures exists r: nat :: Closes(tokens, open, close, from, limit, r)
    decreases limit - k
  {
    if k == limit {
      assert Closes(tokens, open, close, from, limit, k);
    } else if tokens[k].text != open && tokens[k].text == close && Depth(tokens, open, close, from, k) == 1 {
      assert Closes(tokens, open, close, from, limit, k);
    } else {
      assert Depth(tokens, open, close, from, k + 1) > 0;
      ClosingExists(tokens, open, close, from, limit, k + 1);
    }
  }

  // The position FindMatching returns.
  ghost function Matching(tokens: seq<Token>, open: string, close: string, from: nat, limit: nat): (r: nat)
    requires from < limit <= |tokens| && tokens[from].text == open
    ensures Closes(tokens, open, close, from, limit, r)
  {
    assert Depth(tokens, open, close, from, from + 1) == 1;
    ClosingExists(tokens, open, close, from, limit, from + 1);
    var r: nat :| Closes(tokens, open, close, from, limit, r);
    r
  }

  lemma MatchingIs(tokens: seq<Token>, open: string, close: string, from: nat, limit: nat, r: nat)
    requires from < limit <= |tokens| && tokens[from].text == open && Closes(tokens, open, close, from, limit, r)
    ensures r == Matching(tokens, open, close, from, limit)
  {
    ClosingUnique(tokens, open, close, from, limit, r, Matching(tokens, open, close, from, limit));
  }

  // The depth of template brackets, where `>>` closes two and stops at zero.
  function AngleDepth(tokens: seq<Token>, i: nat, j: nat): nat
    requires i <= j <= |tokens|
    decreases j - i
  {
    if i == j then 0
    else
      var d := AngleDepth(tokens, i, j - 1);
      var text := tokens[j - 1].text;
      if text == "<" then d + 1
      else if text == ">" then (if d > 0 then d - 1 else 0)
      else if text == ">>" then (if d > 2 then d - 2 else 0)
      else d
  }

  // The first position at or after k where the template list opened at `from` is closed.
  ghost function TemplateEnd(tokens: seq<Token>, from: nat, k: nat, end: nat): (r: nat)
    requires from <= k <= end <= |tokens|
    ensures k <= r <= end
    decreases end - k
  {
    if k == end || AngleDepth(tokens, from, k + 1) == 0 then k else TemplateEnd(tokens, from, k + 1, end)
  }

  // The end of the template parameter list that opens at `from`.
  method FindTemplateEnd(tokens: seq<Token>, from: nat, end: nat) returns (close: nat)
    requires from < end <= |tokens| && tokens[from].text == "<"
    ensures from < close <= end
    ensures forall k :: from < k <= close ==> AngleDepth(tokens, from, k) > 0
    ensures close < end ==> AngleDepth(tokens, from, close + 1) == 0
    ensures close == TemplateEnd(tokens, from, from, end)
  {
    var depth: nat := 0;
    close := from;
    while close < end
      invariant from <= close <= end
      invariant depth == AngleDepth(tokens, from, close)
      invariant TemplateEnd(tokens, from, close, end) == TemplateEnd(tokens, from, from, end)
      invariant forall k :: from < k <= close ==> AngleDepth(tokens, from, k) > 0
    {
      if tokens[close].text == "<" {
        depth := depth + 1;
      } else if tokens[close].text == ">" {
        depth := depth - 1;
        if depth == 0 {
          return;
        }
      } else if tokens[close].text == ">>" && depth > 0 {
        depth := if depth > 2 then depth - 2 else 0;
        if depth == 0 {
          return;
        }
      }
      close := close + 1;
    }
  }

  /* ---------- annotations ---------- */

  type Options = map<string, string>

  // What the text between an annotation's parentheses says.
  datatype Payload = Payload(options: Options, attributes: map<string, string>)

  datatype Annotation = Annotation(
    kind: string,
    options: Options,
    attributes: map<string, string>,
    begin: SourceLocation)

  datatype AnnotationParse = AnnotationParse(annotation: Annotation, next: nat)

  function LowerChar(c: char): char {
    if 'A' <= c <= 'Z' then ((c as int) + 32) as char else c
  }

  function Lower(s: string): string {
    if s == "" then "" else [LowerChar(s[0])] + Lower(s[1..])
  }

  // `[[ngin::kind` with room for a closing token.
  predicate StartsAnnotation(tokens: seq<Token>, index: nat, limit: nat)
    requires limit <= |tokens|
  {
    && index + 4 < limit && tokens[index].text == "[[" && tokens[index + 1].text == "ngin"
    && tokens[index + 2].text == "::" && tokens[index + 3].identifier
  }

  // An annotation occupies tokens[index..next].
  ghost predicate AnnotationSpan(tokens: seq<Token>, index: nat, limit: nat, next: nat)
    requires limit <= |tokens|
  {
    && StartsAnnotation(tokens, index, limit) && index + 4 < next <= limit && tokens[next - 1].text == "]]"
    && (if tokens[index + 4].text == "(" then
          index + 4 < next - 2 && Closes(tokens, "(", ")", index + 4, limit, next - 2)
        else next == index + 5)
  }

  // The annotation that starts at a position, if one does.
  ghost function AnnotationAt(tokens: seq<Token>, index: nat, limit: nat, payload: string -> Payload)
      : (r: Option<AnnotationParse>)
    requires limit <= |tokens|
    ensures r.Some? ==> index + 4 < r.value.next <= limit
  {
    if !StartsAnnotation(tokens, index, limit) then None
    else
      var plain := Annotation(Lower(tokens[index + 3].text), map[], map[], tokens[index].source);
      if tokens[index + 4].text == "(" then
        var close := Matching(tokens, "(", ")", index + 4, limit);
        if close + 1 < limit && tokens[close + 1].text == "]]" then
          Some(AnnotationParse(
            if index + 5 < close && tokens[index + 5].stringLiteral then
              var p := payload(tokens[index + 5].decoded); plain.(options := p.options, attributes := p.attributes)
            else plain, close + 2))
        else None
      else if tokens[index + 4].text == "]]" then Some(AnnotationParse(plain, index + 5))
      else None
  }

  /** An annotation is recognised exactly where its tokens stand. */
  lemma AnnotationExactly(tokens: seq<Token>, index: nat, limit: nat, payload: string -> Payload, next: nat)
    requires limit <= |tokens|
    ensures AnnotationSpan(tokens, index, limit, next) <==>
            AnnotationAt(tokens, index, limit, payload).Some? &&
            AnnotationAt(tokens, index, limit, payload).value.next == next
  {
    if AnnotationSpan(tokens, index, limit, next) && tokens[index + 4].text == "(" {
      MatchingIs(tokens, "(", ")", index + 4, limit, next - 2);
    }
  }

  method ParseAnnotationAt(tokens: seq<Token>, index: nat, limit: nat, payload: string -> Payload)
      returns (r: Option<AnnotationParse>)
    requires limit <= |tokens|
    ensures r == AnnotationAt(tokens, index, limit, payload)
  {
    if !StartsAnnotation(tokens, index, limit) {
      return None;
    }
    var annotation := Annotation(Lower(tokens[index + 3].text), map[], map[], tokens[index].source);
    var cursor := index + 4;
    if tokens[cursor].text == "(" {
      var close := FindMatching(tokens, cursor, "(", ")", limit);
      if close == limit {
        return None;
      }
      if cursor + 1 < close && tokens[cursor + 1].stringLiteral {
        var p := payload(tokens[cursor + 1].decoded);
        annotation := annotation.(options := p.options, attributes := p.attributes);
      }
      cursor := close + 1;
    }
    if cursor >= limit || tokens[cursor].text != "]]" {
      return None;
    }
    return Some(AnnotationParse(annotation, cursor + 1));
  }

  // The annotations that stand one after another from a position on, and where they end.
  ghost function AnnotationsFrom(tokens: seq<Token>, start: nat, limit: nat, payload: string -> Payload)
      : (r: (seq<Annotation>, nat))
    requires start <= limit <= |tokens|
    ensures start <= r.1 <= limit
    decreases limit - start
  {
    var parsed := AnnotationAt(tokens, start, limit, payload);
    if parsed.None? then ([], start)
    else
      var (rest, end) := AnnotationsFrom(tokens, parsed.value.next, limit, payload);
      ([parsed.value.annotation] + rest, end)
  }

  method AnnotationSequenceAt(tokens: seq<Token>, start: nat, limit: nat, payload: string -> Payload)
      returns (annotations: seq<Annotation>, cursor: nat)
    requires start <= limit <= |tokens|
    ensures (annotations, cursor) == AnnotationsFrom(tokens, start, limit, payload)
  {
    annotations, cursor := [], start;
    ghost var all := AnnotationsFrom(tokens, start, limit, payload);
    while cursor < limit
      invariant start <= cursor <= limit
      invariant annotations + AnnotationsFrom(tokens, cursor, limit, payload).0 == all.0
      invariant AnnotationsFrom(tokens, cursor, limit, payload).1 == all.1
    {
      var parsed := ParseAnnotationAt(tokens, cursor, limit, payload);
      if parsed.None? {
        assert annotations + [] == annotations;
        return;
      }
      annotations := annotations + [parsed.value.annotation];
      cursor := parsed.value.next;
    }
    assert annotations + [] == annotations;
  }

  function FindAnnotation(annotations: seq<Annotation>, kind: string): (r: Option<Annotation>)
    ensures r.Some? ==> r.value in annotations && r.value.kind == kind
    ensures r.None? ==> forall a :: a in annotations ==> a.kind != kind
  {
    if annotations == [] then None
    else if annotations[0].kind == kind then Some(annotations[0])
    else FindAnnotation(annotations[1..], kind)
  }

  function OptionOr(a: Annotation, key: string, fallback: string): string {
    if key !in a.options || a.options[key] == "" then fallback else a.options[key]
  }

  predicate OptionEnabled(a: Annotation, key: string) {
    key in a.options && Lower(a.options[key]) !in {"false", "0", "off"}
  }
}
