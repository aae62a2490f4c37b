/** Bracket depth by counting, and what an annotation says. */
module RangeLaws {
  import opened Common
  import opened Tokenizer
  import opened TokenRanges

  // Where a text stands in tokens[i..j].
  function Standing(tokens: seq<Token>, text: string, i: nat, j: nat): set<nat>
    requires i <= j <= |tokens|
  {
    set k | i <= k < j && tokens[k].text == text
  }

  lemma OneMore(tokens: seq<Token>, text: string, i: nat, j: nat)
    requires i <= j < |tokens|
    ensures |Standing(tokens, text, i, j + 1)| ==
            |Standing(tokens, text, i, j)| + if tokens[j].text == text then 1 else 0
  {
    assert Standing(tokens, text, i, j + 1) ==
           Standing(tokens, text, i, j) + if tokens[j].text == text then {j} else {};
  }

  /** The depth is how many opening tokens there are more than closing ones. */
  lemma {:induction false} DepthCounts(tokens: seq<Token>, open: string, close: string, i: nat, j: nat)
    requires i <= j <= |tokens| && open != close
    ensures Depth(tokens, open, close, i, j) == |Standing(tokens, open, i, j)| - |Standing(tokens, close, i, j)|
    decreases j - i
  {
    if i < j {
      DepthCounts(tokens, open, close, i, j - 1);
      OneMore(tokens, open, i, j - 1);
      OneMore(tokens, close, i, j - 1);
    }
  }

  /** The depth of a template list, as long as it stays open: a shift-right token
      closes two; closing more than there are leaves none. */
  lemma {:induction false} AngleCounts(tokens: seq<Token>, i: nat, j: nat)
    requires i <= j <= |tokens| && forall k :: i < k < j ==> AngleDepth(tokens, i, k) > 0
    requires i < j ==> tokens[i].text == "<"
    ensures var n := |Standing(tokens, "<", i, j)| - |Standing(tokens, ">", i, j)| - 2 * |Standing(tokens, ">>", i, j)|;
      AngleDepth(tokens, i, j) == if n > 0 then n else 0
    decreases j - i
  {
    if i < j {
      AngleCounts(tokens, i, j - 1);
      OneMore(tokens, "<", i, j - 1);
      OneMore(tokens, ">", i, j - 1);
      OneMore(tokens, ">>", i, j - 1);
      if i == j - 1 {
        assert AngleDepth(tokens, i, i) == 0;
      }
    }
  }

  /* ---------- annotations ---------- */

  lemma {:induction false} LowerExactly(s: string)
    ensures |Lower(s)| == |s|
    ensures forall k :: 0 <= k < |s| ==>
      Lower(s)[k] as int == s[k] as int + if 65 <= s[k] as int <= 90 then 32 else 0
  {
    if s != "" {
      LowerExactly(s[1..]);
    }
  }

  /** An annotation that is recognised is `[[ngin::kind]]` or `[[ngin::kind(...)]]`;
      it says its kind in lower case, and what the first string between the
      parentheses says. */
  lemma AnnotationSays(tokens: seq<Token>, index: nat, limit: nat, payload: string -> Payload)
    requires limit <= |tokens| && AnnotationAt(tokens, index, limit, payload).Some?
    ensures var AnnotationParse(a, next) := AnnotationAt(tokens, index, limit, payload).value;
      && index + 4 < next <= limit
      && tokens[index].text == "[[" && tokens[index + 1].text == "ngin" && tokens[index + 2].text == "::"
      && tokens[index + 3].identifier && tokens[next - 1].text == "]]"
      && a.kind == Lower(tokens[index + 3].text) && a.begin == tokens[index].source
      && var said := tokens[index + 4].text == "(" && index + 6 < next - 1 && tokens[index + 5].stringLiteral;
      && a.options == (if said then payload(tokens[index + 5].decoded).options else map[])
      && a.attributes == if said then payload(tokens[index + 5].decoded).attributes else map[]
  {
  }

  /** The annotations of a sequence stand one behind the other, and behind the last there is none. */
  lemma {:induction false} SequenceAre(tokens: seq<Token>, start: nat, limit: nat, payload: string -> Payload)
      returns (at: seq<nat>)
    requires start <= limit <= |tokens|
    ensures var (annotations, end) := AnnotationsFrom(tokens, start, limit, payload);
      && |at| == |annotations| + 1 && at[0] == start && at[|annotations|] == end
      && AnnotationAt(tokens, end, limit, payload).None?
      && forall k :: 0 <= k < |annotations| ==>
           AnnotationAt(tokens, at[k], limit, payload) == Some(AnnotationParse(annotations[k], at[k + 1]))
    decreases limit - start
  {
    var parsed := AnnotationAt(tokens, start, limit, payload);
    if parsed.None? {
      at := [start];
    } else {
      var rest := SequenceAre(tokens, parsed.value.next, limit, payload);
      at := [start] + rest;
    }
  }

  /** The first annotation of a kind is the one that counts. */
  lemma {:induction false} FindsFirst(annotations: seq<Annotation>, kind: string, k: nat)
    requires k < |annotations| && annotations[k].kind == kind && forall j :: 0 <= j < k ==> annotations[j].kind != kind
    ensures FindAnnotation(annotations, kind) == Some(annotations[k])
  {
    if k > 0 {
      FindsFirst(annotations[1..], kind, k - 1);
    }
  }

  /** An option that is not given, or is empty, has its fallback; one that is given
      is on unless it says false, 0 or off, in any case. */
  lemma OptionsExactly(a: Annotation, key: string, fallback: string)
    ensures OptionOr(a, key, fallback) == fallback || (key in a.options && OptionOr(a, key, fallback) == a.options[key])
    ensures OptionOr(a, key, fallback) == fallback <==>
            key !in a.options || a.options[key] == "" || a.options[key] == fallback
    ensures !OptionEnabled(a, key) <==>
            key !in a.options || Lower(a.options[key]) == "false" || Lower(a.options[key]) == "0" ||
            Lower(a.options[key]) == "off"
  {
  }
}
