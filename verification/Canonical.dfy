/**
 The canonical JSON writer of the CLI, and a reader that undoes it. A byte of
 a std::string is a char whose code is below 256.
 */
module Canonical {
  import opened Common
  import opened CharacterClasses
  import Decimal

  type int64 = i: int | -0x8000_0000_0000_0000 <= i < 0x8000_0000_0000_0000

  datatype Entry = Entry(key: string, value: CanonicalValue)

  // An Object is its map's entries in iteration order, that is sorted by key.
  datatype CanonicalValue =
    | Null
    | Boolean(b: bool)
    | Integer(i: int64)
    | Text(s: string)
    | Array(items: seq<CanonicalValue>)
    | Object(entries: seq<Entry>)

  /* ---------- what the writer writes ---------- */

  function HexDigit(n: nat): (c: char)
    requires n < 16
  {
    "0123456789abcdef"[n]
  }

  function EscapedChar(c: char): string {
    match c
    case '"' => "\\\""
    case '\\' => "\\\\"
    case '\U{0008}' => "\\b"
    case '\U{000C}' => "\\f"
    case '\n' => "\\n"
    case '\r' => "\\r"
    case '\t' => "\\t"
    case _ =>
      if c as int < 0x20 then "\\u00" + [HexDigit(c as int / 16), HexDigit(c as int % 16)]
      else [c]
  }

  function Escaped(s: string): string {
    if s == "" then "" else EscapedChar(s[0]) + Escaped(s[1..])
  }

  function Quoted(s: string): string {
    "\"" + Escaped(s) + "\""
  }

  function SerializeCanonical(v: CanonicalValue): string {
    match v
    case Null => "null"
    case Boolean(b) => if b then "true" else "false"
    case Integer(i) => Decimal.PrintInt(i)
    case Text(s) => Quoted(s)
    case Array(items) => "[" + ItemsText(items, true) + "]"
    case Object(entries) => "{" + EntriesText(entries, true) + "}"
  }

  function ItemsText(items: seq<CanonicalValue>, first: bool): string {
    if items == [] then ""
    else (if first then "" else ",") + SerializeCanonical(items[0]) + ItemsText(items[1..], false)
  }

  function EntriesText(entries: seq<Entry>, first: bool): string {
    if entries == [] then ""
    else (if first then "" else ",") + Quoted(entries[0].key) + ":"
         + SerializeCanonical(entries[0].value) + EntriesText(entries[1..], false)
  }

  function CanonicalDigestInput(kind: string, fields: seq<Entry>): string {
    SerializeCanonical(Object([Entry("kind", Text(kind)), Entry("value", Object(fields))]))
  }

  /* ---------- the writer's loops ---------- */

  method WriteEscaped(out: string, value: string) returns (r: string)
    ensures r == out + Quoted(value)
  {
    r := out + "\"";
    assert value[0..] == value;
    for i := 0 to |value|
      invariant r + Escaped(value[i..]) == out + "\"" + Escaped(value)
    {
      assert value[i..][1..] == value[i + 1..];
      Regroup(r, EscapedChar(value[i]), Escaped(value[i + 1..]));
      r := r + EscapedChar(value[i]);
    }
    assert r == out + "\"" + Escaped(value);
    r := r + "\"";
  }

  method WriteValue(out: string, value: CanonicalValue) returns (r: string)
    ensures r == out + SerializeCanonical(value)
    decreases value
  {
    match value {
      case Null => r := out + "null";
      case Boolean(b) => r := out + (if b then "true" else "false");
      case Integer(i) => r := out + Decimal.PrintInt(i);
      case Text(s) => r := WriteEscaped(out, s);
      case Array(items) =>
        r := out + "[";
        assert items[0..] == items;
        for index := 0 to |items|
          invariant r + ItemsText(items[index..], index == 0) == out + "[" + ItemsText(items, true)
        {
          ItemsStep(r, items, index);
          if index != 0 {
            r := r + ",";
          }
          r := WriteValue(r, items[index]);
        }
        Bracketed(out, "[", ItemsText(items, true), "]");
        assert items[|items|..] == [];
        r := r + "]";
      case Object(entries) =>
        r := out + "{";
        assert entries[0..] == entries;
        for index := 0 to |entries|
          invariant r + EntriesText(entries[index..], index == 0) == out + "{" + EntriesText(entries, true)
        {
          EntriesStep(r, entries, index);
          if index != 0 {
            r := r + ",";
          }
          r := WriteEscaped(r, entries[index].key);
          r := r + ":";
          r := WriteValue(r, entries[index].value);
        }
        Bracketed(out, "{", EntriesText(entries, true), "}");
        assert entries[|entries|..] == [];
        r := r + "}";
    }
  }

  lemma Bracketed(out: string, open: string, body: string, close: string)
    ensures out + open + body + close == out + (open + body + close)
  {
  }

  // One round of the loop over an array, with its separator.
  lemma ItemsStep(r: string, items: seq<CanonicalValue>, i: nat)
    requires i < |items|
    ensures var s := if i == 0 then r else r + ",";
      r + ItemsText(items[i..], i == 0) == s + SerializeCanonical(items[i]) + ItemsText(items[i + 1..], false)
  {
    assert items[i..][1..] == items[i + 1..];
  }

  lemma EntriesStep(r: string, entries: seq<Entry>, i: nat)
    requires i < |entries|
    ensures var s := if i == 0 then r else r + ",";
      r + EntriesText(entries[i..], i == 0) ==
        s + Quoted(entries[i].key) + ":" + SerializeCanonical(entries[i].value) + EntriesText(entries[i + 1..], false)
  {
    assert entries[i..][1..] == entries[i + 1..];
  }

  /* ---------- which text is the canonical one ---------- */

  // The value of a lower-case hexadecimal digit.
  predicate IsHexDigit(c: char, n: nat) {
    n < 16 && c == "0123456789abcdef"[n]
  }

  // What one character of a string becomes (section 7 of RFC 8259 allows others).
  predicate CanonicalPiece(c: char, piece: string) {
    if c == '"' || c == '\\' then piece == ['\\', c]
    else if c as int == 0x08 then piece == "\\b"
    else if c as int == 0x09 then piece == "\\t"
    else if c as int == 0x0A then piece == "\\n"
    else if c as int == 0x0C then piece == "\\f"
    else if c as int == 0x0D then piece == "\\r"
    else if c as int >= 0x20 then piece == [c]
    else
      && |piece| == 6 && piece[..4] == "\\u00"
      && IsHexDigit(piece[4], c as int / 16) && IsHexDigit(piece[5], c as int % 16)
  }

  // The pieces of all characters, one after the other.
  ghost predicate CanonicalBody(s: string, body: string) {
    if s == "" then body == ""
    else exists k: nat :: k <= |body| && CanonicalPiece(s[0], body[..k]) && CanonicalBody(s[1..], body[k..])
  }

  /** A string is written as its canonical body, and no other text is canonical. */
  lemma EscapedExactly(s: string, body: string)
    ensures body == Escaped(s) <==> CanonicalBody(s, body)
  {
    EscapedIsCanonical(s);
    if CanonicalBody(s, body) {
      OnlyCanonical(s, body);
    }
  }

  lemma {:induction false} EscapedIsCanonical(s: string)
    ensures CanonicalBody(s, Escaped(s))
  {
    if s != "" {
      var piece, rest := EscapedChar(s[0]), Escaped(s[1..]);
      EscapedIsCanonical(s[1..]);
      PieceExactly(s[0], piece);
      assert (piece + rest)[..|piece|] == piece && (piece + rest)[|piece|..] == rest;
    }
  }

  lemma {:induction false} OnlyCanonical(s: string, body: string)
    requires CanonicalBody(s, body)
    ensures body == Escaped(s)
  {
    if s != "" {
      var k: nat :| k <= |body| && CanonicalPiece(s[0], body[..k]) && CanonicalBody(s[1..], body[k..]);
      PieceExactly(s[0], body[..k]);
      OnlyCanonical(s[1..], body[k..]);
      assert body == body[..k] + body[k..];
    }
  }

  lemma PieceExactly(c: char, piece: string)
    ensures CanonicalPiece(c, piece) <==> piece == EscapedChar(c)
  {
    if c as int < 0x20 && |piece| == 6 && piece[..4] == "\\u00" {
      assert piece == "\\u00" + [piece[4], piece[5]];
    }
  }

  /* ---------- a reader ---------- */

  // A reader returns what it read and the characters left over.
  type Reading<T> = Option<(T, string)>

  function HexValue(c: char): Option<nat> {
    if '0' <= c <= '9' then Some(c as int - '0' as int)
    else if 'a' <= c <= 'f' then Some(c as int - 'a' as int + 10)
    else if 'A' <= c <= 'F' then Some(c as int - 'A' as int + 10)
    else None
  }

  // A string body up to its closing quotation mark (section 7 of RFC 8259);
  // of the \u escapes only those for one-byte characters are read.
  function ReadString(s: string): (r: Reading<string>)
    ensures r.Some? ==> |r.value.1| < |s|
  {
    if s == "" then None
    else if s[0] == '"' then Some(("", s[1..]))
    else if s[0] == '\\' then
      (match ReadEscape(s[1..])
       case None => None
       case Some((c, rest)) => Prepend(c, ReadString(rest)))
    else if s[0] as int < 0x20 then None
    else Prepend(s[0], ReadString(s[1..]))
  }

  function Prepend(c: char, r: Reading<string>): Reading<string> {
    match r
    case None => None
    case Some((s, rest)) => Some(([c] + s, rest))
  }

  function ReadEscape(s: string): (r: Reading<char>)
    ensures r.Some? ==> |r.value.1| < |s|
  {
    if s == "" then None
    else match s[0]
      case '"' => Some(('"', s[1..]))
      case '\\' => Some(('\\', s[1..]))
      case '/' => Some(('/', s[1..]))
      case 'b' => Some(('\U{0008}', s[1..]))
      case 'f' => Some(('\U{000C}', s[1..]))
      case 'n' => Some(('\n', s[1..]))
      case 'r' => Some(('\r', s[1..]))
      case 't' => Some(('\t', s[1..]))
      case 'u' =>
        if |s| >= 5 && s[1] == '0' && s[2] == '0' && HexValue(s[3]).Some? && HexValue(s[4]).Some? &&
           HexValue(s[3]).value < 8
        then Some(((16 * HexValue(s[3]).value + HexValue(s[4]).value) as char, s[5..]))
        else None
      case _ => None
  }

  function ReadInteger(s: string): (r: Reading<CanonicalValue>)
    ensures r.Some? ==> |r.value.1| < |s|
  {
    var negative := s != "" && s[0] == '-';
    var digits := if negative then s[1..] else s;
    var n := Decimal.DigitCount(digits);
    if n == 0 then None
    else
      var magnitude := Decimal.Value(digits[..n]);
      var i := if negative then -(magnitude as int) else magnitude;
      if -0x8000_0000_0000_0000 <= i < 0x8000_0000_0000_0000
      then Some((Integer(i), digits[n..]))
      else None
  }

  function Literal(s: string, word: string, v: CanonicalValue): (r: Reading<CanonicalValue>)
    requires word != ""
    ensures r.Some? ==> |r.value.1| < |s|
  {
    if word <= s then Some((v, s[|word|..])) else None
  }

  function ReadValue(s: string): (r: Reading<CanonicalValue>)
    ensures r.Some? ==> |r.value.1| < |s|
    decreases |s|, 0
  {
    if s == "" then None
    else match s[0]
      case 'n' => Literal(s, "null", Null)
      case 't' => Literal(s, "true", Boolean(true))
      case 'f' => Literal(s, "false", Boolean(false))
      case '"' =>
        (match ReadString(s[1..])
         case None => None
         case Some((text, rest)) => Some((Text(text), rest)))
      case '[' =>
        if |s| > 1 && s[1] == ']' then Some((Array([]), s[2..]))
        else
          (match ReadItems(s[1..])
           case None => None
           case Some((items, rest)) => Some((Array(items), rest)))
      case '{' =>
        if |s| > 1 && s[1] == '}' then Some((Object([]), s[2..]))
        else
          (match ReadEntries(s[1..])
           case None => None
           case Some((entries, rest)) => Some((Object(entries), rest)))
      case _ => ReadInteger(s)
  }

  function ReadItems(s: string): (r: Reading<seq<CanonicalValue>>)
    ensures r.Some? ==> |r.value.1| < |s|
    decreases |s|, 1
  {
    match ReadValue(s)
    case None => None
    case Some((item, rest)) =>
      if rest == "" then None
      else if rest[0] == ']' then Some(([item], rest[1..]))
      else if rest[0] != ',' then None
      else
        match ReadItems(rest[1..])
        case None => None
        case Some((items, rest')) => Some(([item] + items, rest'))
  }

  function ReadEntries(s: string): (r: Reading<seq<Entry>>)
    ensures r.Some? ==> |r.value.1| < |s|
    decreases |s|, 1
  {
    if s == "" || s[0] != '"' then None
    else
      match ReadString(s[1..])
      case None => None
      case Some((key, colon)) =>
        if colon == "" || colon[0] != ':' then None
        else
          match ReadValue(colon[1..])
          case None => None
          case Some((value, rest)) =>
            if rest == "" then None
            else if rest[0] == '}' then Some(([Entry(key, value)], rest[1..]))
            else if rest[0] != ',' then None
            else
              match ReadEntries(rest[1..])
              case None => None
              case Some((entries, rest')) => Some(([Entry(key, value)] + entries, rest'))
  }

  /* ---------- reading undoes writing ---------- */

  lemma {:induction false} ReadStringUndoesEscaped(s: string, rest: string)
    ensures ReadString(Escaped(s) + "\"" + rest) == Some((s, rest))
  {
    if s == "" {
      assert Escaped(s) + "\"" + rest == "\"" + rest;
      assert ("\"" + rest)[1..] == rest;
    } else {
      var tail := Escaped(s[1..]) + "\"" + rest;
      assert Escaped(s) + "\"" + rest == EscapedChar(s[0]) + tail;
      ReadStringUndoesEscaped(s[1..], rest);
      OneEscapedChar(s[0], tail);
      assert [s[0]] + s[1..] == s;
    }
  }

  lemma OneEscapedChar(c: char, tail: string)
    ensures ReadString(EscapedChar(c) + tail) == Prepend(c, ReadString(tail))
  {
    var e := EscapedChar(c);
    if |e| == 1 {
      assert (e + tail)[1..] == tail;
    } else {
      var u := e[1..] + tail;
      assert (e + tail)[0] == '\\' && (e + tail)[1..] == u;
      if |e| == 2 {
        ShortEscape(c, u, tail);
      } else {
        ControlEscape(c, u, tail);
      }
    }
  }

  // A two-character escape, after its backslash.
  lemma ShortEscape(c: char, u: string, tail: string)
    requires |EscapedChar(c)| == 2 && u == EscapedChar(c)[1..] + tail
    ensures ReadEscape(u) == Some((c, tail))
  {
    assert u[0] == EscapedChar(c)[1] && u[1..] == tail;
  }

  // A six-character escape, after its backslash.
  lemma ControlEscape(c: char, u: string, tail: string)
    requires |EscapedChar(c)| == 6 && u == EscapedChar(c)[1..] + tail
    ensures ReadEscape(u) == Some((c, tail))
  {
    var e := EscapedChar(c);
    assert u[..5] == e[1..] && u[5..] == tail;
    assert u[0] == e[1] && u[1] == e[2] && u[2] == e[3] && u[3] == e[4] && u[4] == e[5];
    HexRoundTrip(c as int / 16);
    HexRoundTrip(c as int % 16);
  }

  lemma HexRoundTrip(n: nat)
    requires n < 16
    ensures HexValue(HexDigit(n)) == Some(n)
  {
  }

  // What may follow a value in a document: nothing that continues a number.
  predicate Delimited(rest: string) {
    rest != "" ==> !IsDigit(rest[0])
  }

  lemma ReadIntegerUndoesPrint(i: int64, rest: string)
    requires Delimited(rest)
    ensures ReadValue(Decimal.PrintInt(i) + rest) == Some((Integer(i), rest))
  {
    var magnitude: nat := if i < 0 then -(i as int) else i;
    var digits := Decimal.Print(magnitude);
    var s := Decimal.PrintInt(i) + rest;
    Decimal.PrintIsNumeral(magnitude);
    PrefixOfDigits(digits, rest);
    SignedText(i, digits, rest);
    ReadMagnitude(s, i < 0, digits, rest);
    NumbersAreIntegers(s);
  }

  lemma SignedText(i: int64, digits: string, rest: string)
    requires digits == Decimal.Print(if i < 0 then -(i as int) else i as int)
    ensures Decimal.PrintInt(i) + rest == if i < 0 then ['-'] + (digits + rest) else digits + rest
  {
  }

  lemma NumbersAreIntegers(s: string)
    requires s != "" && (s[0] == '-' || IsDigit(s[0]))
    ensures ReadValue(s) == ReadInteger(s)
  {
  }

  lemma PrefixOfDigits(digits: string, rest: string)
    requires Decimal.AllDigits(digits) && Delimited(rest)
    ensures Decimal.DigitCount(digits + rest) == |digits|
    ensures (digits + rest)[..|digits|] == digits && (digits + rest)[|digits|..] == rest
  {
    Decimal.DigitCountOf(digits, rest);
  }

  lemma ReadMagnitude(s: string, negative: bool, digits: string, rest: string)
    requires s == if negative then ['-'] + (digits + rest) else digits + rest
    requires Decimal.AllDigits(digits) && digits != "" && Decimal.DigitCount(digits + rest) == |digits|
    requires (digits + rest)[..|digits|] == digits && (digits + rest)[|digits|..] == rest
    requires var n := Decimal.Value(digits) as int; var i := if negative then -n else n;
      -0x8000_0000_0000_0000 <= i < 0x8000_0000_0000_0000
    ensures var n := Decimal.Value(digits) as int; var i := if negative then -n else n;
      ReadInteger(s) == Some((Integer(i), rest)) && (s[0] == '-' || IsDigit(s[0]))
  {
    if negative {
      assert s[1..] == digits + rest;
    } else {
      assert IsDigit(s[0]);
    }
  }

  lemma {:induction false} ReadValueUndoesSerialize(v: CanonicalValue, rest: string)
    requires Delimited(rest)
    ensures ReadValue(SerializeCanonical(v) + rest) == Some((v, rest))
    decreases v, 0
  {
    match v {
      case Null => WordReadsBack(v, rest);
      case Boolean(b) => WordReadsBack(v, rest);
      case Integer(i) => ReadIntegerUndoesPrint(i, rest);
      case Text(text) => TextReadsBack(text, rest);
      case Array(items) =>
        if items != [] {
          ReadItemsUndoesText(items, rest);
          FirstCharacter(items[0]);
        }
        ArrayReadsBack(items, rest);
      case Object(entries) =>
        if entries != [] {
          ReadEntriesUndoesText(entries, rest);
        }
        ObjectReadsBack(entries, rest);
    }
  }

  lemma WordReadsBack(v: CanonicalValue, rest: string)
    requires v.Null? || v.Boolean?
    ensures ReadValue(SerializeCanonical(v) + rest) == Some((v, rest))
  {
    var word := SerializeCanonical(v);
    assert word <= word + rest && (word + rest)[|word|..] == rest;
  }

  lemma TextReadsBack(text: string, rest: string)
    ensures ReadValue(Quoted(text) + rest) == Some((Text(text), rest))
  {
    ReadStringUndoesEscaped(text, rest);
    assert (Quoted(text) + rest)[1..] == Escaped(text) + "\"" + rest;
  }

  lemma ArrayReadsBack(items: seq<CanonicalValue>, rest: string)
    requires items != [] ==> ReadItems(ItemsText(items, true) + "]" + rest) == Some((items, rest))
    requires items != [] ==> SerializeCanonical(items[0]) != "" && SerializeCanonical(items[0])[0] !in "]},:"
    ensures ReadValue(SerializeCanonical(Array(items)) + rest) == Some((Array(items), rest))
  {
    var body := ItemsText(items, true) + "]" + rest;
    Around('[', ItemsText(items, true), "]", rest);
    if items == [] {
      assert body == [']'] + rest;
      EmptyBracket(body, rest);
    } else {
      assert ItemsText(items, true)[0] == SerializeCanonical(items[0])[0];
      OpenBracket(body, items, rest);
    }
  }

  lemma Around(open: char, body: string, close: string, rest: string)
    ensures ([open] + body + close) + rest == [open] + (body + close + rest)
  {
  }

  lemma EmptyBracket(body: string, rest: string)
    requires body == [']'] + rest
    ensures ReadValue(['['] + body) == Some((Array([]), rest))
  {
    assert (['['] + body)[2..] == rest;
  }

  lemma OpenBracket(body: string, items: seq<CanonicalValue>, rest: string)
    requires body != "" && body[0] != ']' && ReadItems(body) == Some((items, rest))
    ensures ReadValue(['['] + body) == Some((Array(items), rest))
  {
    assert (['['] + body)[1..] == body;
  }

  lemma ObjectReadsBack(entries: seq<Entry>, rest: string)
    requires entries != [] ==> ReadEntries(EntriesText(entries, true) + "}" + rest) == Some((entries, rest))
    ensures ReadValue(SerializeCanonical(Object(entries)) + rest) == Some((Object(entries), rest))
  {
    var body := EntriesText(entries, true) + "}" + rest;
    Around('{', EntriesText(entries, true), "}", rest);
    if entries == [] {
      assert body == ['}'] + rest;
      EmptyBrace(body, rest);
    } else {
      EntryText(entries, rest);
      OpenBrace(body, entries, rest);
    }
  }

  lemma EmptyBrace(body: string, rest: string)
    requires body == ['}'] + rest
    ensures ReadValue(['{'] + body) == Some((Object([]), rest))
  {
    assert (['{'] + body)[2..] == rest;
  }

  lemma OpenBrace(body: string, entries: seq<Entry>, rest: string)
    requires body != "" && body[0] != '}' && ReadEntries(body) == Some((entries, rest))
    ensures ReadValue(['{'] + body) == Some((Object(entries), rest))
  {
    assert (['{'] + body)[1..] == body;
  }

  // No value starts like the end of a list.
  lemma FirstCharacter(v: CanonicalValue)
    ensures SerializeCanonical(v) != "" && SerializeCanonical(v)[0] !in "]},:"
  {
    if v.Integer? {
      var magnitude: nat := if v.i < 0 then -(v.i as int) else v.i;
      Decimal.PrintIsNumeral(magnitude);
      assert v.i >= 0 ==> IsDigit(Decimal.PrintInt(v.i)[0]);
    }
  }

  lemma {:induction false} ReadItemsUndoesText(items: seq<CanonicalValue>, rest: string)
    requires items != []
    ensures ReadItems(ItemsText(items, true) + "]" + rest) == Some((items, rest))
    decreases items, 1
  {
    var s := ItemsText(items, true) + "]" + rest;
    var more := ItemsText(items[1..], false) + "]" + rest;
    ReadValueUndoesSerialize(items[0], more);
    ItemText(items, rest);
    if items[1..] == [] {
      assert items == [items[0]];
      LastItem(s, items[0], rest);
    } else {
      var next := ItemsText(items[1..], true) + "]" + rest;
      BehindComma(items[1..], rest);
      ReadItemsUndoesText(items[1..], rest);
      AnotherItem(s, items[0], next, items[1..], rest);
      assert items == [items[0]] + items[1..];
    }
  }

  lemma BehindComma(items: seq<CanonicalValue>, rest: string)
    requires items != []
    ensures ItemsText(items, false) + "]" + rest == [','] + (ItemsText(items, true) + "]" + rest)
  {
    SeparatedItems(items);
  }

  lemma LastItem(s: string, item: CanonicalValue, rest: string)
    requires ReadValue(s) == Some((item, [']'] + rest))
    ensures ReadItems(s) == Some(([item], rest))
  {
  }

  lemma AnotherItem(s: string, item: CanonicalValue, next: string, items: seq<CanonicalValue>, rest: string)
    requires ReadValue(s) == Some((item, [','] + next)) && ReadItems(next) == Some((items, rest))
    ensures ReadItems(s) == Some(([item] + items, rest))
  {
    assert ([','] + next)[1..] == next;
  }

  // Where an item's text falls apart.
  lemma ItemText(items: seq<CanonicalValue>, rest: string)
    requires items != []
    ensures var more := ItemsText(items[1..], false) + "]" + rest;
      && ItemsText(items, true) + "]" + rest == SerializeCanonical(items[0]) + more
      && (items[1..] == [] ==> more == [']'] + rest)
  {
  }

  lemma SeparatedItems(items: seq<CanonicalValue>)
    requires items != []
    ensures ItemsText(items, false) == "," + ItemsText(items, true)
  {
  }

  lemma SeparatedEntries(entries: seq<Entry>, rest: string)
    requires entries != []
    ensures EntriesText(entries, false) + "}" + rest == [','] + (EntriesText(entries, true) + "}" + rest)
  {
    assert EntriesText(entries, false) == [','] + EntriesText(entries, true);
  }

  lemma {:induction false} ReadEntriesUndoesText(entries: seq<Entry>, rest: string)
    requires entries != []
    ensures ReadEntries(EntriesText(entries, true) + "}" + rest) == Some((entries, rest))
    decreases entries, 1
  {
    var more := EntriesText(entries[1..], false) + "}" + rest;
    ReadValueUndoesSerialize(entries[0].value, more);
    if entries[1..] == [] {
      OnlyEntryReadsBack(entries, more, rest);
    } else {
      ReadEntriesUndoesText(entries[1..], rest);
      FirstEntryReadsBack(entries, more, rest);
    }
  }

  lemma OnlyEntryReadsBack(entries: seq<Entry>, more: string, rest: string)
    requires |entries| == 1 && more == EntriesText(entries[1..], false) + "}" + rest
    requires ReadValue(SerializeCanonical(entries[0].value) + more) == Some((entries[0].value, more))
    ensures ReadEntries(EntriesText(entries, true) + "}" + rest) == Some((entries, rest))
  {
    var Entry(key, value) := entries[0];
    var text := SerializeCanonical(value) + more;
    EntryText(entries, rest);
    ReadStringUndoesEscaped(key, [':'] + text);
    NoMoreEntries(entries, rest);
    LastEntry(EntriesText(entries, true) + "}" + rest, key, text, value, rest);
  }

  lemma NoMoreEntries(entries: seq<Entry>, rest: string)
    requires |entries| == 1
    ensures EntriesText(entries[1..], false) + "}" + rest == ['}'] + rest
    ensures entries == [Entry(entries[0].key, entries[0].value)]
  {
  }

  lemma FirstEntryReadsBack(entries: seq<Entry>, more: string, rest: string)
    requires entries != [] && entries[1..] != [] && more == EntriesText(entries[1..], false) + "}" + rest
    requires ReadValue(SerializeCanonical(entries[0].value) + more) == Some((entries[0].value, more))
    requires ReadEntries(EntriesText(entries[1..], true) + "}" + rest) == Some((entries[1..], rest))
    ensures ReadEntries(EntriesText(entries, true) + "}" + rest) == Some((entries, rest))
  {
    var Entry(key, value) := entries[0];
    var text := SerializeCanonical(value) + more;
    var next := EntriesText(entries[1..], true) + "}" + rest;
    EntryText(entries, rest);
    ReadStringUndoesEscaped(key, [':'] + text);
    SeparatedEntries(entries[1..], rest);
    AnotherEntry(EntriesText(entries, true) + "}" + rest, key, text, value, next, entries[1..], rest);
    HeadAndTail(entries);
  }

  lemma HeadAndTail(entries: seq<Entry>)
    requires entries != []
    ensures entries == [Entry(entries[0].key, entries[0].value)] + entries[1..]
  {
  }

  lemma LastEntry(s: string, key: string, text: string, value: CanonicalValue, rest: string)
    requires s != "" && s[0] == '"' && ReadString(s[1..]) == Some((key, [':'] + text))
    requires ReadValue(text) == Some((value, ['}'] + rest))
    ensures ReadEntries(s) == Some(([Entry(key, value)], rest))
  {
    assert ([':'] + text)[1..] == text;
  }

  lemma AnotherEntry(s: string, key: string, text: string, value: CanonicalValue,
                     next: string, entries: seq<Entry>, rest: string)
    requires s != "" && s[0] == '"' && ReadString(s[1..]) == Some((key, [':'] + text))
    requires ReadValue(text) == Some((value, [','] + next)) && ReadEntries(next) == Some((entries, rest))
    ensures ReadEntries(s) == Some(([Entry(key, value)] + entries, rest))
  {
    assert ([':'] + text)[1..] == text;
    assert ([','] + next)[1..] == next;
  }

  // Where a member's text falls apart.
  lemma EntryText(entries: seq<Entry>, rest: string)
    requires entries != []
    ensures var s := EntriesText(entries, true) + "}" + rest;
      var more := EntriesText(entries[1..], false) + "}" + rest;
      && s[0] == '"'
      && s[1..] == Escaped(entries[0].key) + "\"" + ([':'] + (SerializeCanonical(entries[0].value) + more))
  {
    var Entry(key, value) := entries[0];
    RegroupEntry(Escaped(key), SerializeCanonical(value), EntriesText(entries[1..], false), rest);
  }

  lemma RegroupEntry(k: string, v: string, t: string, rest: string)
    ensures var s := ("" + ("\"" + k + "\"") + ":" + v + t) + "}" + rest;
      s[0] == '"' && s[1..] == k + "\"" + ([':'] + (v + (t + "}" + rest)))
  {
  }

  /** A whole document reads back as the value it was written from. */
  lemma ReadUndoesSerialize(v: CanonicalValue)
    ensures ReadValue(SerializeCanonical(v)) == Some((v, ""))
  {
    ReadValueUndoesSerialize(v, "");
    assert SerializeCanonical(v) + "" == SerializeCanonical(v);
  }

  /** Distinct values have distinct canonical texts. */
  lemma SerializeInjective(v: CanonicalValue, w: CanonicalValue)
    ensures SerializeCanonical(v) == SerializeCanonical(w) <==> v == w
  {
    ReadUndoesSerialize(v);
    ReadUndoesSerialize(w);
  }

  /** A text says where it ends: the same text with anything delimited behind it
      holds the same value and the same rest. */
  lemma SerializeSelfDelimiting(v: CanonicalValue, rest: string, w: CanonicalValue, rest': string)
    requires Delimited(rest) && Delimited(rest')
    ensures SerializeCanonical(v) + rest == SerializeCanonical(w) + rest' <==> v == w && rest == rest'
  {
    ReadValueUndoesSerialize(v, rest);
    ReadValueUndoesSerialize(w, rest');
  }

  lemma DigestInputInjective(kind: string, fields: seq<Entry>, kind': string, fields': seq<Entry>)
    ensures CanonicalDigestInput(kind, fields) == CanonicalDigestInput(kind', fields')
            <==> kind == kind' && fields == fields'
  {
    var v := Object([Entry("kind", Text(kind)), Entry("value", Object(fields))]);
    var w := Object([Entry("kind", Text(kind')), Entry("value", Object(fields'))]);
    SerializeInjective(v, w);
    if v == w {
      assert v.entries[0].value == w.entries[0].value;
      assert v.entries[1].value == w.entries[1].value;
    }
  }

  // The text of the first of several entries.
  lemma FirstEntryText(key: string, value: CanonicalValue, rest: seq<Entry>, first: bool)
    ensures EntriesText([Entry(key, value)] + rest, first) ==
            (if first then "" else ",") + Quoted(key) + ":" + SerializeCanonical(value) + EntriesText(rest, false)
  {
    assert ([Entry(key, value)] + rest)[1..] == rest;
  }

  lemma TwoEntriesText(k: string, v: CanonicalValue, l: string, w: CanonicalValue)
    ensures EntriesText([Entry(k, v), Entry(l, w)], true) ==
            Quoted(k) + ":" + SerializeCanonical(v) + ("," + Quoted(l) + ":" + SerializeCanonical(w))
  {
    FirstEntryText(k, v, [Entry(l, w)], true);
    FirstEntryText(l, w, [], false);
    assert [Entry(k, v)] + [Entry(l, w)] == [Entry(k, v), Entry(l, w)] && [Entry(l, w)] + [] == [Entry(l, w)];
    assert EntriesText([], false) == "" && "" + Quoted(k) == Quoted(k);
  }

  /** The text whose digest is taken: an object of the kind and the fields. */
  lemma DigestInputText(kind: string, fields: seq<Entry>)
    ensures CanonicalDigestInput(kind, fields) ==
            "{"
            + (Quoted("kind") + ":" + Quoted(kind) + ("," + Quoted("value") + ":" + SerializeCanonical(Object(fields))))
            + "}"
  {
    TwoEntriesText("kind", Text(kind), "value", Object(fields));
  }
}
