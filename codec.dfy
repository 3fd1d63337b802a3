/**
 * The fallback META.yml codec of the workspace manager, used when PyYAML is
 * not installed: `_write_yaml` writes one `key: value` line per field and
 * `_parse_yaml` reads such lines back. The Python string builtins both rely
 * on (`strip`, `splitlines`, `isdigit`, `str` of an int, `int` of a digit
 * string, `join`) are modelled here as functions.
 */
module Codec {
  import opened Dicts

  /** What a META.yml field holds: None, a string or an int. */
  datatype Value = Null | Str(s: string) | Int(i: int)

  /** A metadata record: field names to values, in insertion order. */
  type Record = Dict<string, Value>

  // ---------------------------------------------------------------------
  // Python string builtins

  /** The characters `str.strip()` removes (those `str.isspace()` accepts). */
  predicate IsSpace(c: char)
  {
    || c == ' ' || '\U{9}' <= c <= '\U{D}' || '\U{1C}' <= c <= '\U{1F}'
    || c == '\U{85}' || c == '\U{A0}' || c == '\U{1680}' || '\U{2000}' <= c <= '\U{200A}'
    || c == '\U{2028}' || c == '\U{2029}' || c == '\U{202F}' || c == '\U{205F}' || c == '\U{3000}'
  }

  /** The characters at which `str.splitlines()` ends a line. */
  predicate IsLineBreak(c: char)
  {
    || '\U{A}' <= c <= '\U{D}' || '\U{1C}' <= c <= '\U{1E}'
    || c == '\U{85}' || c == '\U{2028}' || c == '\U{2029}'
  }

  predicate IsDigit(c: char) { '0' <= c <= '9' }

  /** The character sets the parser searches for or strips. */
  datatype CharClass = Whitespace | Quote | Colon | LineBreak

  predicate InClass(c: char, k: CharClass)
  {
    match k
    case Whitespace => IsSpace(c)
    case Quote => c == '"'
    case Colon => c == ':'
    case LineBreak => IsLineBreak(c)
  }

  /** No character of `s` is in class `k`. */
  predicate Avoids(s: string, k: CharClass)
  {
    forall j :: 0 <= j < |s| ==> !InClass(s[j], k)
  }

  /** `s` holds no line break, so it stays one line. */
  predicate NoBreak(s: string)
  {
    Avoids(s, LineBreak)
  }

  /** Index of the first character in class `k`, or `|s|`. */
  function FindFirst(s: string, k: CharClass): (i: nat)
    ensures i <= |s|
    ensures i < |s| ==> InClass(s[i], k)
    ensures forall j :: 0 <= j < i ==> !InClass(s[j], k)
  {
    if s == [] then 0 else if InClass(s[0], k) then 0 else 1 + FindFirst(s[1..], k)
  }

  function TrimLeft(s: string, k: CharClass): (r: string)
    ensures |r| <= |s| && r == s[|s| - |r|..]
    ensures r == [] || !InClass(r[0], k)
    ensures s != [] && InClass(s[0], k) ==> |r| < |s|
    ensures |s| >= 2 && InClass(s[0], k) && InClass(s[1], k) ==> |r| < |s| - 1
  {
    if s != [] && InClass(s[0], k) then TrimLeft(s[1..], k) else s
  }

  function TrimRight(s: string, k: CharClass): (r: string)
    ensures |r| <= |s| && r == s[..|r|]
    ensures r == [] || !InClass(r[|r| - 1], k)
    ensures s != [] && InClass(s[|s| - 1], k) ==> |r| < |s|
    ensures |s| >= 2 && InClass(s[|s| - 1], k) && InClass(s[|s| - 2], k) ==> |r| < |s| - 1
  {
    if s != [] && InClass(s[|s| - 1], k) then TrimRight(s[..|s| - 1], k) else s
  }

  /**
   * `s.strip(chars)` for the characters of class `k`: a slice of `s` with neither end in `k`
   * (`TrimCuts` adds that everything cut off is in `k`).
   */
  function Trim(s: string, k: CharClass): (r: string)
    ensures |r| <= |s|
    ensures forall k' :: Avoids(s, k') ==> Avoids(r, k')
    ensures r == [] || (!InClass(r[0], k) && !InClass(r[|r| - 1], k))
  {
    var t := TrimRight(s, k);
    var r := TrimLeft(t, k);
    assert r == [] || r[|r| - 1] == t[|t| - 1];
    assert r == s[|t| - |r|..|t|];
    AvoidsSlice(s, |t| - |r|, |t|);
    r
  }

  /** `r` is `s[lo..]` less a tail, and every character cut off on either side is in `k`. */
  predicate CutFrom(s: string, r: string, lo: int, k: CharClass)
  {
    && 0 <= lo <= |s| - |r|
    && r == s[lo..lo + |r|]
    && (forall j :: 0 <= j < lo ==> InClass(s[j], k))
    && (forall j :: lo + |r| <= j < |s| ==> InClass(s[j], k))
  }

  /** What `TrimLeft` cuts off is all in `k`. */
  lemma {:induction false} TrimLeftCuts(s: string, k: CharClass)
    ensures forall j :: 0 <= j < |s| - |TrimLeft(s, k)| ==> InClass(s[j], k)
    decreases |s|
  {
    if s != [] && InClass(s[0], k) {
      TrimLeftCuts(s[1..], k);
      forall j | 1 <= j < |s| - |TrimLeft(s, k)| ensures InClass(s[j], k) {
        assert s[j] == s[1..][j - 1];
      }
    }
  }

  /** What `TrimRight` cuts off is all in `k`. */
  lemma {:induction false} TrimRightCuts(s: string, k: CharClass)
    ensures forall j :: |TrimRight(s, k)| <= j < |s| ==> InClass(s[j], k)
    decreases |s|
  {
    if s != [] && InClass(s[|s| - 1], k) {
      TrimRightCuts(s[..|s| - 1], k);
      forall j | |TrimRight(s, k)| <= j < |s| - 1 ensures InClass(s[j], k) {
        assert s[j] == s[..|s| - 1][j];
      }
    }
  }

  /** `Trim` keeps a slice of `s` and cuts off only characters of `k` on either side. */
  lemma TrimCuts(s: string, k: CharClass)
    ensures exists lo :: CutFrom(s, Trim(s, k), lo, k)
  {
    var t := TrimRight(s, k);
    var r := TrimLeft(t, k);
    var lo := |t| - |r|;
    assert r == s[lo..lo + |r|] by {
      assert t == s[..|t|] && r == t[lo..];
    }
    assert forall j :: 0 <= j < lo ==> InClass(s[j], k) by {
      TrimLeftCuts(t, k);
      forall j | 0 <= j < lo ensures InClass(s[j], k) {
        assert s[j] == t[j];
      }
    }
    assert forall j :: lo + |r| <= j < |s| ==> InClass(s[j], k) by {
      TrimRightCuts(s, k);
    }
    assert Trim(s, k) == r;
    assert CutFrom(s, r, lo, k);
  }

  /** A slice keeps clear of every class its string keeps clear of. */
  lemma AvoidsSlice(s: string, lo: nat, hi: nat)
    requires lo <= hi <= |s|
    ensures forall k :: Avoids(s, k) ==> Avoids(s[lo..hi], k)
  {
    forall k | Avoids(s, k) ensures Avoids(s[lo..hi], k) {
      forall j | 0 <= j < hi - lo ensures !InClass(s[lo..hi][j], k) {
        assert s[lo..hi][j] == s[lo + j];
      }
    }
  }

  /** `s.strip()`. */
  function Strip(s: string): string
  {
    Trim(s, Whitespace)
  }

  /** `s.strip('"')`. */
  function StripQuotes(s: string): string
  {
    Trim(s, Quote)
  }

  /**
   * `s.splitlines()`: `\r\n` is one break, and a break at the very end does
   * not start another (empty) line.
   */
  function SplitLines(s: string): (ls: seq<string>)
    ensures forall i :: 0 <= i < |ls| ==> NoBreak(ls[i])
    ensures ls == [] <==> s == []
    ensures s != [] && NoBreak(s) ==> ls == [s]
    decreases |s|
  {
    if s == [] then []
    else
      var i := FindFirst(s, LineBreak);
      if i == |s| then [s]
      else
        var width := if s[i] == '\r' && i + 1 < |s| && s[i + 1] == '\n' then 2 else 1;
        [s[..i]] + SplitLines(s[i + width..])
  }

  /** `sep.join(ls)`. */
  function Join(ls: seq<string>, sep: string): string
  {
    if ls == [] then "" else if |ls| == 1 then ls[0] else ls[0] + sep + Join(ls[1..], sep)
  }

  predicate AllDigits(s: string)
  {
    forall j :: 0 <= j < |s| ==> IsDigit(s[j])
  }

  /** `s.isdigit()`, for the ASCII digits. */
  predicate IsDigits(s: string)
  {
    s != [] && AllDigits(s)
  }

  /** `int(s)` for a string of ASCII digits. */
  function DigitsValue(s: string): nat
    requires AllDigits(s)
  {
    if s == [] then 0
    else
      assert IsDigit(s[|s| - 1]);
      10 * DigitsValue(s[..|s| - 1]) + (s[|s| - 1] as int - '0' as int)
  }

  function DigitChar(d: nat): char
    requires d < 10
  {
    (d + '0' as int) as char
  }

  /** `str(n)` for a non-negative int: its decimal digits, without leading zeros. */
  function NatToString(n: nat): string
  {
    if n < 10 then [DigitChar(n)] else NatToString(n / 10) + [DigitChar(n % 10)]
  }

  /** `str(i)`. */
  function IntToString(i: int): string
  {
    if i < 0 then "-" + NatToString(-i) else NatToString(i)
  }

  // ---------------------------------------------------------------------
  // The fallback format

  /** The text written after `key: ` for a value. */
  function ValueText(v: Value): string
  {
    match v
    case Null => "null"
    case Str(s) => "\"" + s + "\""
    case Int(i) => IntToString(i)
  }

  function EncodeLine(e: Entry<string, Value>): string
  {
    e.key + ": " + ValueText(e.value)
  }

  function Lines(r: Record): seq<string>
  {
    seq(|r|, i requires 0 <= i < |r| => EncodeLine(r[i]))
  }

  /** The text the fallback `_write_yaml` writes for a record. */
  function Encode(r: Record): string
  {
    Join(Lines(r), "\n")
  }

  /** How the parser types a stripped value: `null`, a digit string, or any other text. */
  function Classify(w: string): (v: Value)
    ensures v.Str? ==> v.s == w
    ensures v == Str(w) <==> w != "null" && !IsDigits(w)
  {
    if w == "null" then Null else if IsDigits(w) then Int(DigitsValue(w)) else Str(w)
  }

  /** How the fallback `_parse_yaml` reads the text after a line's first colon. */
  function ReadValue(raw: string): Value
  {
    Classify(StripQuotes(Strip(raw)))
  }

  /** One line of the parser's loop: a line without a colon is skipped. */
  function ParseLine(acc: Record, line: string): Record
  {
    var i := FindFirst(line, Colon);
    if i < |line| then Set(acc, Strip(line[..i]), ReadValue(line[i + 1..])) else acc
  }

  function ParseLines(ls: seq<string>): Record
  {
    if ls == [] then [] else ParseLine(ParseLines(ls[..|ls| - 1]), ls[|ls| - 1])
  }

  /** The record the fallback `_parse_yaml` returns for a text. */
  function Decode(text: string): Record
  {
    ParseLines(SplitLines(Strip(text)))
  }

  /** What a value reads back as once written on a line of its own. */
  function Reread(v: Value): Value
  {
    ReadValue(" " + ValueText(v))
  }

  // ---------------------------------------------------------------------
  // The writer and the parser, as the source runs them

  method WriteYaml(data: Record) returns (text: string)
    ensures text == Encode(data)
  {
    var lines: seq<string> := [];
    for i := 0 to |data|
      invariant |lines| == i
      invariant forall j :: 0 <= j < i ==> lines[j] == EncodeLine(data[j])
    {
      var key := data[i].key;
      match data[i].value {
        case Null => lines := lines + [key + ": null"];
        case Str(s) => lines := lines + [key + ": \"" + s + "\""];
        case Int(n) => lines := lines + [key + ": " + IntToString(n)];
      }
    }
    assert lines == Lines(data);
    text := Join(lines, "\n");
  }

  method ParseYaml(content: string) returns (result: Record)
    ensures result == Decode(content)
    ensures Writable(result)
  {
    var lines := SplitLines(Strip(content));
    result := [];
    assert lines[..0] == [];
    for i := 0 to |lines|
      invariant result == ParseLines(lines[..i])
    {
      ParseLinesStep(lines, i);
      result := ParseYamlLine(result, lines[i]);
    }
    assert lines[..|lines|] == lines;
    DecodeWritable(content);
  }

  /** One pass of the parser's loop: a line with a colon assigns its key. */
  method ParseYamlLine(acc: Record, line: string) returns (result: Record)
    ensures result == ParseLine(acc, line)
  {
    var colon := FindFirst(line, Colon);
    if colon < |line| {
      var key := Strip(line[..colon]);
      var v := ReadYamlValue(line[colon + 1..]);
      ParseLineColon(acc, line, colon);
      result := Set(acc, key, v);
    } else {
      result := acc;
    }
  }

  /** What `ParseLine` does with a line whose first colon is at `i`. */
  lemma ParseLineColon(acc: Record, line: string, i: nat)
    requires i == FindFirst(line, Colon) && i < |line|
    ensures ParseLine(acc, line) == Set(acc, Strip(line[..i]), ReadValue(line[i + 1..]))
  {
  }

  /** The value half of a line: quotes stripped, then `null`, an int, or the text. */
  method ReadYamlValue(raw: string) returns (v: Value)
    ensures v == ReadValue(raw)
    ensures v.Str? ==> v.s == StripQuotes(Strip(raw))
  {
    var value := StripQuotes(Strip(raw));
    if value == "null" {
      v := Null;
    } else if IsDigits(value) {
      v := Int(DigitsValue(value));
    } else {
      v := Str(value);
    }
  }

  /** The parser's loop takes one line at a time. */
  lemma ParseLinesStep(lines: seq<string>, i: nat)
    requires i < |lines|
    ensures ParseLines(lines[..i + 1]) == ParseLine(ParseLines(lines[..i]), lines[i])
  {
    assert lines[..i + 1][..i] == lines[..i];
  }

  // ---------------------------------------------------------------------
  // When the format round-trips

  /** A key the parser gives back unchanged: no colon, no line break, no outer whitespace. */
  predicate PlainKey(k: string)
  {
    && Avoids(k, Colon) && NoBreak(k)
    && (k == [] || (!IsSpace(k[0]) && !IsSpace(k[|k| - 1])))
  }

  /** A value whose written form fits on one line. */
  predicate OneLine(v: Value)
  {
    v.Str? ==> NoBreak(v.s)
  }

  /**
   * A value the parser gives back unchanged: null, a non-negative int, or a
   * one-line string that has no quote at either end, is not "null" and is
   * not all digits.
   */
  predicate Encodable(v: Value)
  {
    match v
    case Null => true
    case Int(i) => 0 <= i
    case Str(s) =>
      && NoBreak(s) && (s == [] || (s[0] != '"' && s[|s| - 1] != '"'))
      && s != "null" && !IsDigits(s)
  }

  /** A record the fallback codec writes and reads back unchanged. */
  predicate Writable(r: Record)
  {
    Distinct(r) && forall i :: 0 <= i < |r| ==> PlainKey(r[i].key) && Encodable(r[i].value)
  }

  /** `int(str(n)) == n`, and `str(n).isdigit()`. */
  lemma {:induction false} DigitsOfNat(n: nat)
    ensures IsDigits(NatToString(n))
    ensures DigitsValue(NatToString(n)) == n
    decreases n
  {
    if n >= 10 {
      DigitsOfNat(n / 10);
      var s := NatToString(n);
      assert s[..|s| - 1] == NatToString(n / 10);
    }
  }

  lemma TrimUntouched(s: string, k: CharClass)
    requires s == [] || (!InClass(s[0], k) && !InClass(s[|s| - 1], k))
    ensures Trim(s, k) == s
  {
  }

  /** Stripping a line's value: one space, then text with no space at either end. */
  lemma StripSpaced(t: string)
    requires t != [] && !IsSpace(t[0]) && !IsSpace(t[|t| - 1])
    ensures Strip(" " + t) == t
  {
    var s := " " + t;
    assert TrimRight(s, Whitespace) == s;
    assert s[1..] == t;
    assert TrimLeft(s, Whitespace) == TrimLeft(t, Whitespace) == t;
  }

  lemma StripQuoted(s: string)
    requires s == [] || (s[0] != '"' && s[|s| - 1] != '"')
    ensures StripQuotes("\"" + s + "\"") == s
  {
    var q := "\"" + s + "\"";
    assert q[..|q| - 1] == "\"" + s;
    if s == [] {
      assert TrimRight("\"", Quote) == TrimRight("", Quote) == "";
    } else {
      assert TrimRight(q, Quote) == TrimRight("\"" + s, Quote) == "\"" + s;
      assert ("\"" + s)[1..] == s;
      assert TrimLeft("\"" + s, Quote) == TrimLeft(s, Quote) == s;
    }
  }

  /** A quote at either end of a string is lost when it is written and read back. */
  lemma QuotedLoses(s: string)
    requires s != [] && (s[0] == '"' || s[|s| - 1] == '"')
    ensures |StripQuotes("\"" + s + "\"")| < |s|
  {
    var q := "\"" + s + "\"";
    var t := TrimRight(q, Quote);
    if s[|s| - 1] == '"' {
      assert q[|q| - 2] == '"';
      assert |t| <= |s|;
      assert t != [] ==> t[0] == q[0];
    } else {
      assert q[..|q| - 1] == "\"" + s;
      assert t == TrimRight("\"" + s, Quote) == "\"" + s;
      assert t[1] == s[0];
    }
  }

  /** `str(i)`: a minus sign for a negative int, then digits; `isdigit` exactly when `i >= 0`. */
  lemma IntTextShape(i: int)
    ensures IntToString(i) != [] && NoBreak(IntToString(i))
    ensures IsDigit(IntToString(i)[|IntToString(i)| - 1])
    ensures 0 <= i ==> IsDigits(IntToString(i)) && DigitsValue(IntToString(i)) == i
    ensures i < 0 ==> IntToString(i)[0] == '-'
  {
    var n := if i < 0 then -i else i;
    var d := NatToString(n);
    DigitsOfNat(n);
    assert IsDigit(d[|d| - 1]);
    if i < 0 {
      assert IntToString(i) == "-" + d;
    }
  }

  /** The written form of a one-line value: non-empty, one line, no space at either end. */
  lemma ValueTextShape(v: Value)
    requires OneLine(v)
    ensures ValueText(v) != [] && NoBreak(ValueText(v))
    ensures !IsSpace(ValueText(v)[0]) && !IsSpace(ValueText(v)[|ValueText(v)| - 1])
    ensures ValueText(v)[0] == '"' <==> v.Str?
    ensures ValueText(v)[|ValueText(v)| - 1] == '"' <==> v.Str?
  {
    match v
    case Null =>
    case Str(s) =>
    case Int(i) =>
      IntTextShape(i);
  }

  lemma RereadNull()
    ensures Reread(Null) == Null
  {
    StripSpaced("null");
    TrimUntouched("null", Quote);
  }

  /** An int reads back as itself exactly when it is not negative. */
  lemma RereadInt(i: int)
    ensures Reread(Int(i)) == Int(i) <==> 0 <= i
  {
    ValueTextShape(Int(i));
    var t := IntToString(i);
    StripSpaced(t);
    TrimUntouched(t, Quote);
    assert ReadValue(" " + t) == Classify(t);
    IntTextShape(i);
    if i < 0 {
      assert !IsDigit(t[0]);
      assert t != "null";
    }
  }

  /** A one-line string reads back as itself exactly when it is encodable. */
  lemma RereadStr(s: string)
    requires NoBreak(s)
    ensures Reread(Str(s)) == Str(s) <==> Encodable(Str(s))
  {
    var t := ValueText(Str(s));
    ValueTextShape(Str(s));
    StripSpaced(t);
    if s == [] || (s[0] != '"' && s[|s| - 1] != '"') {
      StripQuoted(s);
      assert ReadValue(" " + t) == Classify(s);
    } else {
      QuotedLoses(s);
      var w := StripQuotes(t);
      assert ReadValue(" " + t) == Classify(w);
      assert w != s;
    }
  }

  /** A one-line value reads back as itself exactly when it is encodable. */
  lemma RereadExact(v: Value)
    requires OneLine(v)
    ensures Reread(v) == v <==> Encodable(v)
  {
    match v
    case Null => RereadNull();
    case Int(i) => RereadInt(i);
    case Str(s) => RereadStr(s);
  }

  /** The first character of class `k` in `a + [c] + b`, when `a` has none, is `c`. */
  lemma {:induction false} FindAfter(a: string, c: char, b: string, k: CharClass)
    requires Avoids(a, k)
    requires InClass(c, k)
    ensures FindFirst(a + [c] + b, k) == |a|
    ensures (a + [c] + b)[..|a|] == a && (a + [c] + b)[|a| + 1..] == b
  {
    if a != [] {
      assert !InClass(a[0], k);
      assert (a + [c] + b)[1..] == a[1..] + [c] + b;
      FindAfter(a[1..], c, b, k);
    }
  }

  /** A line whose first colon follows `a` assigns the stripped `a`. */
  lemma ParseLineAt(acc: Record, a: string, rest: string)
    requires Avoids(a, Colon)
    ensures ParseLine(acc, a + [':'] + rest) == Set(acc, Strip(a), ReadValue(rest))
  {
    FindAfter(a, ':', rest, Colon);
  }

  /** The written line of an entry is parsed back as an assignment of its key. */
  lemma ParseWrittenLine(acc: Record, e: Entry<string, Value>)
    requires PlainKey(e.key) && OneLine(e.value)
    ensures ParseLine(acc, EncodeLine(e)) == Set(acc, e.key, Reread(e.value))
  {
    var k, rest := e.key, " " + ValueText(e.value);
    assert EncodeLine(e) == k + [':'] + rest;
    ParseLineAt(acc, k, rest);
    TrimUntouched(k, Whitespace);
  }

  /** An encodable value's line is parsed back as an assignment of its own value. */
  lemma ParseEncodableLine(acc: Record, e: Entry<string, Value>)
    requires PlainKey(e.key) && Encodable(e.value)
    ensures ParseLine(acc, EncodeLine(e)) == Set(acc, e.key, e.value)
  {
    RereadExact(e.value);
    ParseWrittenLine(acc, e);
  }

  /** Parsing the lines of a record: the last line assigns the last entry. */
  lemma ParseLastLine(r: Record)
    requires r != [] && PlainKey(r[|r| - 1].key) && Encodable(r[|r| - 1].value)
    ensures ParseLines(Lines(r)) ==
      Set(ParseLines(Lines(r[..|r| - 1])), r[|r| - 1].key, r[|r| - 1].value)
  {
    assert Lines(r)[..|r| - 1] == Lines(r[..|r| - 1]);
    ParseEncodableLine(ParseLines(Lines(r[..|r| - 1])), r[|r| - 1]);
  }

  /** The entries before the last of a writable record are writable, and miss its key. */
  lemma WritableInit(r: Record)
    requires r != [] && Writable(r)
    ensures Writable(r[..|r| - 1])
    ensures PlainKey(r[|r| - 1].key) && Encodable(r[|r| - 1].value)
    ensures r[|r| - 1].key !in Keys(r[..|r| - 1])
  {
  }

  /** Assigning the last key of a record to the entries before it rebuilds the record. */
  lemma SetLast(r: Record)
    requires r != [] && r[|r| - 1].key !in Keys(r[..|r| - 1])
    ensures Set(r[..|r| - 1], r[|r| - 1].key, r[|r| - 1].value) == r
  {
    SetKeys(r[..|r| - 1], r[|r| - 1].key, r[|r| - 1].value);
    assert r[..|r| - 1] + [r[|r| - 1]] == r;
  }

  lemma {:induction false} ParseEncodedLines(r: Record)
    requires Writable(r)
    ensures ParseLines(Lines(r)) == r
    decreases |r|
  {
    if r != [] {
      WritableInit(r);
      ParseLastLine(r);
      ParseEncodedLines(r[..|r| - 1]);
      SetLast(r);
    }
  }

  lemma {:induction false} JoinEnds(ls: seq<string>, sep: string)
    requires ls != [] && forall i :: 0 <= i < |ls| ==> ls[i] != []
    ensures Join(ls, sep) != []
    ensures Join(ls, sep)[0] == ls[0][0]
    ensures Join(ls, sep)[|Join(ls, sep)| - 1] == ls[|ls| - 1][|ls[|ls| - 1]| - 1]
  {
    if |ls| > 1 {
      JoinEnds(ls[1..], sep);
    }
  }

  /** `splitlines` undoes `"\n".join` on non-empty lines without breaks. */
  lemma {:induction false} SplitJoin(ls: seq<string>)
    requires forall i :: 0 <= i < |ls| ==> ls[i] != [] && NoBreak(ls[i])
    ensures SplitLines(Join(ls, "\n")) == ls
  {
    if |ls| > 1 {
      var first, rest := ls[0], Join(ls[1..], "\n");
      assert Join(ls, "\n") == first + ['\n'] + rest;
      FindAfter(first, '\n', rest, LineBreak);
      JoinEnds(ls[1..], "\n");
      SplitJoin(ls[1..]);
    }
  }

  /** An encoded line: non-empty, one line, no whitespace at either end. */
  lemma EncodeLineShape(e: Entry<string, Value>)
    requires PlainKey(e.key) && OneLine(e.value)
    ensures EncodeLine(e) != [] && NoBreak(EncodeLine(e))
    ensures !IsSpace(EncodeLine(e)[0]) && !IsSpace(EncodeLine(e)[|EncodeLine(e)| - 1])
  {
    ValueTextShape(e.value);
  }

  /** A line that survives `strip` and `splitlines` unchanged. */
  predicate PlainLine(l: string)
  {
    l != [] && NoBreak(l) && !IsSpace(l[0]) && !IsSpace(l[|l| - 1])
  }

  /** `"\n".join` of plain lines, stripped and split again, gives the lines back. */
  lemma SplitJoinStripped(ls: seq<string>)
    requires forall i :: 0 <= i < |ls| ==> PlainLine(ls[i])
    ensures SplitLines(Strip(Join(ls, "\n"))) == ls
  {
    if ls != [] {
      JoinEnds(ls, "\n");
    }
    TrimUntouched(Join(ls, "\n"), Whitespace);
    SplitJoin(ls);
  }

  /** The text of a record whose lines are non-empty, one line each, and unpadded. */
  lemma SplitEncoded(r: Record)
    requires forall i :: 0 <= i < |r| ==> PlainKey(r[i].key) && OneLine(r[i].value)
    ensures SplitLines(Strip(Encode(r))) == Lines(r)
  {
    var ls := Lines(r);
    forall i | 0 <= i < |ls| ensures PlainLine(ls[i]) {
      EncodeLineShape(r[i]);
    }
    SplitJoinStripped(ls);
  }

  /** The round trip: a writable record is read back exactly as written, keys and order kept. */
  lemma DecodeEncode(r: Record)
    requires Writable(r)
    ensures Decode(Encode(r)) == r
  {
    SplitEncoded(r);
    ParseEncodedLines(r);
  }

  /** A single field is read back as its value reread (see `RereadExact` for when that is itself). */
  lemma DecodeEncodeField(e: Entry<string, Value>)
    requires PlainKey(e.key) && OneLine(e.value)
    ensures Decode(Encode([e])) == [Entry(e.key, Reread(e.value))]
  {
    DecodeSingle(e);
    ParseWrittenLine([], e);
  }

  /** The text of a one-field record is parsed as its one line. */
  lemma DecodeSingle(e: Entry<string, Value>)
    requires PlainKey(e.key) && OneLine(e.value)
    ensures Decode(Encode([e])) == ParseLine([], EncodeLine(e))
  {
    SplitEncoded([e]);
    ParseSingleLine(e);
  }

  lemma ParseSingleLine(e: Entry<string, Value>)
    ensures ParseLines(Lines([e])) == ParseLine([], EncodeLine(e))
  {
    var l := EncodeLine(e);
    assert Lines([e]) == [l];
    assert [l][..0] == [];
  }

  /** Whatever raw text follows a colon on one line, the value read is encodable. */
  lemma ReadValueEncodable(raw: string)
    requires NoBreak(raw)
    ensures Encodable(ReadValue(raw))
  {
    var t := Strip(raw);
    assert NoBreak(t);
    var w := StripQuotes(t);
    assert NoBreak(w);
    assert w == [] || (w[0] != '"' && w[|w| - 1] != '"') by {
      assert w == [] || (!InClass(w[0], Quote) && !InClass(w[|w| - 1], Quote));
    }
    var v := Classify(w);
    assert v.Str? ==> v.s == w;
  }

  /** The key of a parsed line is plain. */
  lemma ParsedKeyPlain(line: string, i: nat)
    requires NoBreak(line) && i <= |line| && Avoids(line[..i], Colon)
    ensures PlainKey(Strip(line[..i]))
  {
    assert NoBreak(line[..i]);
  }

  lemma ParseLineWritable(acc: Record, line: string)
    requires Writable(acc) && NoBreak(line)
    ensures Writable(ParseLine(acc, line))
  {
    var i := FindFirst(line, Colon);
    if i < |line| {
      AssignWritable(acc, line, i);
    }
  }

  /** The assignment a line makes at its first colon keeps the record writable. */
  lemma AssignWritable(acc: Record, line: string, i: nat)
    requires Writable(acc) && NoBreak(line)
    requires i < |line| && Avoids(line[..i], Colon)
    ensures Writable(Set(acc, Strip(line[..i]), ReadValue(line[i + 1..])))
  {
    ParsedKeyPlain(line, i);
    assert NoBreak(line[i + 1..]);
    ReadValueEncodable(line[i + 1..]);
    SetWritable(acc, Strip(line[..i]), ReadValue(line[i + 1..]));
  }

  lemma {:induction false} ParseLinesWritable(ls: seq<string>)
    requires forall i :: 0 <= i < |ls| ==> NoBreak(ls[i])
    ensures Writable(ParseLines(ls))
  {
    if ls != [] {
      var p := ls[..|ls| - 1];
      ParseLinesWritable(p);
      ParseLineWritable(ParseLines(p), ls[|ls| - 1]);
    }
  }

  /** Whatever text the parser reads, the record it returns can be written and read back. */
  lemma DecodeWritable(text: string)
    ensures Writable(Decode(text))
  {
    ParseLinesWritable(SplitLines(Strip(text)));
  }

  /** Assigning a plain key an encodable value keeps a record writable. */
  lemma SetWritable(r: Record, k: string, v: Value)
    requires Writable(r) && PlainKey(k) && Encodable(v)
    ensures Writable(Set(r, k, v))
  {
    SetKeys(r, k, v);
  }

  /** `update` with a writable record keeps a record writable. */
  lemma {:induction false} UpdateWritable(r: Record, u: Record)
    requires Writable(r) && Writable(u)
    ensures Writable(Update(r, u))
    decreases |u|
  {
    if u != [] {
      SetWritable(r, u[0].key, u[0].value);
      assert Writable(u[1..]);
      UpdateWritable(Set(r, u[0].key, u[0].value), u[1..]);
    }
  }

  /** Reading, writing and reading again gives what the first read gave. */
  lemma DecodeStable(text: string)
    ensures Decode(Encode(Decode(text))) == Decode(text)
  {
    DecodeWritable(text);
    DecodeEncode(Decode(text));
  }

  /** As written, a string field that is all digits comes back as an int. */
  lemma DigitStringBecomesInt(k: string, s: string)
    requires PlainKey(k) && IsDigits(s)
    ensures Decode(Encode([Entry(k, Str(s))])) == [Entry(k, Int(DigitsValue(s)))]
  {
    assert NoBreak(s) by {
      forall j | 0 <= j < |s| ensures !IsLineBreak(s[j]) {
        assert IsDigit(s[j]);
      }
    }
    DecodeEncodeField(Entry(k, Str(s)));
    assert Reread(Str(s)) == Int(DigitsValue(s)) by {
      ValueTextShape(Str(s));
      StripSpaced("\"" + s + "\"");
      assert IsDigit(s[0]) && IsDigit(s[|s| - 1]);
      StripQuoted(s);
      assert s != "null";
    }
  }

  /** As written, a negative int comes back as a string. */
  lemma NegativeIntBecomesString(k: string, i: int)
    requires PlainKey(k) && i < 0
    ensures Decode(Encode([Entry(k, Int(i))])) == [Entry(k, Str(IntToString(i)))]
  {
    DecodeEncodeField(Entry(k, Int(i)));
    assert Reread(Int(i)) == Str(IntToString(i)) by {
      var t := IntToString(i);
      IntTextShape(i);
      ValueTextShape(Int(i));
      StripSpaced(t);
      TrimUntouched(t, Quote);
      assert !IsDigit(t[0]);
      assert t != "null";
    }
  }
}
