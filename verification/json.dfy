/** JSON text (RFC 8259) as `System.Text.Json` reads and writes it: the
    parse behind `JsonDocument.Parse`, the member lookup of
    `JsonElement.TryGetProperty`, `JsonElement.GetString`, and the string
    escaping of `JsonSerializer.Serialize` with its default encoder. */
module Json {
  import opened Wrappers

  /** A parsed document. Numbers keep their text; members keep their order
      and any duplicates. */
  datatype Json =
    | Null
    | Bool(b: bool)
    | Number(lexeme: string)
    | Str(text: string)
    | Unpaired          // a string whose `\u` escapes leave a surrogate unpaired
    | Arr(items: seq<Json>)
    | Obj(members: seq<(string, Json)>)

  /** `JsonDocumentOptions.MaxDepth` when left at its default. */
  const MaxDepth: nat := 64

  predicate IsWhitespace(c: char) {
    c == ' ' || c == '\t' || c == '\n' || c == '\r'
  }

  predicate IsDigit(c: char) {
    '0' <= c <= '9'
  }

  function SkipWhitespace(s: string): (r: string)
    ensures |r| <= |s|
    ensures |r| > 0 ==> !IsWhitespace(r[0])
    ensures |s| > 0 && !IsWhitespace(s[0]) ==> r == s
  {
    if |s| > 0 && IsWhitespace(s[0]) then SkipWhitespace(s[1..]) else s
  }

  // ---------------------------------------------------------------------
  // Strings

  function HexValue(c: char): (r: Option<int>)
    ensures r.Some? ==> 0 <= r.value < 16
  {
    if '0' <= c <= '9' then Some(c as int - '0' as int)
    else if 'a' <= c <= 'f' then Some(c as int - 'a' as int + 10)
    else if 'A' <= c <= 'F' then Some(c as int - 'A' as int + 10)
    else None
  }

  /** The UTF-16 code unit spelled by four hex digits. */
  function ParseHex4(s: string): (r: Option<int>)
    requires |s| >= 4
    ensures r.Some? ==> 0 <= r.value < 0x10000
  {
    match (HexValue(s[0]), HexValue(s[1]), HexValue(s[2]), HexValue(s[3]))
    case (Some(d0), Some(d1), Some(d2), Some(d3)) => Some(d0 * 4096 + d1 * 256 + d2 * 16 + d3)
    case _ => None
  }

  predicate IsHighSurrogate(u: int) { 0xD800 <= u <= 0xDBFF }
  predicate IsLowSurrogate(u: int) { 0xDC00 <= u <= 0xDFFF }

  /** The scalar value a high and a low surrogate stand for together. */
  function Combine(hi: int, lo: int): int {
    0x10000 + (hi - 0xD800) * 1024 + (lo - 0xDC00)
  }

  /** The high and the low surrogate of a value past U+FFFF. */
  function HighUnit(x: int): int { 0xD800 + (x - 0x10000) / 1024 }
  function LowUnit(x: int): int { 0xDC00 + (x - 0x10000) % 1024 }

  /** The text after `\u`: one code unit, or a surrogate pair written as
      two escapes. A surrogate that is not part of a pair is rejected. */
  function ParseUnicodeEscape(s: string): (r: Option<(char, string)>)
    ensures r.Some? ==> |r.value.1| < |s|
  {
    if |s| < 4 then None
    else match ParseHex4(s)
      case None => None
      case Some(u) =>
        if IsLowSurrogate(u) then None
        else if !IsHighSurrogate(u) then Some((u as char, s[4..]))
        else if |s| < 10 || s[4] != '\\' || s[5] != 'u' then None
        else match ParseHex4(s[6..])
          case Some(v) =>
            if IsLowSurrogate(v) then Some((Combine(u, v) as char, s[10..]))
            else None
          case None => None
  }

  /** The text after a backslash. */
  function ParseEscape(s: string): (r: Option<(char, string)>)
    ensures r.Some? ==> |r.value.1| < |s|
  {
    if |s| == 0 then None
    else match s[0]
      case '"' => Some(('"', s[1..]))
      case '\\' => Some(('\\', s[1..]))
      case '/' => Some(('/', s[1..]))
      case 'b' => Some(('\U{8}', s[1..]))
      case 'f' => Some(('\U{C}', s[1..]))
      case 'n' => Some(('\n', s[1..]))
      case 'r' => Some(('\r', s[1..]))
      case 't' => Some(('\t', s[1..]))
      case 'u' => ParseUnicodeEscape(s[1..])
      case _ => None
  }

  /** One character of a string body that does not start at the closing
      quote: an escape, or any character but a control character. */
  function ParseStringChar(s: string): (r: Option<(char, string)>)
    requires |s| > 0
    ensures r.Some? ==> |r.value.1| < |s|
  {
    if s[0] == '\\' then ParseEscape(s[1..])
    else if s[0] as int < 0x20 then None
    else Some((s[0], s[1..]))
  }

  /** The reader's own check of a string body: every escape well formed
      and no control character, with `\u` followed by any four hex digits.
      It does not pair surrogates; that happens only when the text is
      unescaped. Gives the text after the closing quote. */
  function ScanStringBody(s: string): (r: Option<string>)
    ensures r.Some? ==> |r.value| < |s|
    decreases |s|
  {
    if |s| == 0 then None
    else if s[0] == '"' then Some(s[1..])
    else if s[0] as int < 0x20 then None
    else if s[0] != '\\' then ScanStringBody(s[1..])
    else if |s| < 2 then None
    else if s[1] in "\"\\/bfnrt" then ScanStringBody(s[2..])
    else if s[1] == 'u' && |s| >= 6 && ParseHex4(s[2..]).Some? then ScanStringBody(s[6..])
    else None
  }

  /** A string body up to and including its closing quote. */
  function ParseStringBody(s: string): (r: Option<(string, string)>)
    ensures r.Some? ==> |r.value.1| < |s|
    decreases |s|
  {
    if |s| == 0 then None
    else if s[0] == '"' then Some(("", s[1..]))
    else match ParseStringChar(s)
      case None => None
      case Some((c, rest)) =>
        match ParseStringBody(rest)
        case None => None
        case Some((t, after)) => Some(([c] + t, after))
  }

  // ---------------------------------------------------------------------
  // Numbers

  function DigitRun(s: string): (n: nat)
    ensures n <= |s|
    ensures forall i :: 0 <= i < n ==> IsDigit(s[i])
    ensures n < |s| ==> !IsDigit(s[n])
  {
    if |s| > 0 && IsDigit(s[0]) then 1 + DigitRun(s[1..]) else 0
  }

  /** End of an optional fraction starting at `i`. */
  function FractionEnd(s: string, i: nat): (r: Option<nat>)
    requires i <= |s|
    ensures r.Some? ==> i <= r.value <= |s|
  {
    if i < |s| && s[i] == '.' then
      var d := DigitRun(s[i + 1..]);
      if d == 0 then None else Some(i + 1 + d)
    else Some(i)
  }

  /** End of an optional exponent starting at `i`. */
  function ExponentEnd(s: string, i: nat): (r: Option<nat>)
    requires i <= |s|
    ensures r.Some? ==> i <= r.value <= |s|
  {
    if i < |s| && (s[i] == 'e' || s[i] == 'E') then
      var j := if i + 1 < |s| && (s[i + 1] == '+' || s[i + 1] == '-') then i + 2 else i + 1;
      var d := DigitRun(s[j..]);
      if d == 0 then None else Some(j + d)
    else Some(i)
  }

  /** Length of the number at the head of `s`: an optional minus, an
      integer part without leading zeros, then optional fraction and
      exponent. */
  function NumberLength(s: string): (r: Option<nat>)
    ensures r.Some? ==> 0 < r.value <= |s|
  {
    var a := if |s| > 0 && s[0] == '-' then 1 else 0;
    if a >= |s| || !IsDigit(s[a]) then None
    else
      var b := if s[a] == '0' then a + 1 else a + DigitRun(s[a..]);
      match FractionEnd(s, b)
      case None => None
      case Some(c) => ExponentEnd(s, c)
  }

  // ---------------------------------------------------------------------
  // Values

  predicate StartsWith(s: string, prefix: string) {
    |prefix| <= |s| && s[..|prefix|] == prefix
  }

  /** A value at the head of `s` (no leading whitespace), read at nesting
      `depth`. Opening a container at depth `MaxDepth` fails, as the reader
      does. */
  function ParseValue(s: string, depth: nat): (r: Option<(Json, string)>)
    ensures r.Some? ==> |r.value.1| < |s|
    decreases |s|, 0
  {
    if |s| == 0 then None
    else if s[0] == '{' then
      if depth >= MaxDepth then None else ParseObject(s[1..], depth + 1)
    else if s[0] == '[' then
      if depth >= MaxDepth then None else ParseArray(s[1..], depth + 1)
    else if s[0] == '"' then
      match ParseStringBody(s[1..])
      case Some((t, rest)) => Some((Str(t), rest))
      case None =>
        match ScanStringBody(s[1..])
        case Some(rest) => Some((Unpaired, rest))
        case None => None
    else if StartsWith(s, "true") then Some((Bool(true), s[4..]))
    else if StartsWith(s, "false") then Some((Bool(false), s[5..]))
    else if StartsWith(s, "null") then Some((Null, s[4..]))
    else match NumberLength(s)
      case Some(n) => Some((Number(s[..n]), s[n..]))
      case None => None
  }

  /** The rest of an object after `{`. */
  function ParseObject(s: string, depth: nat): (r: Option<(Json, string)>)
    ensures r.Some? ==> |r.value.1| < |s|
    decreases |s|, 2
  {
    var t := SkipWhitespace(s);
    if |t| > 0 && t[0] == '}' then Some((Obj([]), t[1..]))
    else match ParseMembers(t, depth)
      case Some((ms, rest)) => Some((Obj(ms), rest))
      case None => None
  }

  /** Members from the opening quote of the first one to the closing `}`. */
  function ParseMembers(s: string, depth: nat): (r: Option<(seq<(string, Json)>, string)>)
    ensures r.Some? ==> |r.value.1| < |s|
    decreases |s|, 1
  {
    if |s| == 0 || s[0] != '"' then None
    else match ParseStringBody(s[1..])
      case None => None
      case Some((key, r1)) =>
        var r2 := SkipWhitespace(r1);
        if |r2| == 0 || r2[0] != ':' then None
        else match ParseValue(SkipWhitespace(r2[1..]), depth)
          case None => None
          case Some((v, r4)) =>
            var r5 := SkipWhitespace(r4);
            if |r5| == 0 then None
            else if r5[0] == '}' then Some(([(key, v)], r5[1..]))
            else if r5[0] != ',' then None
            else match ParseMembers(SkipWhitespace(r5[1..]), depth)
              case None => None
              case Some((ms, r6)) => Some(([(key, v)] + ms, r6))
  }

  /** The rest of an array after `[`. */
  function ParseArray(s: string, depth: nat): (r: Option<(Json, string)>)
    ensures r.Some? ==> |r.value.1| < |s|
    decreases |s|, 2
  {
    var t := SkipWhitespace(s);
    if |t| > 0 && t[0] == ']' then Some((Arr([]), t[1..]))
    else match ParseElements(t, depth)
      case Some((vs, rest)) => Some((Arr(vs), rest))
      case None => None
  }

  /** Elements from the first one to the closing `]`. */
  function ParseElements(s: string, depth: nat): (r: Option<(seq<Json>, string)>)
    ensures r.Some? ==> |r.value.1| < |s|
    decreases |s|, 1
  {
    match ParseValue(s, depth)
    case None => None
    case Some((v, r1)) =>
      var r2 := SkipWhitespace(r1);
      if |r2| == 0 then None
      else if r2[0] == ']' then Some(([v], r2[1..]))
      else if r2[0] != ',' then None
      else match ParseElements(SkipWhitespace(r2[1..]), depth)
        case None => None
        case Some((vs, r3)) => Some(([v] + vs, r3))
  }

  /** `JsonDocument.Parse`: one value, with only whitespace around it.
      Empty text, and text of whitespace alone, is rejected. */
  function Parse(text: string): (r: Option<Json>)
    ensures (forall i :: 0 <= i < |text| ==> IsWhitespace(text[i])) ==> r.None?
  {
    OnlyWhitespaceSkipped(text);
    match ParseValue(SkipWhitespace(text), 0)
    case Some((v, rest)) => if SkipWhitespace(rest) == [] then Some(v) else None
    case None => None
  }

  lemma {:induction false} OnlyWhitespaceSkipped(s: string)
    ensures (forall i :: 0 <= i < |s| ==> IsWhitespace(s[i])) ==> SkipWhitespace(s) == ""
  {
    if |s| > 0 && IsWhitespace(s[0]) {
      OnlyWhitespaceSkipped(s[1..]);
    }
  }

  lemma {:induction false} SkipLeadingWhitespace(ws: string, text: string)
    requires forall i :: 0 <= i < |ws| ==> IsWhitespace(ws[i])
    ensures SkipWhitespace(ws + text) == SkipWhitespace(text)
  {
    if |ws| > 0 {
      SkipLeadingWhitespace(ws[1..], text);
      assert (ws + text)[1..] == ws[1..] + text;
    } else {
      assert ws + text == text;
    }
  }

  /** Whitespace before the value does not change what is parsed. */
  lemma ParseSkipsLeadingWhitespace(ws: string, text: string)
    requires forall i :: 0 <= i < |ws| ==> IsWhitespace(ws[i])
    ensures Parse(ws + text) == Parse(text)
  {
    SkipLeadingWhitespace(ws, text);
  }

  // ---------------------------------------------------------------------
  // Reading a parsed document

  datatype AccessError = NotAnObject | NotAString | InvalidUtf16

  /** The value of the last member called `name`, if any. */
  function LastMember(ms: seq<(string, Json)>, name: string): (r: Option<Json>)
    ensures r.None? <==> forall i :: 0 <= i < |ms| ==> ms[i].0 != name
    ensures r.Some? ==> exists i :: 0 <= i < |ms| && ms[i] == (name, r.value)
                                    && forall k :: i < k < |ms| ==> ms[k].0 != name
  {
    if |ms| == 0 then None
    else if ms[|ms| - 1].0 == name then Some(ms[|ms| - 1].1)
    else LastMember(ms[..|ms| - 1], name)
  }

  /** `JsonElement.TryGetProperty`, which throws on anything but an object
      and, among duplicate names, finds the last. */
  function GetProperty(j: Json, name: string): (r: Result<Option<Json>, AccessError>)
    ensures r.Failure? <==> !j.Obj?
    ensures r.Success? ==> r.value == LastMember(j.members, name)
  {
    if j.Obj? then Success(LastMember(j.members, name)) else Failure(NotAnObject)
  }

  /** `JsonElement.GetString`: the text of a string, null for a JSON null,
      and a failure for every other kind of value and for a string that
      cannot be unescaped. */
  function GetString(j: Json): (r: Result<Option<string>, AccessError>)
    ensures r.Failure? <==> !(j.Str? || j.Null?)
    ensures r == Success(None) <==> j.Null?
    ensures j.Str? ==> r == Success(Some(j.text))
    ensures j.Unpaired? ==> r == Failure(InvalidUtf16)
  {
    match j
    case Str(t) => Success(Some(t))
    case Null => Success(None)
    case Unpaired => Failure(InvalidUtf16)
    case _ => Failure(NotAString)
  }

  // ---------------------------------------------------------------------
  // Writing strings

  function HexDigit(n: int): (c: char)
    requires 0 <= n < 16
    ensures HexValue(c) == Some(n)
  {
    if n < 10 then ('0' as int + n) as char else ('A' as int + n - 10) as char
  }

  /** Four upper-case hex digits. */
  function Hex4(u: int): (s: string)
    requires 0 <= u < 0x10000
    ensures |s| == 4
  {
    [HexDigit(u / 4096), HexDigit((u / 256) % 16), HexDigit((u / 16) % 16), HexDigit(u % 16)]
  }

  /** Characters the default encoder refuses to write literally even though
      they are printable ASCII: the quote and the HTML-sensitive ones. */
  predicate MustEscape(c: char) {
    c == '"' || c == '&' || c == '\'' || c == '+' || c == '<' || c == '>' || c == '`'
  }

  /** How the serializer writes one character inside a string: printable
      ASCII literally unless it must be escaped, backslash and the five
      common control characters as two-character escapes, and everything
      else as `\u` escapes of its UTF-16 code units. */
  function EscapeChar(c: char): (s: string)
    ensures |s| > 0 && s[0] != '"'
  {
    var x := c as int;
    if c == '\\' then "\\\\"
    else if c == '\U{8}' then "\\b"
    else if c == '\t' then "\\t"
    else if c == '\n' then "\\n"
    else if c == '\U{C}' then "\\f"
    else if c == '\r' then "\\r"
    else if 0x20 <= x < 0x7F && !MustEscape(c) then [c]
    else if x < 0x10000 then "\\u" + Hex4(x)
    else "\\u" + Hex4(HighUnit(x)) + "\\u" + Hex4(LowUnit(x))
  }

  function EscapeString(s: string): string {
    if |s| == 0 then "" else EscapeChar(s[0]) + EscapeString(s[1..])
  }

  /** A string value as the serializer writes it. */
  function Quote(s: string): (q: string)
    ensures |q| >= 2 && q[0] == '"'
  {
    "\"" + EscapeString(s) + "\""
  }

  // ---------------------------------------------------------------------
  // Reading back what was written

  lemma Hex4Arithmetic(u: int)
    requires 0 <= u < 0x10000
    ensures (u / 4096) * 4096 + ((u / 256) % 16) * 256 + ((u / 16) % 16) * 16 + u % 16 == u
  {
    var u1, u2, u3 := u / 16, u / 256, u / 4096;
    assert u == u1 * 16 + u % 16;
    assert u1 == u2 * 16 + u1 % 16;
    assert u2 == u3 * 16 + u2 % 16;
    assert u2 == u1 / 16 && u3 == u2 / 16;
  }

  lemma ParseHex4Hex4(u: int, rest: string)
    requires 0 <= u < 0x10000
    ensures ParseHex4(Hex4(u) + rest) == Some(u)
  {
    Hex4Arithmetic(u);
  }

  /** A `\uXXXX` escape of a code unit that is not a surrogate. */
  lemma ParseUnitEscape(x: int, rest: string)
    requires 0 <= x < 0x10000 && !IsHighSurrogate(x) && !IsLowSurrogate(x)
    ensures ParseStringChar("\\u" + Hex4(x) + rest) == Some((x as char, rest))
  {
    var s := "\\u" + Hex4(x) + rest;
    assert s[1..][1..] == Hex4(x) + rest;
    ParseHex4Hex4(x, rest);
    assert (Hex4(x) + rest)[4..] == rest;
  }

  lemma SurrogateArithmetic(x: int)
    requires 0x10000 <= x < 0x110000
    ensures IsHighSurrogate(HighUnit(x)) && IsLowSurrogate(LowUnit(x))
    ensures Combine(HighUnit(x), LowUnit(x)) == x
  {
  }

  /** The two code units of a pair, after the first `\u`. */
  lemma ParsePairUnits(hi: int, lo: int, rest: string)
    requires IsHighSurrogate(hi) && IsLowSurrogate(lo)
    requires Combine(hi, lo) < 0x110000
    ensures ParseUnicodeEscape(Hex4(hi) + "\\u" + Hex4(lo) + rest) == Some((Combine(hi, lo) as char, rest))
  {
    var tail := Hex4(lo) + rest;
    var u := Hex4(hi) + "\\u" + tail;
    assert Hex4(hi) + "\\u" + Hex4(lo) + rest == u;
    ParseHex4Hex4(hi, "\\u" + tail);
    assert u[4] == '\\' && u[5] == 'u';
    assert u[6..] == tail;
    ParseHex4Hex4(lo, rest);
    assert u[10..] == rest;
  }

  /** `\u` hands the rest of the text to the code unit reader. */
  lemma ParseUnicodeChar(u: string)
    ensures ParseStringChar("\\u" + u) == ParseUnicodeEscape(u)
  {
    var s := "\\u" + u;
    assert s[1..] == "u" + u;
    assert s[1..][1..] == u;
  }

  /** A surrogate pair written as two escapes. */
  lemma ParsePairEscape(c: char, rest: string)
    requires c as int >= 0x10000
    ensures ParseStringChar("\\u" + Hex4(HighUnit(c as int)) + "\\u" + Hex4(LowUnit(c as int)) + rest) == Some((c, rest))
  {
    var x := c as int;
    var hi, lo := HighUnit(x), LowUnit(x);
    SurrogateArithmetic(x);
    var u := Hex4(hi) + "\\u" + Hex4(lo) + rest;
    assert "\\u" + Hex4(hi) + "\\u" + Hex4(lo) + rest == "\\u" + u;
    ParseUnicodeChar(u);
    ParsePairUnits(hi, lo, rest);
  }

  /** Each character reads back from its escaped form. */
  lemma ParseEscapedChar(c: char, rest: string)
    ensures ParseStringChar(EscapeChar(c) + rest) == Some((c, rest))
  {
    var x := c as int;
    var e := EscapeChar(c);
    if c == '\\' || c == '\U{8}' || c == '\t' || c == '\n' || c == '\U{C}' || c == '\r' {
      assert |e| == 2 && e[0] == '\\';
      assert (e + rest)[1..] == [e[1]] + rest;
      assert (e + rest)[2..] == rest;
    } else if 0x20 <= x < 0x7F && !MustEscape(c) {
      assert (e + rest)[1..] == rest;
    } else if x < 0x10000 {
      ParseUnitEscape(x, rest);
    } else {
      ParsePairEscape(c, rest);
    }
  }

  lemma EscapeStringUnfold(s: string)
    requires |s| > 0
    ensures EscapeString(s) == EscapeChar(s[0]) + EscapeString(s[1..])
  {
  }

  lemma ParseStringBodyStep(b: string, c: char, rest: string, t: string, after: string)
    requires |b| > 0 && b[0] != '"'
    requires ParseStringChar(b) == Some((c, rest))
    requires ParseStringBody(rest) == Some((t, after))
    ensures ParseStringBody(b) == Some(([c] + t, after))
  {
  }

  /** An escaped string body reads back up to its closing quote. */
  lemma {:induction false} ParseEscapedString(s: string, rest: string)
    ensures ParseStringBody(EscapeString(s) + "\"" + rest) == Some((s, rest))
  {
    if |s| == 0 {
      assert EscapeString(s) + "\"" + rest == "\"" + rest;
    } else {
      var e, tail := EscapeChar(s[0]), EscapeString(s[1..]) + "\"" + rest;
      EscapeStringUnfold(s);
      assert EscapeString(s) + "\"" + rest == e + tail;
      assert (e + tail)[0] == e[0];
      ParseEscapedChar(s[0], tail);
      ParseEscapedString(s[1..], rest);
      ParseStringBodyStep(e + tail, s[0], tail, s[1..], rest);
      assert s == [s[0]] + s[1..];
    }
  }

  /** The reader's check passes every character the full parse reads,
      and stops where it stops. */
  lemma ScanStringChar(s: string, c: char, rest: string)
    requires |s| > 0 && s[0] != '"'
    requires ParseStringChar(s) == Some((c, rest))
    ensures ScanStringBody(s) == ScanStringBody(rest)
  {
    if s[0] == '\\' && s[1] == 'u' {
      var u := s[2..];
      assert u == s[1..][1..];
      if IsHighSurrogate(ParseHex4(u).value) {
        var t := s[6..];
        assert t[2..] == s[8..] && s[8..] == u[6..];
        assert t[6..] == s[12..] && s[12..] == u[10..];
      } else {
        assert s[6..] == u[4..];
      }
    }
  }

  /** Every string body the full parse accepts passes the reader's check,
      which ends at the same closing quote. */
  lemma {:induction false} ScanCoversParse(s: string)
    decreases |s|
    ensures ParseStringBody(s).Some? ==> ScanStringBody(s) == Some(ParseStringBody(s).value.1)
  {
    if ParseStringBody(s).Some? && s[0] != '"' {
      var cr := ParseStringChar(s).value;
      ScanStringChar(s, cr.0, cr.1);
      ScanCoversParse(cr.1);
    }
  }

  /** A lone high surrogate escape is accepted by the reader and read as
      a string that `GetString` refuses. */
  lemma LoneSurrogate(rest: string, depth: nat)
    ensures ParseValue("\"\\uD800\"" + rest, depth) == Some((Unpaired, rest))
  {
    var s := "\"\\uD800\"" + rest;
    assert s[1..][1..] == "uD800\"" + rest;
    assert s[1..][1..][1..] == "D800\"" + rest;
    assert ParseHex4(s[1..][1..][1..]) == Some(0xD800);
    assert ParseStringBody(s[1..]).None?;
    assert s[1..][2..] == s[1..][1..][1..];
    assert s[1..][6..] == "\"" + rest && ("\"" + rest)[1..] == rest;
    assert ScanStringBody(s[1..][6..]) == Some(rest);
  }

  predicate IsPlainWord(w: string) {
    forall i :: 0 <= i < |w| ==> 'a' <= w[i] <= 'z' || 'A' <= w[i] <= 'Z' || w[i] == '.'
  }

  /** A string body of letters and dots reads as itself. */
  lemma {:induction false} ParsePlainBody(w: string, rest: string)
    requires IsPlainWord(w)
    ensures ParseStringBody(w + "\"" + rest) == Some((w, rest))
  {
    var s := w + "\"" + rest;
    if |w| == 0 {
      assert s == "\"" + rest;
    } else {
      ParsePlainBody(w[1..], rest);
      assert s[1..] == w[1..] + "\"" + rest;
      assert ParseStringChar(s) == Some((w[0], s[1..]));
      ParseStringBodyStep(s, w[0], s[1..], w[1..], rest);
      assert w == [w[0]] + w[1..];
    }
  }

  /** A quoted string is read back as the same string value. */
  lemma ParseQuoted(s: string, rest: string, depth: nat)
    ensures ParseValue(Quote(s) + rest, depth) == Some((Str(s), rest))
  {
    var t := Quote(s) + rest;
    assert t[1..] == EscapeString(s) + "\"" + rest;
    ParseEscapedString(s, rest);
  }

  /** One unfolding of `ParseMembers` for an object with a single member
      and no whitespace. */
  lemma ParseOneMember(s: string, depth: nat, key: string, r1: string, v: Json, r4: string)
    requires |s| > 0 && s[0] == '"'
    requires ParseStringBody(s[1..]) == Some((key, r1))
    requires |r1| > 1 && r1[0] == ':' && !IsWhitespace(r1[1])
    requires ParseValue(r1[1..], depth) == Some((v, r4))
    requires |r4| > 0 && r4[0] == '}'
    ensures ParseMembers(s, depth) == Some(([(key, v)], r4[1..]))
  {
  }

  /** The body of a quoted string reads back up to its closing quote. */
  lemma ParseQuotedBody(s: string, rest: string)
    ensures |Quote(s) + rest| > 0
    ensures ParseStringBody((Quote(s) + rest)[1..]) == Some((s, rest))
  {
    assert (Quote(s) + rest)[1..] == EscapeString(s) + "\"" + rest;
    ParseEscapedString(s, rest);
  }

  lemma ParseSingleMember(key: string, value: string)
    ensures ParseMembers(Quote(key) + (":" + (Quote(value) + "}")), 1) == Some(([(key, Str(value))], ""))
  {
    var v := Quote(value) + "}";
    var afterKey := ":" + v;
    ParseQuotedBody(key, afterKey);
    assert afterKey[1..] == v;
    ParseQuoted(value, "}", 1);
    ParseOneMember(Quote(key) + afterKey, 1, key, afterKey, Str(value), "}");
  }

  /** The serializer's output for an object with one string-valued member,
      as `JsonSerializer.Serialize` writes an anonymous object with one
      string property. */
  function SingleMemberObject(key: string, value: string): string {
    "{" + (Quote(key) + (":" + (Quote(value) + "}")))
  }

  lemma ParseObjectOfMembers(s: string, depth: nat, ms: seq<(string, Json)>, rest: string)
    requires |s| > 0 && s[0] == '"'
    requires ParseMembers(s, depth) == Some((ms, rest))
    ensures ParseObject(s, depth) == Some((Obj(ms), rest))
  {
  }

  lemma ParseValueOfObject(body: string, r: (Json, string))
    requires ParseObject(body, 1) == Some(r)
    ensures ParseValue("{" + body, 0) == Some(r)
  {
    var s := "{" + body;
    assert s[0] == '{';
    assert s[1..] == body;
  }

  lemma ParseWhole(text: string, v: Json)
    requires |text| > 0 && !IsWhitespace(text[0])
    requires ParseValue(text, 0) == Some((v, ""))
    ensures Parse(text) == Some(v)
  {
  }

  /** A document that is one object whose members parse to `ms`. */
  lemma ParseBracedMembers(body: string, ms: seq<(string, Json)>)
    requires |body| > 0 && body[0] == '"'
    requires ParseMembers(body, 1) == Some((ms, ""))
    ensures Parse("{" + body) == Some(Obj(ms))
  {
    ParseObjectOfMembers(body, 1, ms, "");
    ParseValueOfObject(body, (Obj(ms), ""));
    ParseWhole("{" + body, Obj(ms));
  }

  /** Parsing what the serializer wrote for a one-member object gives back
      that member. */
  lemma ParseSingleMemberObject(key: string, value: string)
    ensures Parse(SingleMemberObject(key, value)) == Some(Obj([(key, Str(value))]))
  {
    ParseSingleMember(key, value);
    ParseBracedMembers(Quote(key) + (":" + (Quote(value) + "}")), [(key, Str(value))]);
  }

  /** One unfolding of `ParseMembers` for a member followed by more. */
  lemma ParseMemberThenMore(s: string, depth: nat, key: string, r1: string, v: Json, r4: string,
                            ms: seq<(string, Json)>, r6: string)
    ensures (
      && |s| > 0 && s[0] == '"'
      && ParseStringBody(s[1..]) == Some((key, r1))
      && |r1| > 1 && r1[0] == ':' && !IsWhitespace(r1[1])
      && ParseValue(r1[1..], depth) == Some((v, r4))
      && |r4| > 1 && r4[0] == ',' && !IsWhitespace(r4[1])
      && ParseMembers(r4[1..], depth) == Some((ms, r6)))
      ==> ParseMembers(s, depth) == Some(([(key, v)] + ms, r6))
  {
  }

  lemma ParseUnpairedTail(t: string, v: string)
    requires v == "\"\\uD800\"" + "}"
    requires t == "\"" + "x" + "\":" + v
    ensures ParseMembers(t, 1) == Some(([("x", Unpaired)], ""))
  {
    LoneSurrogate("}", 1);
    ParseKeyThen("x", v, t);
    ParseOneMember(t, 1, "x", ":" + v, Unpaired, "}");
  }

  lemma ParseKeyThen(w: string, v: string, t: string)
    requires IsPlainWord(w)
    requires t == "\"" + w + "\":" + v
    ensures |t| > 0 && ParseStringBody(t[1..]) == Some((w, ":" + v)) && (":" + v)[1..] == v
  {
    ParsePlainBody(w, ":" + v);
    assert t[1..] == w + "\"" + (":" + v);
  }

  lemma ParsePlainValue(w: string, s: string, rest: string)
    requires IsPlainWord(w)
    requires s == "\"" + w + "\"" + rest
    ensures ParseValue(s, 1) == Some((Str(w), rest))
  {
    ParsePlainBody(w, rest);
    assert s[1..] == w + "\"" + rest;
  }

  lemma ParseUnpairedBody(b: string, nt: string, t: string, v: string)
    requires v == "\"\\uD800\"" + "}"
    requires t == "\"" + "x" + "\":" + v
    requires nt == "\"" + "a.png" + "\"" + ("," + t)
    requires b == "\"" + "blobName" + "\":" + nt
    ensures ParseMembers(b, 1) == Some(([("blobName", Str("a.png")), ("x", Unpaired)], ""))
  {
    ParseUnpairedTail(t, v);
    ParsePlainValue("a.png", nt, "," + t);
    ParseKeyThen("blobName", nt, b);
    assert ("," + t)[1..] == t;
    ParseMemberThenMore(b, 1, "blobName", ":" + nt, Str("a.png"), "," + t, [("x", Unpaired)], "");
    assert [("blobName", Str("a.png"))] + [("x", Unpaired)] == [("blobName", Str("a.png")), ("x", Unpaired)];
  }

  lemma UnpairedDocumentText(text: string, b: string, nt: string, t: string, v: string)
    requires text == "{\"blobName\":\"a.png\",\"x\":\"\\uD800\"}"
    requires v == "\"\\uD800\"" + "}"
    requires t == "\"" + "x" + "\":" + v
    requires nt == "\"" + "a.png" + "\"" + ("," + t)
    requires b == "\"" + "blobName" + "\":" + nt
    ensures text == "{" + b
  {
  }

  /** An unpaired surrogate in one member does not stop the document from
      parsing: the other members read as usual. */
  lemma UnpairedMemberDocument(text: string)
    requires text == "{\"blobName\":\"a.png\",\"x\":\"\\uD800\"}"
    ensures Parse(text) == Some(Obj([("blobName", Str("a.png")), ("x", Unpaired)]))
  {
    var v := "\"\\uD800\"" + "}";
    var t := "\"" + "x" + "\":" + v;
    var nt := "\"" + "a.png" + "\"" + ("," + t);
    var b := "\"" + "blobName" + "\":" + nt;
    UnpairedDocumentText(text, b, nt, t, v);
    ParseUnpairedBody(b, nt, t, v);
    ParseBracedMembers(b, [("blobName", Str("a.png")), ("x", Unpaired)]);
  }
}
