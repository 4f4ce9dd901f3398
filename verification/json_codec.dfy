/**
 `json.dumps` and `json.loads` with Python's defaults, for the one document shape the URL
 collection passes through them: a list whose elements are `null` or lists of strings.

 The encoder follows `ensure_ascii=True`: `"` and `\` are escaped, the control characters
 with a short form use it (`\b \f \n \r \t`), every other character outside printable
 ASCII becomes `\uXXXX` with lower-case hex digits, and a character beyond the Basic
 Multilingual Plane becomes a surrogate pair. Items are separated by `", "`.

 The decoder follows the strict scanner: whitespace (space, tab, newline, carriage return)
 may surround values and separators, both hex-digit cases are accepted, a raw control
 character inside a string is an error, and a surrogate pair is combined into one
 character. Any document outside the modelled shape is reported as a decode error.
 */
module JsonCodec {
  import opened Common

  type Entry = Option<seq<string>>

  // ---------------------------------------------------------------------------
  // Encoding
  // ---------------------------------------------------------------------------

  predicate IsPrintableAscii(c: char)
  {
    ' ' <= c <= '~'
  }

  /** Every character of `s` is printable ASCII. */
  ghost predicate AllAscii(s: string)
  {
    forall i :: 0 <= i < |s| ==> IsPrintableAscii(s[i])
  }

  lemma AllAsciiConcat(a: string, b: string)
    requires AllAscii(a) && AllAscii(b)
    ensures AllAscii(a + b)
  {
  }

  function HexDigit(d: nat): (c: char)
    requires d < 16
    ensures IsPrintableAscii(c)
  {
    if d < 10 then ('0' as int + d) as char else ('a' as int + d - 10) as char
  }

  /** Four lower-case hex digits, most significant first. */
  function Hex4(n: nat): (h: string)
    requires n < 0x10000
    ensures |h| == 4
  {
    var n1 := n / 16;
    var n2 := n1 / 16;
    [HexDigit(n2 / 16), HexDigit(n2 % 16), HexDigit(n1 % 16), HexDigit(n % 16)]
  }

  /** The escape of one character under `ensure_ascii`. */
  function EscapeChar(c: char): (e: string)
    ensures |e| > 0
  {
    if c == '"' then "\\\""
    else if c == '\\' then "\\\\"
    else if c == '\n' then "\\n"
    else if c == '\r' then "\\r"
    else if c == '\t' then "\\t"
    else if c == 8 as char then "\\b"
    else if c == 12 as char then "\\f"
    else if IsPrintableAscii(c) then [c]
    else if c as int < 0x10000 then "\\u" + Hex4(c as int)
    else
      var n := c as int - 0x10000;
      "\\u" + Hex4(0xD800 + n / 0x400) + "\\u" + Hex4(0xDC00 + n % 0x400)
  }

  function EscapeString(s: string): string
  {
    if |s| == 0 then "" else EscapeChar(s[0]) + EscapeString(s[1..])
  }

  function DumpString(s: string): string
  {
    "\"" + EscapeString(s) + "\""
  }

  /** The items of a string list, separated by `", "`, without the brackets. */
  function DumpStringItems(xs: seq<string>): string
  {
    if |xs| == 0 then ""
    else if |xs| == 1 then DumpString(xs[0])
    else DumpString(xs[0]) + ", " + DumpStringItems(xs[1..])
  }

  function DumpEntry(e: Entry): string
  {
    match e
    case None => "null"
    case Some(xs) => "[" + DumpStringItems(xs) + "]"
  }

  function DumpEntryItems(es: seq<Entry>): string
  {
    if |es| == 0 then ""
    else if |es| == 1 then DumpEntry(es[0])
    else DumpEntry(es[0]) + ", " + DumpEntryItems(es[1..])
  }

  /** `json.dumps` of a list of `null`s and string lists. */
  function Dumps(es: seq<Entry>): string
  {
    "[" + DumpEntryItems(es) + "]"
  }

  // ---------------------------------------------------------------------------
  // Decoding
  // ---------------------------------------------------------------------------

  /** A decoded value and the input left after it. */
  datatype Parsed<+T> = Parsed(value: T, rest: string)

  predicate IsWhitespace(c: char)
  {
    c == ' ' || c == '\t' || c == '\n' || c == '\r'
  }

  function SkipWhitespace(s: string): (r: string)
    ensures |r| <= |s|
    ensures |r| == 0 || !IsWhitespace(r[0])
  {
    if |s| > 0 && IsWhitespace(s[0]) then SkipWhitespace(s[1..]) else s
  }

  function HexValue(c: char): (v: Option<nat>)
    ensures v.Some? ==> v.value < 16
  {
    if '0' <= c <= '9' then Some(c as int - '0' as int)
    else if 'a' <= c <= 'f' then Some(c as int - 'a' as int + 10)
    else if 'A' <= c <= 'F' then Some(c as int - 'A' as int + 10)
    else None
  }

  /** The value of four hex digits. */
  function ParseHex4(h: string): (v: Option<nat>)
    requires |h| == 4
    ensures v.Some? ==> v.value < 0x10000
  {
    match (HexValue(h[0]), HexValue(h[1]), HexValue(h[2]), HexValue(h[3]))
    case (Some(a), Some(b), Some(c), Some(d)) => Some(((a * 16 + b) * 16 + c) * 16 + d)
    case _ => None
  }

  predicate IsHighSurrogate(n: int)
  {
    0xD800 <= n < 0xDC00
  }

  predicate IsLowSurrogate(n: int)
  {
    0xDC00 <= n < 0xE000
  }

  /** The character of an escape sequence; `s` starts just after the backslash. A lone
      surrogate is not a character and is rejected. */
  function ParseEscape(s: string): (r: Result<Parsed<char>>)
    ensures r.Ok? ==> |r.value.rest| < |s|
    ensures r.Err? ==> r.error == JsonDecodeError
  {
    if |s| == 0 then Err(JsonDecodeError)
    else if s[0] == '"' then Ok(Parsed('"', s[1..]))
    else if s[0] == '\\' then Ok(Parsed('\\', s[1..]))
    else if s[0] == '/' then Ok(Parsed('/', s[1..]))
    else if s[0] == 'b' then Ok(Parsed(8 as char, s[1..]))
    else if s[0] == 'f' then Ok(Parsed(12 as char, s[1..]))
    else if s[0] == 'n' then Ok(Parsed('\n', s[1..]))
    else if s[0] == 'r' then Ok(Parsed('\r', s[1..]))
    else if s[0] == 't' then Ok(Parsed('\t', s[1..]))
    else if s[0] == 'u' && |s| >= 5 && ParseHex4(s[1..5]).Some? then
      var n := ParseHex4(s[1..5]).value;
      if IsHighSurrogate(n) && |s| >= 11 && s[5] == '\\' && s[6] == 'u'
         && ParseHex4(s[7..11]).Some? && IsLowSurrogate(ParseHex4(s[7..11]).value)
      then
        var m := ParseHex4(s[7..11]).value;
        Ok(Parsed((0x10000 + (n - 0xD800) * 0x400 + (m - 0xDC00)) as char, s[11..]))
      else if IsHighSurrogate(n) || IsLowSurrogate(n) then Err(JsonDecodeError)
      else Ok(Parsed(n as char, s[5..]))
    else Err(JsonDecodeError)
  }

  /** The characters of a string up to its closing quote; `s` starts just after the
      opening quote. */
  function ParseStringBody(s: string): (r: Result<Parsed<string>>)
    ensures r.Ok? ==> |r.value.rest| < |s|
    ensures r.Err? ==> r.error == JsonDecodeError
    decreases |s|
  {
    if |s| == 0 then Err(JsonDecodeError)
    else if s[0] == '"' then Ok(Parsed("", s[1..]))
    else if s[0] == '\\' then
      var e :- ParseEscape(s[1..]);
      var t :- ParseStringBody(e.rest);
      Ok(Parsed([e.value] + t.value, t.rest))
    else if s[0] < ' ' then Err(JsonDecodeError)
    else
      var t :- ParseStringBody(s[1..]);
      Ok(Parsed([s[0]] + t.value, t.rest))
  }

  function ParseString(s: string): (r: Result<Parsed<string>>)
    ensures r.Ok? ==> |r.value.rest| < |s|
    ensures r.Err? ==> r.error == JsonDecodeError
  {
    if |s| > 0 && s[0] == '"' then ParseStringBody(s[1..]) else Err(JsonDecodeError)
  }

  /** String items up to the closing bracket; `s` starts at the first item. */
  function ParseStringItems(s: string): (r: Result<Parsed<seq<string>>>)
    ensures r.Ok? ==> |r.value.rest| < |s|
    ensures r.Err? ==> r.error == JsonDecodeError
    decreases |s|
  {
    var first :- ParseString(s);
    var r := SkipWhitespace(first.rest);
    if |r| > 0 && r[0] == ',' then
      var more :- ParseStringItems(SkipWhitespace(r[1..]));
      Ok(Parsed([first.value] + more.value, more.rest))
    else if |r| > 0 && r[0] == ']' then Ok(Parsed([first.value], r[1..]))
    else Err(JsonDecodeError)
  }

  function ParseEntry(s: string): (r: Result<Parsed<Entry>>)
    ensures r.Ok? ==> |r.value.rest| < |s|
    ensures r.Err? ==> r.error == JsonDecodeError
  {
    if |s| >= 4 && s[0] == 'n' && s[..4] == "null" then Ok(Parsed(None, s[4..]))
    else if |s| > 0 && s[0] == '[' then
      var r := SkipWhitespace(s[1..]);
      if |r| > 0 && r[0] == ']' then Ok(Parsed(Some([]), r[1..]))
      else
        var items :- ParseStringItems(r);
        Ok(Parsed(Some(items.value), items.rest))
    else Err(JsonDecodeError)
  }

  /** Entries up to the closing bracket; `s` starts at the first entry. */
  function ParseEntryItems(s: string): (r: Result<Parsed<seq<Entry>>>)
    ensures r.Ok? ==> |r.value.rest| < |s|
    ensures r.Err? ==> r.error == JsonDecodeError
    decreases |s|
  {
    var first :- ParseEntry(s);
    var r := SkipWhitespace(first.rest);
    if |r| > 0 && r[0] == ',' then
      var more :- ParseEntryItems(SkipWhitespace(r[1..]));
      Ok(Parsed([first.value] + more.value, more.rest))
    else if |r| > 0 && r[0] == ']' then Ok(Parsed([first.value], r[1..]))
    else Err(JsonDecodeError)
  }

  /** A bracketed list of entries; `s` starts at the opening bracket. */
  function ParseEntryList(s: string): (r: Result<Parsed<seq<Entry>>>)
    ensures r.Err? ==> r.error == JsonDecodeError
  {
    if |s| > 0 && s[0] == '[' then
      var r := SkipWhitespace(s[1..]);
      if |r| > 0 && r[0] == ']' then Ok(Parsed([], r[1..])) else ParseEntryItems(r)
    else Err(JsonDecodeError)
  }

  /** `json.loads` of a list of `null`s and string lists; trailing text other than
      whitespace is an error. */
  function Loads(s: string): (r: Result<seq<Entry>>)
    ensures r.Err? ==> r.error == JsonDecodeError
  {
    var doc :- ParseEntryList(SkipWhitespace(s));
    if SkipWhitespace(doc.rest) == "" then Ok(doc.value) else Err(JsonDecodeError)
  }

  // ---------------------------------------------------------------------------
  // Round trip
  // ---------------------------------------------------------------------------

  lemma HexDigitValue(d: nat)
    requires d < 16
    ensures HexValue(HexDigit(d)) == Some(d)
  {
  }

  lemma Hex4RoundTrip(n: nat)
    requires n < 0x10000
    ensures ParseHex4(Hex4(n)) == Some(n)
  {
    var n1 := n / 16;
    var n2 := n1 / 16;
    HexDigitValue(n2 / 16);
    HexDigitValue(n2 % 16);
    HexDigitValue(n1 % 16);
    HexDigitValue(n % 16);
    assert n2 == (n2 / 16) * 16 + n2 % 16;
    assert n1 == n2 * 16 + n1 % 16;
    assert n == n1 * 16 + n % 16;
  }

  /** Decoding one escaped character and then the rest of the string. */
  lemma EscapeCharRoundTrip(c: char, more: string, v: string, rest: string)
    requires ParseStringBody(more) == Ok(Parsed(v, rest))
    ensures ParseStringBody(EscapeChar(c) + more) == Ok(Parsed([c] + v, rest))
  {
    if c == '"' || c == '\\' || c == '\n' || c == '\r' || c == '\t' || c == 8 as char || c == 12 as char {
      ShortEscapeRoundTrip(c, more, v, rest);
    } else if IsPrintableAscii(c) {
      PlainCharRoundTrip(c, more, v, rest);
    } else if c as int < 0x10000 {
      UnicodeEscapeRoundTrip(c, more, v, rest);
    } else {
      SurrogatePairRoundTrip(c, more, v, rest);
    }
  }

  lemma ShortEscapeRoundTrip(c: char, more: string, v: string, rest: string)
    requires c == '"' || c == '\\' || c == '\n' || c == '\r' || c == '\t' || c == 8 as char || c == 12 as char
    requires ParseStringBody(more) == Ok(Parsed(v, rest))
    ensures ParseStringBody(EscapeChar(c) + more) == Ok(Parsed([c] + v, rest))
  {
    var s := EscapeChar(c) + more;
    assert |EscapeChar(c)| == 2 && EscapeChar(c)[0] == '\\';
    assert s[1..][1..] == more;
    assert ParseEscape(s[1..]) == Ok(Parsed(c, more));
  }

  lemma PlainCharRoundTrip(c: char, more: string, v: string, rest: string)
    requires IsPrintableAscii(c) && c != '"' && c != '\\'
    requires ParseStringBody(more) == Ok(Parsed(v, rest))
    ensures ParseStringBody(EscapeChar(c) + more) == Ok(Parsed([c] + v, rest))
  {
    var s := EscapeChar(c) + more;
    assert EscapeChar(c) == [c];
    assert s[1..] == more;
  }

  lemma UnicodeEscapeRoundTrip(c: char, more: string, v: string, rest: string)
    requires !IsPrintableAscii(c) && c as int < 0x10000
    requires c != '\n' && c != '\r' && c != '\t' && c != 8 as char && c != 12 as char
    requires ParseStringBody(more) == Ok(Parsed(v, rest))
    ensures ParseStringBody(EscapeChar(c) + more) == Ok(Parsed([c] + v, rest))
  {
    var s := EscapeChar(c) + more;
    var h := Hex4(c as int);
    Hex4RoundTrip(c as int);
    assert EscapeChar(c) == "\\u" + h;
    var e := s[1..];
    assert e == "u" + h + more;
    assert e[1..5] == h;
    assert e[5..] == more;
    assert ParseEscape(e) == Ok(Parsed(c, more));
  }

  /** The high and low halves of a character beyond the Basic Multilingual Plane, and
      the decoder's recombination of them. */
  lemma SurrogateHalves(c: char)
    requires c as int >= 0x10000
    ensures var n := c as int - 0x10000;
      && IsHighSurrogate(0xD800 + n / 0x400) && IsLowSurrogate(0xDC00 + n % 0x400)
      && 0x10000 + (n / 0x400) * 0x400 + n % 0x400 == c as int
  {
  }

  lemma SurrogateEscapeShape(c: char, more: string)
    requires c as int >= 0x10000
    ensures var n := c as int - 0x10000;
      var e := (EscapeChar(c) + more)[1..];
      && |EscapeChar(c) + more| > 0 && (EscapeChar(c) + more)[0] == '\\'
      && |e| >= 11 && e[0] == 'u' && e[1..5] == Hex4(0xD800 + n / 0x400)
      && e[5] == '\\' && e[6] == 'u' && e[7..11] == Hex4(0xDC00 + n % 0x400) && e[11..] == more
  {
    var n := c as int - 0x10000;
    var hi := Hex4(0xD800 + n / 0x400);
    var lo := Hex4(0xDC00 + n % 0x400);
    assert EscapeChar(c) == "\\u" + hi + "\\u" + lo;
    EscapePairShape(hi, lo, more);
  }

  lemma EscapePairShape(hi: string, lo: string, more: string)
    requires |hi| == 4 && |lo| == 4
    ensures var e := ("\\u" + hi + "\\u" + lo + more)[1..];
      && |e| >= 11 && e[0] == 'u' && e[1..5] == hi
      && e[5] == '\\' && e[6] == 'u' && e[7..11] == lo && e[11..] == more
  {
    var e := ("\\u" + hi + "\\u" + lo + more)[1..];
    assert e == "u" + hi + "\\u" + lo + more;
  }

  /** The decoder's reading of `u` + four hex digits of a high half, `\u` and four hex
      digits of a low half. */
  lemma ParseSurrogatePair(e: string, hi: nat, lo: nat)
    requires IsHighSurrogate(hi) && IsLowSurrogate(lo)
    requires |e| >= 11 && e[0] == 'u' && ParseHex4(e[1..5]) == Some(hi)
    requires e[5] == '\\' && e[6] == 'u' && ParseHex4(e[7..11]) == Some(lo)
    ensures ParseEscape(e) == Ok(Parsed((0x10000 + (hi - 0xD800) * 0x400 + (lo - 0xDC00)) as char, e[11..]))
  {
  }

  /** One escape sequence followed by the rest of the string body. */
  lemma BodyAfterEscape(s: string, c: char, more: string, v: string, rest: string)
    requires |s| > 0 && s[0] == '\\' && ParseEscape(s[1..]) == Ok(Parsed(c, more))
    requires ParseStringBody(more) == Ok(Parsed(v, rest))
    ensures ParseStringBody(s) == Ok(Parsed([c] + v, rest))
  {
  }

  lemma SurrogatePairRoundTrip(c: char, more: string, v: string, rest: string)
    requires c as int >= 0x10000
    requires ParseStringBody(more) == Ok(Parsed(v, rest))
    ensures ParseStringBody(EscapeChar(c) + more) == Ok(Parsed([c] + v, rest))
  {
    var s := EscapeChar(c) + more;
    var n := c as int - 0x10000;
    var hi := 0xD800 + n / 0x400;
    var lo := 0xDC00 + n % 0x400;
    assert |s| > 0 && s[0] == '\\' && ParseEscape(s[1..]) == Ok(Parsed(c, more)) by {
      Hex4RoundTrip(hi);
      Hex4RoundTrip(lo);
      SurrogateHalves(c);
      SurrogateEscapeShape(c, more);
      ParseSurrogatePair(s[1..], hi, lo);
      assert (0x10000 + (hi - 0xD800) * 0x400 + (lo - 0xDC00)) as char == c;
    }
    BodyAfterEscape(s, c, more, v, rest);
  }

  lemma {:induction false} EscapeStringRoundTrip(s: string, rest: string)
    ensures ParseStringBody(EscapeString(s) + "\"" + rest) == Ok(Parsed(s, rest))
  {
    if |s| == 0 {
      assert EscapeString(s) + "\"" + rest == "\"" + rest;
      assert ("\"" + rest)[1..] == rest;
    } else {
      var tail := s[1..];
      assert [s[0]] + tail == s;
      var more := EscapeString(tail) + "\"" + rest;
      assert EscapeString(s) + "\"" + rest == EscapeChar(s[0]) + more by {
        assert EscapeString(s) == EscapeChar(s[0]) + EscapeString(tail);
      }
      assert ParseStringBody(more) == Ok(Parsed(tail, rest)) by {
        EscapeStringRoundTrip(tail, rest);
      }
      EscapeCharRoundTrip(s[0], more, tail, rest);
    }
  }

  lemma DumpStringRoundTrip(s: string, rest: string)
    ensures ParseString(DumpString(s) + rest) == Ok(Parsed(s, rest))
  {
    var t := DumpString(s) + rest;
    assert t[1..] == EscapeString(s) + "\"" + rest;
    EscapeStringRoundTrip(s, rest);
  }

  /** Whitespace skipping stops at once before a separator or a value the encoder wrote. */
  lemma SkipNothing(s: string)
    requires |s| > 0 && !IsWhitespace(s[0])
    ensures SkipWhitespace(s) == s
  {
  }

  lemma SkipSpace(s: string)
    requires |s| > 0 && !IsWhitespace(s[0])
    ensures SkipWhitespace(" " + s) == s
  {
    assert (" " + s)[1..] == s;
  }

  lemma Regroup(a: string, b: string, c: string, d: string, e: string)
    ensures a + b + c + d + e == a + (b + (c + d + e))
  {
  }

  lemma StringItemsLast(s: string, v: string, rest: string)
    requires ParseString(s) == Ok(Parsed(v, "]" + rest))
    ensures ParseStringItems(s) == Ok(Parsed([v], rest))
  {
    SkipNothing("]" + rest);
    assert ("]" + rest)[1..] == rest;
  }

  lemma StringItemsNext(s: string, v: string, tail: string, vs: seq<string>, rest: string)
    requires ParseString(s) == Ok(Parsed(v, ", " + tail))
    requires |tail| > 0 && !IsWhitespace(tail[0])
    requires ParseStringItems(tail) == Ok(Parsed(vs, rest))
    ensures ParseStringItems(s) == Ok(Parsed([v] + vs, rest))
  {
    SkipNothing(", " + tail);
    assert (", " + tail)[1..] == " " + tail;
    SkipSpace(tail);
  }

  lemma DumpStringItemsStart(xs: seq<string>, rest: string)
    requires |xs| > 0
    ensures |DumpStringItems(xs) + rest| > 0 && (DumpStringItems(xs) + rest)[0] == '"'
  {
  }

  lemma StringItemsShape(xs: seq<string>, rest: string)
    requires |xs| > 1
    ensures DumpStringItems(xs) + "]" + rest
      == DumpString(xs[0]) + (", " + (DumpStringItems(xs[1..]) + "]" + rest))
  {
    var head := DumpString(xs[0]);
    var items := DumpStringItems(xs[1..]);
    assert DumpStringItems(xs) == head + ", " + items;
    Regroup(head, ", ", items, "]", rest);
  }

  lemma StringItemsOne(x: string, rest: string)
    ensures ParseStringItems(DumpStringItems([x]) + "]" + rest) == Ok(Parsed([x], rest))
  {
    var s := DumpStringItems([x]) + "]" + rest;
    assert s == DumpString(x) + ("]" + rest);
    DumpStringRoundTrip(x, "]" + rest);
    StringItemsLast(s, x, rest);
  }

  lemma {:induction false} StringItemsRoundTrip(xs: seq<string>, rest: string)
    requires |xs| > 0
    ensures ParseStringItems(DumpStringItems(xs) + "]" + rest) == Ok(Parsed(xs, rest))
  {
    if |xs| == 1 {
      StringItemsOne(xs[0], rest);
      assert xs == [xs[0]];
    } else {
      var more := xs[1..];
      assert [xs[0]] + more == xs;
      var s := DumpStringItems(xs) + "]" + rest;
      var tail := DumpStringItems(more) + "]" + rest;
      assert ParseString(s) == Ok(Parsed(xs[0], ", " + tail)) by {
        StringItemsShape(xs, rest);
        DumpStringRoundTrip(xs[0], ", " + tail);
      }
      assert |tail| > 0 && !IsWhitespace(tail[0]) by {
        DumpStringItemsStart(more, "]" + rest);
      }
      assert ParseStringItems(tail) == Ok(Parsed(more, rest)) by {
        StringItemsRoundTrip(more, rest);
      }
      StringItemsNext(s, xs[0], tail, more, rest);
    }
  }

  lemma EntryRoundTrip(e: Entry, rest: string)
    ensures ParseEntry(DumpEntry(e) + rest) == Ok(Parsed(e, rest))
  {
    match e
    case None => NullRoundTrip(rest);
    case Some(xs) =>
      if |xs| == 0 {
        EmptyListRoundTrip(rest);
      } else {
        ListRoundTrip(xs, rest);
      }
  }

  lemma NullRoundTrip(rest: string)
    ensures ParseEntry(DumpEntry(None) + rest) == Ok(Parsed(None, rest))
  {
    var s := DumpEntry(None) + rest;
    assert s[..4] == "null";
    assert s[4..] == rest;
  }

  lemma EmptyListRoundTrip(rest: string)
    ensures ParseEntry(DumpEntry(Some([])) + rest) == Ok(Parsed(Some([]), rest))
  {
    var s := DumpEntry(Some([])) + rest;
    assert s == "[]" + rest;
    assert s[1..] == "]" + rest;
    SkipNothing("]" + rest);
    assert ("]" + rest)[1..] == rest;
  }

  lemma ListRoundTrip(xs: seq<string>, rest: string)
    requires |xs| > 0
    ensures ParseEntry(DumpEntry(Some(xs)) + rest) == Ok(Parsed(Some(xs), rest))
  {
    var items := DumpStringItems(xs);
    assert |items| > 0 && items[0] == '"' by {
      DumpStringItemsStart(xs, "");
      assert items + "" == items;
    }
    assert ParseStringItems(items + "]" + rest) == Ok(Parsed(xs, rest)) by {
      StringItemsRoundTrip(xs, rest);
    }
    ParseBracketedItems(items, xs, rest);
  }

  /** The decoder's reading of `[`, string items and the rest, for any text of the items
      that starts with a quote. */
  lemma ParseBracketedItems(items: string, xs: seq<string>, rest: string)
    requires |items| > 0 && items[0] == '"'
    requires ParseStringItems(items + "]" + rest) == Ok(Parsed(xs, rest))
    ensures ParseEntry("[" + items + "]" + rest) == Ok(Parsed(Some(xs), rest))
  {
    var s := "[" + items + "]" + rest;
    var body := items + "]" + rest;
    BracketSlice(items, rest);
    assert body[0] == '"';
    SkipNothing(body);
    ParseListEntry(s, xs, rest);
  }

  lemma BracketSlice(x: string, rest: string)
    ensures ("[" + x + "]" + rest)[0] == '['
    ensures ("[" + x + "]" + rest)[1..] == x + "]" + rest
  {
  }

  /** The decoder's reading of `[` followed by string items. */
  lemma ParseListEntry(s: string, xs: seq<string>, rest: string)
    requires |s| > 0 && s[0] == '['
    requires SkipWhitespace(s[1..]) == s[1..] && |s| > 1 && s[1] != ']'
    requires ParseStringItems(s[1..]) == Ok(Parsed(xs, rest))
    ensures ParseEntry(s) == Ok(Parsed(Some(xs), rest))
  {
  }

  lemma DumpEntryStart(e: Entry)
    ensures |DumpEntry(e)| > 0 && (DumpEntry(e)[0] == 'n' || DumpEntry(e)[0] == '[')
  {
  }

  lemma EntryItemsLast(s: string, e: Entry, rest: string)
    requires ParseEntry(s) == Ok(Parsed(e, "]" + rest))
    ensures ParseEntryItems(s) == Ok(Parsed([e], rest))
  {
    SkipNothing("]" + rest);
    assert ("]" + rest)[1..] == rest;
  }

  lemma EntryItemsNext(s: string, e: Entry, tail: string, es: seq<Entry>, rest: string)
    requires ParseEntry(s) == Ok(Parsed(e, ", " + tail))
    requires |tail| > 0 && !IsWhitespace(tail[0])
    requires ParseEntryItems(tail) == Ok(Parsed(es, rest))
    ensures ParseEntryItems(s) == Ok(Parsed([e] + es, rest))
  {
    SkipNothing(", " + tail);
    assert (", " + tail)[1..] == " " + tail;
    SkipSpace(tail);
  }

  lemma DumpEntryItemsStart(es: seq<Entry>, rest: string)
    requires |es| > 0
    ensures |DumpEntryItems(es) + rest| > 0
    ensures (DumpEntryItems(es) + rest)[0] == 'n' || (DumpEntryItems(es) + rest)[0] == '['
  {
    DumpEntryStart(es[0]);
  }

  lemma EntryItemsShape(es: seq<Entry>, rest: string)
    requires |es| > 1
    ensures DumpEntryItems(es) + "]" + rest
      == DumpEntry(es[0]) + (", " + (DumpEntryItems(es[1..]) + "]" + rest))
  {
    var head := DumpEntry(es[0]);
    var items := DumpEntryItems(es[1..]);
    assert DumpEntryItems(es) == head + ", " + items;
    Regroup(head, ", ", items, "]", rest);
  }

  lemma EntryItemsOne(e: Entry, rest: string)
    ensures ParseEntryItems(DumpEntryItems([e]) + "]" + rest) == Ok(Parsed([e], rest))
  {
    var s := DumpEntryItems([e]) + "]" + rest;
    assert s == DumpEntry(e) + ("]" + rest);
    EntryRoundTrip(e, "]" + rest);
    EntryItemsLast(s, e, rest);
  }

  lemma {:induction false} EntryItemsRoundTrip(es: seq<Entry>, rest: string)
    requires |es| > 0
    ensures ParseEntryItems(DumpEntryItems(es) + "]" + rest) == Ok(Parsed(es, rest))
  {
    if |es| == 1 {
      EntryItemsOne(es[0], rest);
      assert es == [es[0]];
    } else {
      var more := es[1..];
      assert [es[0]] + more == es;
      var s := DumpEntryItems(es) + "]" + rest;
      var tail := DumpEntryItems(more) + "]" + rest;
      assert ParseEntry(s) == Ok(Parsed(es[0], ", " + tail)) by {
        EntryItemsShape(es, rest);
        EntryRoundTrip(es[0], ", " + tail);
      }
      assert |tail| > 0 && !IsWhitespace(tail[0]) by {
        DumpEntryItemsStart(more, "]" + rest);
      }
      assert ParseEntryItems(tail) == Ok(Parsed(more, rest)) by {
        EntryItemsRoundTrip(more, rest);
      }
      EntryItemsNext(s, es[0], tail, more, rest);
    }
  }

  /** The outer list: an empty list, or its entries up to the closing bracket. */
  lemma EntryListRoundTrip(es: seq<Entry>)
    ensures ParseEntryList(Dumps(es)) == Ok(Parsed(es, ""))
  {
    if |es| == 0 {
      EmptyListDocument();
    } else {
      ListDocument(es);
    }
  }

  lemma EmptyListDocument()
    ensures ParseEntryList(Dumps([])) == Ok(Parsed([], ""))
  {
    var s := Dumps([]);
    assert s == "[]";
    assert s[1..] == "]";
    SkipNothing("]");
  }

  lemma ListDocument(es: seq<Entry>)
    requires |es| > 0
    ensures ParseEntryList(Dumps(es)) == Ok(Parsed(es, ""))
  {
    var items := DumpEntryItems(es);
    var s := Dumps(es);
    var body := items + "]" + "";
    assert s[0] == '[' && s[1..] == body by {
      BracketSlice(items, "");
      assert s == "[" + items + "]" + "";
    }
    assert SkipWhitespace(body) == body && body[0] != ']' by {
      DumpEntryItemsStart(es, "]");
      assert body == items + "]";
      SkipNothing(body);
    }
    assert ParseEntryItems(body) == Ok(Parsed(es, "")) by {
      EntryItemsRoundTrip(es, "");
    }
    ParseEntryListItems(s, es);
  }

  /** The decoder's reading of `[` followed by entries. */
  lemma ParseEntryListItems(s: string, es: seq<Entry>)
    requires |s| > 1 && s[0] == '['
    requires SkipWhitespace(s[1..]) == s[1..] && s[1] != ']'
    requires ParseEntryItems(s[1..]) == Ok(Parsed(es, ""))
    ensures ParseEntryList(s) == Ok(Parsed(es, ""))
  {
  }

  /** `json.loads(json.dumps(x)) == x` for every list of `null`s and string lists. */
  lemma LoadsDumps(es: seq<Entry>)
    ensures Loads(Dumps(es)) == Ok(es)
  {
    SkipNothing(Dumps(es));
    EntryListRoundTrip(es);
  }

  lemma Hex4Ascii(n: nat)
    requires n < 0x10000
    ensures AllAscii(Hex4(n))
  {
  }

  lemma EscapeCharAscii(c: char)
    ensures AllAscii(EscapeChar(c))
  {
    if c as int >= 0x10000 {
      var n := c as int - 0x10000;
      var hi := Hex4(0xD800 + n / 0x400);
      var lo := Hex4(0xDC00 + n % 0x400);
      assert EscapeChar(c) == "\\u" + hi + "\\u" + lo;
      Hex4Ascii(0xD800 + n / 0x400);
      Hex4Ascii(0xDC00 + n % 0x400);
      UnicodeEscapeAscii(hi);
      UnicodeEscapeAscii(lo);
      AllAsciiConcat("\\u" + hi, "\\u" + lo);
      assert "\\u" + hi + ("\\u" + lo) == "\\u" + hi + "\\u" + lo;
    } else if !IsPrintableAscii(c) && c != '\n' && c != '\r' && c != '\t' && c != 8 as char && c != 12 as char {
      Hex4Ascii(c as int);
      UnicodeEscapeAscii(Hex4(c as int));
    }
  }

  lemma UnicodeEscapeAscii(h: string)
    requires AllAscii(h)
    ensures AllAscii("\\u" + h)
  {
    AllAsciiConcat("\\u", h);
  }

  lemma {:induction false} EscapeStringAscii(s: string)
    ensures AllAscii(EscapeString(s))
  {
    if |s| > 0 {
      EscapeCharAscii(s[0]);
      EscapeStringAscii(s[1..]);
      AllAsciiConcat(EscapeChar(s[0]), EscapeString(s[1..]));
    }
  }

  lemma DumpStringAscii(s: string)
    ensures AllAscii(DumpString(s))
  {
    EscapeStringAscii(s);
    AllAsciiConcat("\"", EscapeString(s));
    AllAsciiConcat("\"" + EscapeString(s), "\"");
  }

  lemma {:induction false} DumpStringItemsAscii(xs: seq<string>)
    ensures AllAscii(DumpStringItems(xs))
  {
    if |xs| > 0 {
      DumpStringAscii(xs[0]);
    }
    if |xs| > 1 {
      DumpStringItemsAscii(xs[1..]);
      AllAsciiConcat(DumpString(xs[0]), ", ");
      AllAsciiConcat(DumpString(xs[0]) + ", ", DumpStringItems(xs[1..]));
    }
  }

  lemma DumpEntryAscii(e: Entry)
    ensures AllAscii(DumpEntry(e))
  {
    match e
    case None =>
    case Some(xs) =>
      DumpStringItemsAscii(xs);
      AllAsciiConcat("[", DumpStringItems(xs));
      AllAsciiConcat("[" + DumpStringItems(xs), "]");
  }

  lemma {:induction false} DumpEntryItemsAscii(es: seq<Entry>)
    ensures AllAscii(DumpEntryItems(es))
  {
    if |es| > 0 {
      DumpEntryAscii(es[0]);
    }
    if |es| > 1 {
      DumpEntryItemsAscii(es[1..]);
      AllAsciiConcat(DumpEntry(es[0]), ", ");
      AllAsciiConcat(DumpEntry(es[0]) + ", ", DumpEntryItems(es[1..]));
    }
  }

  /** `ensure_ascii`: the encoder writes printable ASCII only, whatever the strings hold. */
  lemma DumpsIsAscii(es: seq<Entry>)
    ensures forall i :: 0 <= i < |Dumps(es)| ==> IsPrintableAscii(Dumps(es)[i])
  {
    DumpEntryItemsAscii(es);
    AllAsciiConcat("[", DumpEntryItems(es));
    AllAsciiConcat("[" + DumpEntryItems(es), "]");
  }
}
