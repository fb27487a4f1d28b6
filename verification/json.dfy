/** The position file's format: one JSON object (RFC 8259 section 4) whose
    member names are file names and whose values are integers.

    `Encode` follows Go's `encoding/json` marshalling of a
    `map[string]int64`: members in ascending key order (Go compares strings
    byte by byte, which for UTF-8 is code-point order), no whitespace,
    integers in decimal, and string escapes as section 7 of RFC 8259 permits
    with Go's choices (short escapes for `"`, `\`, backspace, form feed,
    newline, carriage return and tab; `\u00XX` with lower-case hex for the
    other control characters and for `<`, `>`, `&`, U+2028 and U+2029).

    `Decode` follows Go's unmarshalling of such a text into an empty
    `map[string]int64`: whitespace between tokens, all escapes of section 7,
    a later duplicate key overwriting an earlier one, a top-level `null`
    leaving the map empty, a member value `null` storing zero under its key,
    and any other value that is not an integer within int64 range (a
    fraction, an exponent, a string, a nested value) rejected. */
module Json {
  import opened Common
  import Decimal

  datatype DecodeError = InvalidSyntax | InvalidNumber

  // ---------------------------------------------------------------------
  // Key order

  /** Strict lexicographic order on strings by code point. */
  predicate StrLess(a: string, b: string)
    decreases |a|
  {
    if |a| == 0 then |b| > 0
    else if |b| == 0 then false
    else if a[0] != b[0] then a[0] < b[0]
    else StrLess(a[1..], b[1..])
  }

  lemma {:induction false} StrLessAsymmetric(a: string, b: string)
    ensures StrLess(a, b) ==> !StrLess(b, a)
    decreases |a|
  {
    if |a| > 0 && |b| > 0 && a[0] == b[0] {
      StrLessAsymmetric(a[1..], b[1..]);
    }
  }

  lemma {:induction false} StrLessTransitive(a: string, b: string, c: string)
    requires StrLess(a, b) && StrLess(b, c)
    ensures StrLess(a, c)
    decreases |a|
  {
    if |a| > 0 && a[0] == b[0] && b[0] == c[0] {
      StrLessTransitive(a[1..], b[1..], c[1..]);
    }
  }

  lemma {:induction false} StrLessTotal(a: string, b: string)
    requires a != b
    ensures StrLess(a, b) || StrLess(b, a)
    decreases |a|
  {
    if |a| > 0 && |b| > 0 && a[0] == b[0] {
      assert a == [a[0]] + a[1..] && b == [b[0]] + b[1..];
      StrLessTotal(a[1..], b[1..]);
    }
  }

  predicate IsLeast(k: string, s: set<string>) {
    k in s && forall k' :: k' in s && k' != k ==> StrLess(k, k')
  }

  lemma {:induction false} LeastExists(s: set<string>)
    requires s != {}
    ensures exists k :: IsLeast(k, s)
    decreases |s|
  {
    var x :| x in s;
    if s == {x} {
      assert IsLeast(x, s);
    } else {
      LeastExists(s - {x});
      var m :| IsLeast(m, s - {x});
      if StrLess(x, m) {
        forall k' | k' in s && k' != x
          ensures StrLess(x, k')
        {
          if k' != m {
            StrLessTransitive(x, m, k');
          }
        }
        assert IsLeast(x, s);
      } else {
        StrLessTotal(x, m);
        assert IsLeast(m, s);
      }
    }
  }

  lemma LeastUnique(s: set<string>)
    ensures forall a, b :: IsLeast(a, s) && IsLeast(b, s) ==> a == b
  {
    forall a, b | IsLeast(a, s) && IsLeast(b, s)
      ensures a == b
    {
      if a != b {
        StrLessAsymmetric(a, b);
      }
    }
  }

  /** The keys of a map in the order Go's marshaller writes them. */
  function SortedKeys(s: set<string>): (r: seq<string>)
    ensures |r| == |s|
    ensures forall k :: k in r <==> k in s
    ensures forall i, j :: 0 <= i < j < |r| ==> StrLess(r[i], r[j])
    decreases |s|
  {
    if s == {} then []
    else
      LeastExists(s);
      LeastUnique(s);
      var k :| IsLeast(k, s);
      var rest := SortedKeys(s - {k});
      SortedCons(k, s, rest);
      [k] + rest
  }

  /** The least key in front of the others, sorted, gives all keys sorted. */
  lemma SortedCons(k: string, s: set<string>, rest: seq<string>)
    requires IsLeast(k, s)
    requires forall x :: x in rest <==> x in s - {k}
    requires forall i, j :: 0 <= i < j < |rest| ==> StrLess(rest[i], rest[j])
    ensures forall x :: x in [k] + rest <==> x in s
    ensures forall i, j :: 0 <= i < j < |[k] + rest| ==> StrLess(([k] + rest)[i], ([k] + rest)[j])
  {
    var r := [k] + rest;
    forall i, j | 0 <= i < j < |r|
      ensures StrLess(r[i], r[j])
    {
      if i == 0 {
        assert r[j] == rest[j - 1] && r[j] in s - {k};
      } else {
        assert r[i] == rest[i - 1] && r[j] == rest[j - 1];
      }
    }
  }

  // ---------------------------------------------------------------------
  // Encoding

  function HexDigit(d: nat): char
    requires d < 16
  {
    "0123456789abcdef"[d]
  }

  /** Four lower-case hex digits of a code unit, most significant first. */
  function Hex4(n: nat): string
    requires n < 0x10000
  {
    [HexDigit(n / 16 / 16 / 16), HexDigit(n / 16 / 16 % 16), HexDigit(n / 16 % 16), HexDigit(n % 16)]
  }

  /** Characters Go writes as `\u` followed by four hex digits. */
  predicate NeedsUnicodeEscape(c: char) {
    || (c < ' ' && c != '\U{8}' && c != '\U{C}' && c != '\n' && c != '\r' && c != '\t')
    || c == '<' || c == '>' || c == '&'
    || c == '\U{2028}' || c == '\U{2029}'
  }

  function EscapeChar(c: char): string {
    if c == '"' then "\\\""
    else if c == '\\' then "\\\\"
    else if c == '\U{8}' then "\\b"
    else if c == '\U{C}' then "\\f"
    else if c == '\n' then "\\n"
    else if c == '\r' then "\\r"
    else if c == '\t' then "\\t"
    else if NeedsUnicodeEscape(c) then "\\u" + Hex4(c as nat)
    else [c]
  }

  function EscapeString(s: string): string {
    if |s| == 0 then "" else EscapeChar(s[0]) + EscapeString(s[1..])
  }

  function EncodeString(s: string): string {
    "\"" + EscapeString(s) + "\""
  }

  function EncodeMember(k: string, v: int64): string {
    EncodeString(k) + ":" + Decimal.FormatInt(v)
  }

  function EncodeMembers(keys: seq<string>, m: map<string, int64>): string
    requires forall i :: 0 <= i < |keys| ==> keys[i] in m
  {
    if |keys| == 0 then ""
    else if |keys| == 1 then EncodeMember(keys[0], m[keys[0]])
    else EncodeMember(keys[0], m[keys[0]]) + "," + EncodeMembers(keys[1..], m)
  }

  /** The marshalled text of a whole offset map. */
  function Encode(m: map<string, int64>): string {
    "{" + EncodeMembers(SortedKeys(m.Keys), m) + "}"
  }

  // ---------------------------------------------------------------------
  // Decoding

  predicate IsWs(c: char) {
    c == ' ' || c == '\t' || c == '\n' || c == '\r'
  }

  function SkipWs(s: string): (r: string)
    ensures |r| <= |s|
    ensures |r| > 0 ==> !IsWs(r[0])
    ensures |s| > 0 && !IsWs(s[0]) ==> r == s
  {
    if |s| > 0 && IsWs(s[0]) then SkipWs(s[1..]) else s
  }

  predicate IsHexDigit(c: char) {
    '0' <= c <= '9' || 'a' <= c <= 'f' || 'A' <= c <= 'F'
  }

  function HexValue(c: char): (d: nat)
    requires IsHexDigit(c)
    ensures d < 16
  {
    if '0' <= c <= '9' then c as nat - '0' as nat
    else if 'a' <= c <= 'f' then c as nat - 'a' as nat + 10
    else c as nat - 'A' as nat + 10
  }

  function ParseHex4(s: string): (r: Option<nat>)
    requires |s| == 4
    ensures r.Some? ==> r.value < 0x10000
  {
    if IsHexDigit(s[0]) && IsHexDigit(s[1]) && IsHexDigit(s[2]) && IsHexDigit(s[3]) then
      Some(HexValue(s[0]) * 0x1000 + HexValue(s[1]) * 0x100 + HexValue(s[2]) * 0x10 + HexValue(s[3]))
    else None
  }

  /** Reads one escape sequence; `s` starts just after the backslash. A
      `\u` escape naming a UTF-16 surrogate is rejected. */
  function ParseEscape(s: string): (r: Result<(char, string), DecodeError>)
    ensures r.Ok? ==> |r.value.1| < |s|
  {
    if |s| == 0 then Err(InvalidSyntax)
    else if s[0] == '"' then Ok(('"', s[1..]))
    else if s[0] == '\\' then Ok(('\\', s[1..]))
    else if s[0] == '/' then Ok(('/', s[1..]))
    else if s[0] == 'b' then Ok(('\U{8}', s[1..]))
    else if s[0] == 'f' then Ok(('\U{C}', s[1..]))
    else if s[0] == 'n' then Ok(('\n', s[1..]))
    else if s[0] == 'r' then Ok(('\r', s[1..]))
    else if s[0] == 't' then Ok(('\t', s[1..]))
    else if s[0] == 'u' && |s| >= 5 then
      match ParseHex4(s[1..5])
      case None => Err(InvalidSyntax)
      case Some(v) =>
        if 0xD800 <= v < 0xE000 then Err(InvalidSyntax) else Ok((v as char, s[5..]))
    else Err(InvalidSyntax)
  }

  function Prepend(c: char, r: Result<(string, string), DecodeError>): Result<(string, string), DecodeError> {
    match r
    case Err(e) => Err(e)
    case Ok((t, rest)) => Ok(([c] + t, rest))
  }

  /** Reads the characters of a string literal up to and including its
      closing quote; raw control characters are rejected. */
  function ParseStringChars(s: string): (r: Result<(string, string), DecodeError>)
    ensures r.Ok? ==> |r.value.1| < |s|
    decreases |s|
  {
    if |s| == 0 then Err(InvalidSyntax)
    else if s[0] == '"' then Ok(("", s[1..]))
    else if s[0] < ' ' then Err(InvalidSyntax)
    else if s[0] == '\\' then
      match ParseEscape(s[1..])
      case Err(e) => Err(e)
      case Ok((c, rest)) => Prepend(c, ParseStringChars(rest))
    else Prepend(s[0], ParseStringChars(s[1..]))
  }

  function ParseString(s: string): (r: Result<(string, string), DecodeError>)
    ensures r.Ok? ==> |r.value.1| < |s|
  {
    if |s| == 0 || s[0] != '"' then Err(InvalidSyntax) else ParseStringChars(s[1..])
  }

  /** Characters that can occur in a JSON number token. */
  predicate NumberChar(c: char) {
    Decimal.IsDigit(c) || c == '-' || c == '+' || c == '.' || c == 'e' || c == 'E'
  }

  function NumberToken(s: string): (t: string)
    ensures |t| <= |s| && t == s[..|t|]
    ensures forall i :: 0 <= i < |t| ==> NumberChar(t[i])
    ensures |t| < |s| ==> !NumberChar(s[|t|])
  {
    if |s| > 0 && NumberChar(s[0]) then [s[0]] + NumberToken(s[1..]) else ""
  }

  /** Reads an integer value; anything that is a number but not an integer
      of int64 range is an error, as for Go's int64 targets. */
  function ParseNumber(s: string): (r: Result<(int64, string), DecodeError>)
    ensures r.Ok? ==> |r.value.1| < |s|
  {
    var t := NumberToken(s);
    if |t| == 0 then Err(InvalidSyntax)
    else match Decimal.ParseInt(t)
      case None => Err(InvalidNumber)
      case Some(v) =>
        if MinInt64 <= v <= MaxInt64 then Ok((v as int64, s[|t|..])) else Err(InvalidNumber)
  }

  /** Reads a member's value. A `null` leaves the element at its zero
      value, which is then stored, as Go does for an integer element;
      anything else must be an integer. */
  function ParseValue(s: string): (r: Result<(int64, string), DecodeError>)
    ensures r.Ok? ==> |r.value.1| < |s|
  {
    if |s| >= 4 && s[..4] == "null" then Ok((0, s[4..])) else ParseNumber(s)
  }

  /** Reads one `"key": value` member; `s` starts at a non-blank
      character. Returns the key, the value and the text after the value. */
  function ParseMember(s: string): (r: Result<(string, int64, string), DecodeError>)
    ensures r.Ok? ==> |r.value.2| < |s|
  {
    var key := ParseString(s);
    if key.Err? then Err(key.error)
    else
      var r2 := SkipWs(key.value.1);
      if |r2| == 0 || r2[0] != ':' then Err(InvalidSyntax)
      else
        var num := ParseValue(SkipWs(r2[1..]));
        if num.Err? then Err(num.error)
        else Ok((key.value.0, num.value.0, num.value.1))
  }

  /** Reads members separated by commas up to the closing brace, adding
      each to `acc`; `s` starts at a non-blank character. */
  function ParseMembers(s: string, acc: map<string, int64>): (r: Result<(map<string, int64>, string), DecodeError>)
    decreases |s|, 1
  {
    var mem := ParseMember(s);
    if mem.Err? then Err(mem.error)
    else AfterMember(SkipWs(mem.value.2), acc[mem.value.0 := mem.value.1])
  }

  /** What follows a member: a comma and further members, or the closing
      brace. */
  function AfterMember(r4: string, acc: map<string, int64>): Result<(map<string, int64>, string), DecodeError>
    decreases |r4|, 0
  {
    if |r4| > 0 && r4[0] == ',' then ParseMembers(SkipWs(r4[1..]), acc)
    else if |r4| > 0 && r4[0] == '}' then Ok((acc, r4[1..]))
    else Err(InvalidSyntax)
  }

  /** Unmarshals a whole text into a fresh, empty map. */
  function Decode(text: string): Result<map<string, int64>, DecodeError> {
    var s := SkipWs(text);
    if |s| >= 4 && s[..4] == "null" then
      if SkipWs(s[4..]) == "" then Ok(map[]) else Err(InvalidSyntax)
    else if |s| == 0 || s[0] != '{' then Err(InvalidSyntax)
    else DecodeObject(SkipWs(s[1..]))
  }

  /** The rest of an object after its opening brace and any blanks. */
  function DecodeObject(s1: string): Result<map<string, int64>, DecodeError> {
    if |s1| > 0 && s1[0] == '}' then
      if SkipWs(s1[1..]) == "" then Ok(map[]) else Err(InvalidSyntax)
    else
      var r := ParseMembers(s1, map[]);
      if r.Err? then Err(r.error)
      else if SkipWs(r.value.1) == "" then Ok(r.value.0)
      else Err(InvalidSyntax)
  }

  // ---------------------------------------------------------------------
  // Round trip

  lemma HexDigitValue(d: nat)
    requires d < 16
    ensures IsHexDigit(HexDigit(d)) && HexValue(HexDigit(d)) == d
  {
  }

  lemma Hex4RoundTrip(n: nat)
    requires n < 0x10000
    ensures ParseHex4(Hex4(n)) == Some(n)
  {
    var q1, r0 := n / 16, n % 16;
    var q2, r1 := q1 / 16, q1 % 16;
    var q3, r2 := q2 / 16, q2 % 16;
    assert n == q1 * 16 + r0 && q1 == q2 * 16 + r1 && q2 == q3 * 16 + r2;
    assert q3 < 16;
    HexDigitValue(q3);
    HexDigitValue(r2);
    HexDigitValue(r1);
    HexDigitValue(r0);
    var h := Hex4(n);
    assert h == [HexDigit(q3), HexDigit(r2), HexDigit(r1), HexDigit(r0)];
  }

  lemma EscapeRoundTrip(c: char, rest: string)
    requires EscapeChar(c) != [c]
    ensures |EscapeChar(c)| >= 2 && EscapeChar(c)[0] == '\\'
    ensures ParseEscape(EscapeChar(c)[1..] + rest) == Ok((c, rest))
  {
    if ShortEscape(c) {
      ShortEscapeRoundTrip(c, rest);
    } else {
      UnicodeEscapeRoundTrip(c, rest);
    }
  }

  /** The characters Go escapes with a backslash and one letter. */
  predicate ShortEscape(c: char) {
    c == '"' || c == '\\' || c == '\U{8}' || c == '\U{C}' || c == '\n' || c == '\r' || c == '\t'
  }

  lemma ShortEscapeRoundTrip(c: char, rest: string)
    requires ShortEscape(c)
    ensures |EscapeChar(c)| >= 2 && EscapeChar(c)[0] == '\\'
    ensures ParseEscape(EscapeChar(c)[1..] + rest) == Ok((c, rest))
  {
    var e := EscapeChar(c);
    assert |e| == 2;
    var s := e[1..] + rest;
    assert s[0] == e[1] && s[1..] == rest;
  }

  lemma UnicodeEscapeRoundTrip(c: char, rest: string)
    requires !ShortEscape(c) && NeedsUnicodeEscape(c)
    ensures |EscapeChar(c)| >= 2 && EscapeChar(c)[0] == '\\'
    ensures ParseEscape(EscapeChar(c)[1..] + rest) == Ok((c, rest))
  {
    var h := Hex4(c as nat);
    assert EscapeChar(c) == "\\u" + h;
    var s := EscapeChar(c)[1..] + rest;
    assert s == ['u'] + h + rest;
    assert s[1..5] == h;
    Hex4RoundTrip(c as nat);
    assert s[5..] == rest;
  }

  lemma EscapeCharLiteral(c: char)
    requires EscapeChar(c) == [c]
    ensures c != '"' && c != '\\' && c >= ' '
  {
  }

  /** Reading one escaped character consumes exactly its escape. */
  lemma CharStep(c: char, tail: string)
    ensures ParseStringChars(EscapeChar(c) + tail) == Prepend(c, ParseStringChars(tail))
  {
    if EscapeChar(c) == [c] {
      LiteralStep(c, tail);
    } else {
      EscapedStep(c, tail);
    }
  }

  lemma LiteralStep(c: char, tail: string)
    requires EscapeChar(c) == [c]
    ensures ParseStringChars([c] + tail) == Prepend(c, ParseStringChars(tail))
  {
    EscapeCharLiteral(c);
    var s := [c] + tail;
    assert s[0] == c && s[1..] == tail;
  }

  lemma EscapedStep(c: char, tail: string)
    requires EscapeChar(c) != [c]
    ensures ParseStringChars(EscapeChar(c) + tail) == Prepend(c, ParseStringChars(tail))
  {
    var e := EscapeChar(c);
    EscapeRoundTrip(c, tail);
    TailOfConcat(e, tail);
    BackslashStep(e + tail, c, tail);
  }

  lemma TailOfConcat(e: string, tail: string)
    requires |e| > 0
    ensures (e + tail)[0] == e[0] && (e + tail)[1..] == e[1..] + tail
  {
  }

  lemma BackslashStep(s: string, c: char, rest: string)
    requires |s| > 0 && s[0] == '\\'
    requires ParseEscape(s[1..]) == Ok((c, rest))
    ensures ParseStringChars(s) == Prepend(c, ParseStringChars(rest))
  {
  }

  lemma EscapeStringCons(x: string, rest: string)
    requires |x| > 0
    ensures EscapeString(x) + "\"" + rest == EscapeChar(x[0]) + (EscapeString(x[1..]) + "\"" + rest)
  {
    var e, t := EscapeChar(x[0]), EscapeString(x[1..]);
    EscapeStringUnfold(x);
    ConcatAssoc(e + t, "\"", rest);
    ConcatAssoc(t, "\"", rest);
    ConcatAssoc(e, t, "\"" + rest);
  }

  lemma EscapeStringUnfold(x: string)
    requires |x| > 0
    ensures EscapeString(x) == EscapeChar(x[0]) + EscapeString(x[1..])
  {
  }

  lemma ConcatAssoc(a: string, b: string, c: string)
    ensures (a + b) + c == a + (b + c)
  {
  }

  lemma {:induction false} StringCharsRoundTrip(x: string, rest: string)
    ensures ParseStringChars(EscapeString(x) + "\"" + rest) == Ok((x, rest))
    decreases |x|
  {
    if |x| == 0 {
      assert EscapeString(x) + "\"" + rest == "\"" + rest;
    } else {
      EscapeStringCons(x, rest);
      CharStep(x[0], EscapeString(x[1..]) + "\"" + rest);
      StringCharsRoundTrip(x[1..], rest);
      assert [x[0]] + x[1..] == x;
    }
  }

  lemma StringRoundTrip(x: string, rest: string)
    ensures ParseString(EncodeString(x) + rest) == Ok((x, rest))
  {
    var s := EncodeString(x) + rest;
    assert s[1..] == EscapeString(x) + "\"" + rest;
    StringCharsRoundTrip(x, rest);
  }

  lemma NumberRoundTrip(v: int64, rest: string)
    requires |rest| == 0 || !NumberChar(rest[0])
    ensures ParseNumber(Decimal.FormatInt(v) + rest) == Ok((v, rest))
  {
    var f := Decimal.FormatInt(v);
    var s := f + rest;
    FormatIntNumberChars(v);
    NumberTokenOf(f, rest);
    assert NumberToken(s) == f;
    Decimal.FormatIntRoundTrip(v);
    assert s[|f|..] == rest;
  }

  lemma FormatIntNumberChars(v: int)
    ensures forall i :: 0 <= i < |Decimal.FormatInt(v)| ==> NumberChar(Decimal.FormatInt(v)[i])
  {
    var f := Decimal.FormatInt(v);
    if v < 0 {
      var d := Decimal.NatDigits(-v);
      assert f == "-" + d;
      forall i | 0 <= i < |f|
        ensures NumberChar(f[i])
      {
        if i > 0 {
          assert f[i] == d[i - 1];
        }
      }
    }
  }

  lemma {:induction false} NumberTokenOf(f: string, rest: string)
    requires forall i :: 0 <= i < |f| ==> NumberChar(f[i])
    requires |rest| == 0 || !NumberChar(rest[0])
    ensures NumberToken(f + rest) == f
    decreases |f|
  {
    if |f| > 0 {
      assert (f + rest)[1..] == f[1..] + rest;
      NumberTokenOf(f[1..], rest);
      assert [f[0]] + f[1..] == f;
    } else {
      assert f + rest == rest;
    }
  }

  /** The entries named by `keys`, as a map. */
  function Restrict(m: map<string, int64>, keys: seq<string>): (r: map<string, int64>)
    requires forall i :: 0 <= i < |keys| ==> keys[i] in m
    ensures forall k :: k in r <==> k in keys
    ensures forall k :: k in r ==> r[k] == m[k]
  {
    map k | k in keys :: m[k]
  }

  lemma ValueRoundTrip(v: int64, tail: string)
    requires |tail| > 0 && (tail[0] == ',' || tail[0] == '}')
    ensures var r1 := ":" + Decimal.FormatInt(v) + tail;
            SkipWs(r1) == r1 && ParseValue(SkipWs(r1[1..])) == Ok((v, tail))
  {
    var f := Decimal.FormatInt(v);
    var r1 := ":" + f + tail;
    assert r1[1..] == f + tail;
    assert (f + tail)[0] == f[0];
    FormatIntNumberChars(v);
    NotNull(f + tail);
    NumberRoundTrip(v, tail);
  }

  /** A text starting with a number character is read as a number. */
  lemma NotNull(s: string)
    requires |s| > 0 && NumberChar(s[0])
    ensures ParseValue(s) == ParseNumber(s)
  {
    if |s| >= 4 {
      assert s[..4][0] == s[0];
    }
  }

  /** A `null` value reads as zero wherever it stands. */
  lemma NullValue(rest: string)
    ensures ParseValue("null" + rest) == Ok((0, rest))
  {
    var s := "null" + rest;
    assert s[..4] == "null" && s[4..] == rest;
  }

  /** A member `"k":null` among others adds `k` with offset zero. */
  lemma NullMemberStep(k: string, tail: string, acc: map<string, int64>)
    ensures ParseMembers(EncodeString(k) + ":null" + tail, acc) == AfterMember(SkipWs(tail), acc[k := 0])
  {
    var r1 := ":null" + tail;
    var s := EncodeString(k) + r1;
    assert EncodeString(k) + ":null" + tail == s;
    StringRoundTrip(k, r1);
    assert r1[1..] == "null" + tail;
    assert SkipWs(r1) == r1;
    assert SkipWs("null" + tail) == "null" + tail;
    NullValue(tail);
    ParseMemberOf(s, k, r1, 0, tail);
  }

  /** An object whose one member has the value `null` loads as that key
      with offset zero, whatever the key. */
  lemma NullMemberIsZero(k: string)
    ensures Decode("{" + EncodeString(k) + ":null}") == Ok(map[k := 0])
  {
    var body := EncodeString(k) + ":null}";
    assert "{" + EncodeString(k) + ":null}" == "{" + body;
    assert body == EncodeString(k) + ":null" + "}";
    DecodeBraced(body);
    NullMemberStep(k, "}", map[]);
    assert SkipWs("}") == "}";
    CloseObject("", map[k := 0]);
    assert "}" + "" == "}";
  }

  lemma MemberText(k: string, v: int64, tail: string)
    ensures EncodeMember(k, v) + tail == EncodeString(k) + (":" + Decimal.FormatInt(v) + tail)
  {
  }

  lemma ParseMemberOf(s: string, k: string, r1: string, v: int64, tail: string)
    requires ParseString(s) == Ok((k, r1))
    requires |r1| > 0 && r1[0] == ':' && SkipWs(r1) == r1
    requires ParseValue(SkipWs(r1[1..])) == Ok((v, tail))
    ensures ParseMember(s) == Ok((k, v, tail))
  {
  }

  lemma MemberRoundTrip(k: string, v: int64, tail: string)
    requires |tail| > 0 && (tail[0] == ',' || tail[0] == '}')
    ensures ParseMember(EncodeMember(k, v) + tail) == Ok((k, v, tail))
  {
    var r1 := ":" + Decimal.FormatInt(v) + tail;
    MemberText(k, v, tail);
    StringRoundTrip(k, r1);
    ValueRoundTrip(v, tail);
    ParseMemberOf(EncodeMember(k, v) + tail, k, r1, v, tail);
  }

  /** Reading one marshalled member followed by a separator. */
  lemma MemberStep(k: string, v: int64, tail: string, acc: map<string, int64>)
    requires |tail| > 0 && (tail[0] == ',' || tail[0] == '}')
    ensures ParseMembers(EncodeMember(k, v) + tail, acc) == AfterMember(tail, acc[k := v])
  {
    MemberRoundTrip(k, v, tail);
    assert SkipWs(tail) == tail;
  }

  /** A non-empty run of marshalled members starts with a quote. */
  lemma MembersHead(keys: seq<string>, m: map<string, int64>)
    requires |keys| >= 1
    requires forall i :: 0 <= i < |keys| ==> keys[i] in m
    ensures |EncodeMembers(keys, m)| > 0 && EncodeMembers(keys, m)[0] == '"'
  {
  }

  lemma RestrictCons(m: map<string, int64>, keys: seq<string>, acc: map<string, int64>)
    requires |keys| >= 1
    requires forall i :: 0 <= i < |keys| ==> keys[i] in m
    ensures acc[keys[0] := m[keys[0]]] + Restrict(m, keys[1..]) == acc + Restrict(m, keys)
  {
    var lhs := acc[keys[0] := m[keys[0]]] + Restrict(m, keys[1..]);
    var rhs := acc + Restrict(m, keys);
    assert forall k :: k in keys <==> k == keys[0] || k in keys[1..] by {
      assert keys == [keys[0]] + keys[1..];
    }
    assert lhs.Keys == rhs.Keys;
  }

  lemma RestrictAll(m: map<string, int64>)
    ensures map[] + Restrict(m, SortedKeys(m.Keys)) == m
  {
  }

  lemma MembersSplitLast(keys: seq<string>, m: map<string, int64>, rest: string)
    requires |keys| == 1 && keys[0] in m
    ensures EncodeMembers(keys, m) + "}" + rest == EncodeMember(keys[0], m[keys[0]]) + ("}" + rest)
  {
  }

  lemma MembersSplit(keys: seq<string>, m: map<string, int64>, rest: string)
    requires |keys| >= 2
    requires forall i :: 0 <= i < |keys| ==> keys[i] in m
    ensures EncodeMembers(keys, m) + "}" + rest
         == EncodeMember(keys[0], m[keys[0]]) + ("," + (EncodeMembers(keys[1..], m) + "}" + rest))
  {
    var a, b := EncodeMember(keys[0], m[keys[0]]), EncodeMembers(keys[1..], m);
    assert EncodeMembers(keys, m) == a + "," + b;
    ConcatAssoc(a + "," + b, "}", rest);
    ConcatAssoc(a + ",", b, "}" + rest);
    ConcatAssoc(a, ",", b + ("}" + rest));
    ConcatAssoc(b, "}", rest);
  }

  lemma CloseObject(rest: string, acc: map<string, int64>)
    ensures AfterMember("}" + rest, acc) == Ok((acc, rest))
  {
    assert ("}" + rest)[1..] == rest;
  }

  lemma RestrictOne(m: map<string, int64>, keys: seq<string>, acc: map<string, int64>)
    requires |keys| == 1 && keys[0] in m
    ensures acc[keys[0] := m[keys[0]]] == acc + Restrict(m, keys)
  {
    RestrictCons(m, keys, acc);
    assert Restrict(m, keys[1..]) == map[];
    assert acc[keys[0] := m[keys[0]]] + map[] == acc[keys[0] := m[keys[0]]];
  }

  lemma MembersRoundTripLast(keys: seq<string>, m: map<string, int64>, acc: map<string, int64>, rest: string)
    requires |keys| == 1 && keys[0] in m
    ensures ParseMembers(EncodeMembers(keys, m) + "}" + rest, acc) == Ok((acc + Restrict(m, keys), rest))
  {
    MembersSplitLast(keys, m, rest);
    MemberStep(keys[0], m[keys[0]], "}" + rest, acc);
    CloseObject(rest, acc[keys[0] := m[keys[0]]]);
    RestrictOne(m, keys, acc);
  }

  lemma {:induction false} MembersRoundTrip(keys: seq<string>, m: map<string, int64>,
                                            acc: map<string, int64>, rest: string)
    requires |keys| >= 1
    requires forall i :: 0 <= i < |keys| ==> keys[i] in m
    ensures ParseMembers(EncodeMembers(keys, m) + "}" + rest, acc) == Ok((acc + Restrict(m, keys), rest))
    decreases |keys|
  {
    if |keys| == 1 {
      MembersRoundTripLast(keys, m, acc, rest);
    } else {
      var k, v := keys[0], m[keys[0]];
      var next := EncodeMembers(keys[1..], m) + "}" + rest;
      var tail := "," + next;
      MembersSplit(keys, m, rest);
      MemberStep(k, v, tail, acc);
      assert tail[1..] == next;
      MembersHead(keys[1..], m);
      assert SkipWs(next) == next;
      MembersRoundTrip(keys[1..], m, acc[k := v], rest);
      RestrictCons(m, keys, acc);
    }
  }

  lemma DecodeBraced(body: string)
    requires |body| > 0 && body[0] == '"'
    ensures Decode("{" + body) == DecodeObject(body)
  {
    var text := "{" + body;
    assert SkipWs(text) == text;
    assert text[1..] == body;
    assert SkipWs(body) == body;
  }

  lemma EmptyRoundTrip(m: map<string, int64>)
    requires |m| == 0
    ensures Decode(Encode(m)) == Ok(m)
  {
    assert m == map[];
    assert SortedKeys(m.Keys) == [];
    assert Encode(m) == "{}";
  }

  lemma EncodeShape(m: map<string, int64>)
    ensures Encode(m) == "{" + (EncodeMembers(SortedKeys(m.Keys), m) + "}" + "")
  {
  }

  lemma DecodeMembersBody(m: map<string, int64>)
    requires |m| > 0
    ensures DecodeObject(EncodeMembers(SortedKeys(m.Keys), m) + "}" + "") == Ok(m)
  {
    var keys := SortedKeys(m.Keys);
    MembersHead(keys, m);
    MembersRoundTrip(keys, m, map[], "");
    RestrictAll(m);
  }

  /** Reading back a marshalled map into a fresh map reproduces it. */
  lemma EncodeDecodeRoundTrip(m: map<string, int64>)
    ensures Decode(Encode(m)) == Ok(m)
  {
    if |m| == 0 {
      EmptyRoundTrip(m);
    } else {
      var keys := SortedKeys(m.Keys);
      EncodeShape(m);
      MembersHead(keys, m);
      DecodeBraced(EncodeMembers(keys, m) + "}" + "");
      DecodeMembersBody(m);
    }
  }
}
