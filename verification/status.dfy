/** The pure parts of the `status` command: reading the values it reports
    out of the metrics text, shortening long file names for its table, and
    choosing the unit a byte count is shown in. The HTTP requests and the
    printing are not modelled. */
module Status {
  import opened Common
  import Decimal
  import LineScanner

  // ---------------------------------------------------------------------
  // Byte counts

  function Pow1024(e: nat): (p: nat)
    ensures p >= 1
  {
    if e == 0 then 1 else 1024 * Pow1024(e - 1)
  }

  const Units: string := "KMGTPE"

  /** How a byte count is shown: in plain bytes, or divided by a power of
      1024 with a unit letter (the one-decimal rendering of the quotient is
      floating point and not modelled). */
  datatype ByteSize = Plain(text: string) | Scaled(div: int64, exp: nat, unit: char)

  lemma MulMonotone(a: int, b: int, c: int)
    requires a <= b && c >= 0
    ensures a * c <= b * c
  {
  }

  /** One more division by 1024 keeps the quotient bracketed. */
  lemma ScaleStep(bytes: int, n: int, div: int)
    requires div > 0 && n >= 1024
    requires n * div <= bytes < (n + 1) * div
    ensures 1024 * div <= bytes
    ensures (n / 1024) * (div * 1024) <= bytes < (n / 1024 + 1) * (div * 1024)
  {
    var q, r := n / 1024, n % 1024;
    assert n == 1024 * q + r;
    MulMonotone(1024, n, div);
    assert q * (div * 1024) == (1024 * q) * div;
    MulMonotone(1024 * q, n, div);
    assert (q + 1) * (div * 1024) == (1024 * q + 1024) * div;
    MulMonotone(n + 1, 1024 * q + 1024, div);
  }

  lemma DivUnique(x: int, d: int, n: int)
    requires d > 0 && n * d <= x < (n + 1) * d
    ensures x / d == n
  {
    var q, r := x / d, x % d;
    assert x == q * d + r;
    if q < n {
      MulMonotone(q + 1, n, d);
    } else if q > n {
      MulMonotone(n + 1, q, d);
    }
  }

  lemma Pow1024Six()
    ensures Pow1024(6) == 0x1000_0000_0000_0000
  {
  }

  /** Chooses the unit: counts below 1024, negative ones included, are shown
      in plain bytes; any other count is divided by the largest power of
      1024 that leaves a quotient of at least one. No int64 count needs a
      unit beyond E. */
  method FormatBytes(bytes: int64) returns (r: ByteSize)
    ensures r.Plain? <==> bytes < 1024
    ensures r.Plain? ==> && |r.text| >= 3 && r.text[|r.text| - 2..] == " B"
                         && Decimal.ParseInt(r.text[..|r.text| - 2]) == Some(bytes as int)
    ensures r.Scaled? ==> && r.exp < |Units| && r.unit == Units[r.exp]
                          && r.div == Pow1024(r.exp + 1)
                          && 1 <= bytes / r.div < 1024
  {
    if bytes < 1024 {
      var t := Decimal.FormatInt(bytes);
      Decimal.FormatIntRoundTrip(bytes);
      r := Plain(t + " B");
      assert r.text[..|r.text| - 2] == t;
      return;
    }
    var div: int64 := 1024;
    var exp: nat := 0;
    var n: int64 := bytes / 1024;
    while n >= 1024
      invariant 1 <= n && exp <= 5
      invariant div == Pow1024(exp + 1)
      invariant n * div <= bytes < (n + 1) * div
      decreases n
    {
      ScaleStep(bytes, n, div);
      if exp == 5 {
        Pow1024Six();
        assert false;
      }
      div := div * 1024;
      exp := exp + 1;
      n := n / 1024;
    }
    DivUnique(bytes, div, n);
    r := Scaled(div, exp, Units[exp]);
  }

  // ---------------------------------------------------------------------
  // File names in the table

  const MaxNameWidth: nat := 50

  /** Three dots, as bytes. */
  const Ellipsis: seq<byte> := [46, 46, 46]

  /** A name longer than 50 bytes is shown as three dots and its last 47
      bytes; a shorter one as it is. */
  function ShortenName(name: seq<byte>): (r: seq<byte>)
    ensures |r| <= MaxNameWidth
    ensures |name| <= MaxNameWidth ==> r == name
    ensures |name| > MaxNameWidth ==> && |r| == MaxNameWidth && r[..3] == Ellipsis
                                      && name == name[..|name| - 47] + r[3..]
  {
    if |name| > MaxNameWidth then Ellipsis + name[|name| - 47..] else name
  }

  /** Shortening a shortened name changes nothing. */
  lemma ShortenIdempotent(name: seq<byte>)
    ensures ShortenName(ShortenName(name)) == ShortenName(name)
  {
  }

  // ---------------------------------------------------------------------
  // Splitting on spaces

  function IndexOf<T(==)>(s: seq<T>, b: T): (i: nat)
    ensures i <= |s|
    ensures i < |s| ==> s[i] == b
    ensures b !in s[..i]
  {
    if |s| == 0 || s[0] == b then 0
    else
      var j := IndexOf(s[1..], b);
      assert s[..1 + j] == [s[0]] + s[1..][..j];
      1 + j
  }

  function Count<T(==)>(s: seq<T>, b: T): nat {
    if |s| == 0 then 0 else (if s[0] == b then 1 else 0) + Count(s[1..], b)
  }

  /** Joins pieces with one separator between neighbours. */
  function Join<T>(parts: seq<seq<T>>, sep: T): seq<T>
    requires |parts| >= 1
  {
    if |parts| == 1 then parts[0] else parts[0] + [sep] + Join(parts[1..], sep)
  }

  /** Cuts at every separator, as `strings.Split` with a one-byte
      separator does: `n` separators give `n + 1` pieces, empty ones
      included. */
  function Split<T(==)>(s: seq<T>, sep: T): (parts: seq<seq<T>>)
    ensures |parts| >= 1
    ensures forall k :: 0 <= k < |parts| ==> sep !in parts[k]
    decreases |s|
  {
    var i := IndexOf(s, sep);
    if i == |s| then [s] else [s[..i]] + Split(s[i + 1..], sep)
  }

  lemma CountSplit<T>(s: seq<T>, sep: T, i: nat)
    requires i < |s| && sep !in s[..i] && s[i] == sep
    ensures Count(s, sep) == 1 + Count(s[i + 1..], sep)
    ensures s == s[..i] + [sep] + s[i + 1..]
  {
    if i > 0 {
      assert s[1..][..i - 1] == s[..i][1..];
      CountSplit(s[1..], sep, i - 1);
      assert s[1..][i..] == s[i + 1..];
    }
  }

  lemma CountNone<T>(s: seq<T>, sep: T)
    requires sep !in s
    ensures Count(s, sep) == 0
  {
  }

  /** Splitting loses nothing: joining the pieces gives back the text, and
      there is one piece more than there are separators. */
  lemma {:induction false} SplitJoin<T>(s: seq<T>, sep: T)
    ensures Join(Split(s, sep), sep) == s
    ensures |Split(s, sep)| == Count(s, sep) + 1
    decreases |s|
  {
    var i := IndexOf(s, sep);
    if i == |s| {
      assert s[..i] == s;
      CountNone(s, sep);
    } else {
      CountSplit(s, sep, i);
      SplitJoin(s[i + 1..], sep);
      var parts := Split(s, sep);
      assert parts[1..] == Split(s[i + 1..], sep);
    }
  }

  /** A name and a value without spaces, joined by one space, split back
      into exactly those two fields. */
  lemma SplitTwo<T>(name: seq<T>, sep: T, value: seq<T>)
    requires sep !in name && sep !in value
    ensures Split(name + [sep] + value, sep) == [name, value]
  {
    var s := name + [sep] + value;
    IndexOfAfter(name, value, sep);
    assert s[..|name|] == name;
    assert s[|name| + 1..] == value;
    assert Split(value, sep) == [value];
  }

  lemma {:induction false} IndexOfAfter<T>(a: seq<T>, rest: seq<T>, b: T)
    requires b !in a
    ensures IndexOf(a + [b] + rest, b) == |a|
    decreases |a|
  {
    if |a| > 0 {
      assert (a + [b] + rest)[1..] == a[1..] + [b] + rest;
      IndexOfAfter(a[1..], rest, b);
    }
  }

  // ---------------------------------------------------------------------
  // Reading the metrics text

  /** A scanned line as Go text: one character per byte. */
  function Text(line: seq<byte>): (t: string)
    ensures |t| == |line|
    ensures forall k :: 0 <= k < |line| ==> t[k] == line[k] as char
  {
    seq(|line|, k requires 0 <= k < |line| => line[k] as char)
  }

  function Texts(lines: seq<seq<byte>>): (ts: seq<string>)
    ensures |ts| == |lines|
    ensures forall k :: 0 <= k < |lines| ==> ts[k] == Text(lines[k])
  {
    if |lines| == 0 then [] else [Text(lines[0])] + Texts(lines[1..])
  }

  const MemoryName: string := "clamguardian_memory_usage_bytes"
  const CpuName: string := "clamguardian_cpu_usage_percent"
  const FilesName: string := "clamguardian_processed_files_total"
  const MatchesName: string := "clamguardian_rule_matches_total"

  /** The reported values, zero until a line sets them. */
  datatype Reading = Reading(memoryUsage: real, cpuUsage: real, fileCount: int, matchCount: int)

  const NoReading: Reading := Reading(0.0, 0.0, 0, 0)

  /** Go's conversion of a float to an integer: the fraction is cut off,
      towards zero. */
  function Truncate(x: real): (i: int)
    ensures x >= 0.0 ==> i as real <= x < i as real + 1.0
    ensures x < 0.0 ==> i as real - 1.0 < x <= i as real
  {
    if x >= 0.0 then x.Floor else -((-x).Floor)
  }

  /** The effect of one line. A line starting with `#` is a comment; a line
      that does not split on spaces into exactly two fields, or whose second
      field does not parse as a number, is skipped; otherwise the first
      field names the value it sets, and unknown names are ignored. */
  function ReadLine(acc: Reading, line: string, parseFloat: string -> Option<real>): Reading {
    if |line| > 0 && line[0] == '#' then acc
    else
      var parts := Split(line, ' ');
      if |parts| != 2 then acc
      else
        match parseFloat(parts[1])
        case None => acc
        case Some(v) => SetField(acc, parts[0], v)
  }

  /** Sets the field `name` denotes to `v`; unknown names set nothing. */
  function SetField(acc: Reading, name: string, v: real): (r: Reading)
    ensures name == MemoryName ==> r == acc.(memoryUsage := v)
    ensures name == CpuName ==> r == acc.(cpuUsage := v)
    ensures name == FilesName ==> r == acc.(fileCount := Truncate(v))
    ensures name == MatchesName ==> r == acc.(matchCount := Truncate(v))
    ensures !KnownName(name) ==> r == acc
  {
    if name == MemoryName then acc.(memoryUsage := v)
    else if name == CpuName then acc.(cpuUsage := v)
    else if name == FilesName then acc.(fileCount := Truncate(v))
    else if name == MatchesName then acc.(matchCount := Truncate(v))
    else acc
  }

  /** The lines in order, each applied to what the earlier ones left. */
  function ReadLines(acc: Reading, lines: seq<string>, parseFloat: string -> Option<real>): Reading
    decreases |lines|
  {
    if |lines| == 0 then acc else ReadLines(ReadLine(acc, lines[0], parseFloat), lines[1..], parseFloat)
  }

  /** Extending the text by one line applies just that line last, so a
      later line for a name overwrites an earlier one. */
  lemma {:induction false} ReadLinesSnoc(acc: Reading, lines: seq<string>, line: string,
                                         parseFloat: string -> Option<real>)
    ensures ReadLines(acc, lines + [line], parseFloat) == ReadLine(ReadLines(acc, lines, parseFloat), line, parseFloat)
    decreases |lines|
  {
    if |lines| == 0 {
      assert lines + [line] == [line];
    } else {
      assert (lines + [line])[1..] == lines[1..] + [line];
      ReadLinesSnoc(ReadLine(acc, lines[0], parseFloat), lines[1..], line, parseFloat);
    }
  }

  predicate KnownName(name: string) {
    name == MemoryName || name == CpuName || name == FilesName || name == MatchesName
  }

  /** A metric line `name value` with a known name and a number as value
      sets exactly the matching field, whatever came before it. */
  lemma ReadMetricLine(acc: Reading, name: string, value: string, v: real,
                       parseFloat: string -> Option<real>)
    requires ' ' !in name && ' ' !in value
    requires |name| > 0 && name[0] != '#'
    requires parseFloat(value) == Some(v)
    ensures ReadLine(acc, name + " " + value, parseFloat) == SetField(acc, name, v)
  {
    SplitTwo(name, ' ', value);
    var line := name + " " + value;
    assert line[0] == name[0];
  }

  /** Comment lines and lines with other than one space leave the reading
      unchanged. */
  lemma SkippedLines(acc: Reading, line: string, parseFloat: string -> Option<real>)
    requires (|line| > 0 && line[0] == '#') || Count(line, ' ') != 1
    ensures ReadLine(acc, line, parseFloat) == acc
  {
    SplitJoin(line, ' ');
  }

  /** The default line limit of `bufio.Scanner`, 64 KiB. */
  const MaxScanTokenSize: nat := 64 * 1024

  /** Reads the metrics text: a line too long for the scanner fails the
      whole command, discarding what was read. */
  function ReadMetrics(body: seq<byte>, parseFloat: string -> Option<real>): (r: Result<Reading, string>)
    ensures r.Ok? <==> !LineScanner.ScanLines(body, MaxScanTokenSize).failed
    ensures r.Ok? ==> r.value == ReadLines(NoReading, Texts(LineScanner.DropCRs(LineScanner.Segments(body))), parseFloat)
  {
    var scan := LineScanner.ScanLines(body, MaxScanTokenSize);
    if scan.failed then Err("metrics body: token too long")
    else
      LineScanner.ScanMatchesSegments(body, MaxScanTokenSize);
      var segs := LineScanner.Segments(body);
      assert segs[..LineScanner.FirstTooLong(segs, MaxScanTokenSize)] == segs;
      Ok(ReadLines(NoReading, Texts(scan.lines), parseFloat))
  }
}
