/** The rule matcher: an ordered list of (regular expression, level) rules,
    applied to every line read from a file after a byte offset. The regular
    expression library is a parameter (`RegexEngine`): the model fixes only
    how its answers are combined, not how a pattern matches. Counters are
    the total match count and the per-level match counter. */
module Matcher {
  import opened Common
  import LineScanner

  /** A rule as configured: pattern text and alert level. */
  datatype MatchRule = MatchRule(pattern: string, level: string)

  /** A compiled rule. The compiled expression is represented by its
      pattern text, interpreted through the engine. */
  datatype Rule = Rule(pattern: string, level: string)

  /** The regular expression library: `compileError(p)` is the reason `p`
      does not compile (`None` when it does), `matches(p, line)` whether the
      compiled `p` matches somewhere in `line`. */
  datatype RegexEngine = RegexEngine(
    compileError: string -> Option<string>,
    matches: (string, seq<byte>) -> bool)

  datatype Matcher = Matcher(rules: seq<Rule>, bufferSize: nat, engine: RegexEngine)

  /** Why construction failed: the first pattern that did not compile, its
      position in the list and the library's reason. */
  datatype CompileError = CompileError(index: nat, pattern: string, reason: string)

  /** The total match count and the per-level counter. */
  datatype Counters = Counters(matchCount: nat, byLevel: map<string, nat>)

  const NoCounts: Counters := Counters(0, map[])

  function LevelCount(c: Counters, level: string): nat {
    GetOr(c.byLevel, level, 0)
  }

  // ---------------------------------------------------------------------
  // Construction

  predicate Compiles(engine: RegexEngine, r: MatchRule) {
    engine.compileError(r.pattern).None?
  }

  /** Compiles the rules in order; the first pattern that fails to compile
      aborts construction, so there is never a partially built list. */
  function CompileRules(rules: seq<MatchRule>, engine: RegexEngine): (r: Result<seq<Rule>, CompileError>)
    ensures r.Ok? <==> forall i :: 0 <= i < |rules| ==> Compiles(engine, rules[i])
    ensures r.Ok? ==> |r.value| == |rules|
    ensures r.Ok? ==> forall i :: 0 <= i < |rules| ==>
                         r.value[i].pattern == rules[i].pattern && r.value[i].level == rules[i].level
    ensures r.Err? ==> && r.error.index < |rules|
                       && (forall i :: 0 <= i < r.error.index ==> Compiles(engine, rules[i]))
                       && r.error.pattern == rules[r.error.index].pattern
                       && engine.compileError(r.error.pattern) == Some(r.error.reason)
  {
    if |rules| == 0 then Ok([])
    else
      match engine.compileError(rules[0].pattern)
      case Some(reason) => Err(CompileError(0, rules[0].pattern, reason))
      case None =>
        match CompileRules(rules[1..], engine)
        case Ok(tail) => Ok([Rule(rules[0].pattern, rules[0].level)] + tail)
        case Err(e) => Err(CompileError(e.index + 1, e.pattern, e.reason))
  }

  /** Builds a matcher, or fails on the first invalid pattern. */
  function NewMatcher(rules: seq<MatchRule>, bufferSize: nat, engine: RegexEngine): (r: Result<Matcher, CompileError>)
    ensures r.Ok? <==> forall i :: 0 <= i < |rules| ==> Compiles(engine, rules[i])
    ensures r.Ok? ==> && r.value.bufferSize == bufferSize && r.value.engine == engine
                      && |r.value.rules| == |rules|
                      && forall i :: 0 <= i < |rules| ==>
                           r.value.rules[i] == Rule(rules[i].pattern, rules[i].level)
    ensures r.Err? ==> && r.error.index < |rules|
                       && (forall i :: 0 <= i < r.error.index ==> Compiles(engine, rules[i]))
                       && !Compiles(engine, rules[r.error.index])
                       && r.error.pattern == rules[r.error.index].pattern
  {
    match CompileRules(rules, engine)
    case Ok(compiled) => Ok(Matcher(compiled, bufferSize, engine))
    case Err(e) => Err(e)
  }

  /** The text of a construction error: a fixed prefix, the pattern, then
      the library's reason. */
  const CompileErrorPrefix: string := "编译正则表达式失败 "

  function CompileErrorText(e: CompileError): (text: string)
    ensures |CompileErrorPrefix| + |e.pattern| <= |text|
    ensures text[|CompileErrorPrefix|..|CompileErrorPrefix| + |e.pattern|] == e.pattern
  {
    CompileErrorPrefix + e.pattern + ": " + e.reason
  }

  // ---------------------------------------------------------------------
  // Matching one line

  /** The positions of the rules whose pattern matches `line`. */
  function Hits(rules: seq<Rule>, engine: RegexEngine, line: seq<byte>): set<int> {
    set i | 0 <= i < |rules| && engine.matches(rules[i].pattern, line)
  }

  /** The positions of the rules of `level` whose pattern matches `line`. */
  function LevelHits(rules: seq<Rule>, engine: RegexEngine, line: seq<byte>, level: string): set<int> {
    set i | 0 <= i < |rules| && engine.matches(rules[i].pattern, line) && rules[i].level == level
  }

  /** One more match, at `level`. */
  function Bump(c: Counters, level: string): (r: Counters)
    ensures r.matchCount == c.matchCount + 1
    ensures LevelCount(r, level) == LevelCount(c, level) + 1
    ensures forall l :: l != level ==> LevelCount(r, l) == LevelCount(c, l)
  {
    Counters(c.matchCount + 1, c.byLevel[level := LevelCount(c, level) + 1])
  }

  /** Tries the rules on `line` in order, counting each one that matches. */
  function ApplyRules(rules: seq<Rule>, engine: RegexEngine, line: seq<byte>, c: Counters): Counters
    decreases |rules|
  {
    if |rules| == 0 then c
    else
      var before := ApplyRules(rules[..|rules| - 1], engine, line, c);
      var last := rules[|rules| - 1];
      if engine.matches(last.pattern, line) then Bump(before, last.level) else before
  }

  lemma HitsSnoc(rules: seq<Rule>, engine: RegexEngine, line: seq<byte>)
    requires |rules| > 0
    ensures var n := |rules| - 1;
            Hits(rules, engine, line)
            == Hits(rules[..n], engine, line) + (if engine.matches(rules[n].pattern, line) then {n} else {})
  {
  }

  lemma LevelHitsSnoc(rules: seq<Rule>, engine: RegexEngine, line: seq<byte>, level: string)
    requires |rules| > 0
    ensures var n := |rules| - 1;
            LevelHits(rules, engine, line, level)
            == LevelHits(rules[..n], engine, line, level)
               + (if engine.matches(rules[n].pattern, line) && rules[n].level == level then {n} else {})
  {
  }

  /** The match count grows by the number of matching rules, and each
      level's counter by the number of matching rules of that level (two
      matching rules of one level add two). */
  lemma {:induction false} ApplyRulesCounts(rules: seq<Rule>, engine: RegexEngine, line: seq<byte>, c: Counters)
    ensures ApplyRules(rules, engine, line, c).matchCount == c.matchCount + |Hits(rules, engine, line)|
    ensures forall l :: LevelCount(ApplyRules(rules, engine, line, c), l)
                        == LevelCount(c, l) + |LevelHits(rules, engine, line, l)|
    decreases |rules|
  {
    if |rules| > 0 {
      var n := |rules| - 1;
      var p := rules[..n];
      ApplyRulesCounts(p, engine, line, c);
      HitsSnoc(rules, engine, line);
      assert n !in Hits(p, engine, line);
      forall l
        ensures LevelCount(ApplyRules(rules, engine, line, c), l)
                == LevelCount(c, l) + |LevelHits(rules, engine, line, l)|
      {
        LevelHitsSnoc(rules, engine, line, l);
        assert n !in LevelHits(p, engine, line, l);
      }
    }
  }

  /** A line that no rule matches changes no counter at all. */
  lemma {:induction false} ApplyRulesNoHit(rules: seq<Rule>, engine: RegexEngine, line: seq<byte>, c: Counters)
    requires forall i :: 0 <= i < |rules| ==> !engine.matches(rules[i].pattern, line)
    ensures ApplyRules(rules, engine, line, c) == c
    decreases |rules|
  {
    if |rules| > 0 {
      ApplyRulesNoHit(rules[..|rules| - 1], engine, line, c);
    }
  }

  /** The effect of one scanned line on the counters. */
  function MatchLine(m: Matcher, line: seq<byte>, c: Counters): (r: Counters)
    ensures r.matchCount == c.matchCount + |Hits(m.rules, m.engine, line)|
    ensures forall l :: LevelCount(r, l) == LevelCount(c, l) + |LevelHits(m.rules, m.engine, line, l)|
    ensures Hits(m.rules, m.engine, line) == {} ==> r == c
  {
    ApplyRulesCounts(m.rules, m.engine, line, c);
    NoHitUnchanged(m.rules, m.engine, line, c);
    ApplyRules(m.rules, m.engine, line, c)
  }

  lemma NoHitUnchanged(rules: seq<Rule>, engine: RegexEngine, line: seq<byte>, c: Counters)
    ensures Hits(rules, engine, line) == {} ==> ApplyRules(rules, engine, line, c) == c
  {
    if Hits(rules, engine, line) == {} {
      forall i | 0 <= i < |rules|
        ensures !engine.matches(rules[i].pattern, line)
      {
        assert i !in Hits(rules, engine, line);
      }
      ApplyRulesNoHit(rules, engine, line, c);
    }
  }

  /** The effect of a sequence of lines, matched in order. */
  function MatchLines(m: Matcher, lines: seq<seq<byte>>, c: Counters): Counters
    decreases |lines|
  {
    if |lines| == 0 then c else MatchLines(m, lines[1..], MatchLine(m, lines[0], c))
  }

  /** The reported total match count. */
  function GetMatchCount(c: Counters): nat {
    c.matchCount
  }

  /** The number of rule matches over all of `lines`. */
  function TotalHits(m: Matcher, lines: seq<seq<byte>>): nat {
    if |lines| == 0 then 0 else |Hits(m.rules, m.engine, lines[0])| + TotalHits(m, lines[1..])
  }

  /** The reported total grows by the number of rule matches over all the
      lines read. */
  lemma {:induction false} MatchLinesCount(m: Matcher, lines: seq<seq<byte>>, c: Counters)
    ensures GetMatchCount(MatchLines(m, lines, c)) == GetMatchCount(c) + TotalHits(m, lines)
    decreases |lines|
  {
    if |lines| > 0 {
      MatchLinesCount(m, lines[1..], MatchLine(m, lines[0], c));
    }
  }

  /** Matching two batches of lines one after the other counts the same as
      matching them as one batch. */
  lemma {:induction false} MatchLinesAppend(m: Matcher, a: seq<seq<byte>>, b: seq<seq<byte>>, c: Counters)
    ensures MatchLines(m, a + b, c) == MatchLines(m, b, MatchLines(m, a, c))
    decreases |a|
  {
    if |a| == 0 {
      assert a + b == b;
    } else {
      assert (a + b)[1..] == a[1..] + b;
      MatchLinesAppend(m, a[1..], b, MatchLine(m, a[0], c));
    }
  }

  // ---------------------------------------------------------------------
  // Processing a file from an offset

  /** File contents; an offset into them fits Go's `int64`. */
  type Content = s: seq<byte> | |s| <= MaxInt64

  /** What opening and reading the file yields: an open error; its
      (non-growing) contents, read to the end; or contents of which only
      `readable` bytes after the offset can be read before a read error (a
      directory, for one, opens but fails its first read). */
  datatype FileView =
    | Unopenable(reason: string)
    | Opened(content: Content)
    | ReadFails(content: Content, readable: nat)

  datatype ProcessError = OpenFailed(reason: string) | SeekFailed | ScanFailed

  /** The offset the call returns, its error if any, and the counters after
      it. */
  datatype Processed = Processed(newOffset: int64, error: Option<ProcessError>, counters: Counters)

  /** The bytes after `offset`: seeking past the end succeeds and reads
      nothing. */
  function Remainder(content: seq<byte>, offset: nat): (data: seq<byte>)
    ensures offset <= |content| ==> data == content[offset..]
    ensures offset >= |content| ==> data == []
  {
    if offset <= |content| then content[offset..] else []
  }

  /** The bytes the reader hands over before its read error. */
  function ReadablePart(content: seq<byte>, offset: nat, readable: nat): (data: seq<byte>)
    ensures |data| <= readable && |data| <= |Remainder(content, offset)|
    ensures data == Remainder(content, offset)[..|data|]
    ensures |data| < readable ==> data == Remainder(content, offset)
  {
    var rest := Remainder(content, offset);
    if readable < |rest| then rest[..readable] else rest
  }

  /** The scan of a remainder as an explicit reference: the pieces between
      newlines, cut at the first one that does not fit the buffer. */
  function DeliveredLines(data: seq<byte>, bufferSize: nat): seq<seq<byte>> {
    var segs := LineScanner.Segments(data);
    if bufferSize == 0 then [] else LineScanner.DropCRs(segs[..LineScanner.FirstTooLong(segs, bufferSize)])
  }

  predicate ScanFits(data: seq<byte>, bufferSize: nat) {
    var segs := LineScanner.Segments(data);
    bufferSize > 0 && LineScanner.FirstTooLong(segs, bufferSize) == |segs|
  }

  lemma SegmentsNonEmpty(data: seq<byte>)
    ensures |LineScanner.Segments(data)| == 0 <==> |data| == 0
  {
  }

  /** Reads the lines after `offset` and matches each of them, returning
      where to resume. As written: the result is the reader position after
      the last line, or zero when no line was read; a failure at open, seek
      or scan returns the input offset. Lines matched before a scan failure
      stay counted. */
  function ProcessFile(m: Matcher, file: FileView, offset: int64, c: Counters): (r: Processed)
    ensures file.Unopenable? ==> r == Processed(offset, Some(OpenFailed(file.reason)), c)
    ensures !file.Unopenable? && offset < 0 ==> r == Processed(offset, Some(SeekFailed), c)
    ensures file.ReadFails? && offset >= 0 ==>
              var data := ReadablePart(file.content, offset, file.readable);
              r == Processed(offset, Some(ScanFailed), MatchLines(m, DeliveredLines(data, m.bufferSize), c))
    ensures file.Opened? && offset >= 0 ==>
              var data := Remainder(file.content, offset);
              && r.counters == MatchLines(m, DeliveredLines(data, m.bufferSize), c)
              && (r.error.Some? <==> !ScanFits(data, m.bufferSize))
              && (r.error.Some? ==> r.error.value == ScanFailed && r.newOffset == offset)
              && (r.error.None? && offset < |file.content| ==> r.newOffset == |file.content|)
              && (r.error.None? && offset >= |file.content| ==> r.newOffset == 0)
  {
    match file
    case Unopenable(reason) => Processed(offset, Some(OpenFailed(reason)), c)
    case Opened(content) =>
      if offset < 0 then Processed(offset, Some(SeekFailed), c)
      else
        var data := Remainder(content, offset);
        var scan := LineScanner.ScanLines(data, m.bufferSize);
        LineScanner.ScanMatchesSegments(data, m.bufferSize);
        SegmentsNonEmpty(data);
        var after := MatchLines(m, scan.lines, c);
        if scan.failed then Processed(offset, Some(ScanFailed), after)
        else if |scan.lines| == 0 then Processed(0, None, after)
        else Processed(|content| as int64, None, after)
    case ReadFails(content, readable) =>
      if offset < 0 then Processed(offset, Some(SeekFailed), c)
      else
        var data := ReadablePart(content, offset, readable);
        var scan := LineScanner.ScanLines(data, m.bufferSize);
        LineScanner.ScanMatchesSegments(data, m.bufferSize);
        SegmentsNonEmpty(data);
        Processed(offset, Some(ScanFailed), MatchLines(m, scan.lines, c))
  }

  /** A file that fails its first read, as a directory does, keeps the
      offset, reports the scan error and counts nothing. */
  lemma FailedFirstReadCountsNothing(m: Matcher, content: Content, offset: int64, c: Counters)
    requires offset >= 0
    ensures ProcessFile(m, ReadFails(content, 0), offset, c) == Processed(offset, Some(ScanFailed), c)
  {
    var data := ReadablePart(content, offset, 0);
    assert data == [];
    SegmentsNonEmpty(data);
  }

  /** Reaching the end resets the offset: once everything has been read, a
      further call finds no line and returns zero instead of the end of the
      file, so the call after it reads the whole file again. */
  lemma ProcessAtEndReturnsZero(m: Matcher, content: Content, c: Counters)
    requires m.bufferSize > 0 && |content| > 0
    ensures ProcessFile(m, Opened(content), |content| as int64, c) == Processed(0, None, c)
  {
    assert Remainder(content, |content|) == [];
  }

  /** The corrected call: when no line is read and the file still reaches
      the offset, the offset is kept, as a resume position should be. A file
      that has shrunk below the offset restarts from zero, as written.
      Everything else is as written. */
  function ProcessFileResuming(m: Matcher, file: FileView, offset: int64, c: Counters): (r: Processed)
    ensures r.counters == ProcessFile(m, file, offset, c).counters
    ensures r.error == ProcessFile(m, file, offset, c).error
    ensures file.Opened? && offset >= 0 && r.error.None? ==>
              r.newOffset == (if offset <= |file.content| then |file.content| else 0)
    ensures file.Opened? && r.error.None? ==> r.newOffset <= |file.content|
    ensures r.error.Some? || !file.Opened? || offset != |file.content| ==> r == ProcessFile(m, file, offset, c)
  {
    var r := ProcessFile(m, file, offset, c);
    if file.Opened? && r.error.None? && offset as int == |file.content| then Processed(offset, None, r.counters)
    else r
  }

  /** Calling again right after a successful call reads nothing, keeps the
      offset and changes no counter; after a shrink the call restarts from
      zero having counted nothing. */
  lemma ResumingIdempotent(m: Matcher, file: FileView, offset: int64, c: Counters)
    requires file.Opened? && offset >= 0
    requires ProcessFileResuming(m, file, offset, c).error.None?
    ensures var r := ProcessFileResuming(m, file, offset, c);
            && (offset <= |file.content| ==> ProcessFileResuming(m, file, r.newOffset, r.counters) == r)
            && (offset > |file.content| ==> r.newOffset == 0 && r.counters == c)
  {
    var r := ProcessFileResuming(m, file, offset, c);
    assert Remainder(file.content, |file.content|) == [];
    if offset > |file.content| {
      assert Remainder(file.content, offset as nat) == [];
    }
  }

  lemma DropCRsAppend(a: seq<seq<byte>>, b: seq<seq<byte>>)
    ensures LineScanner.DropCRs(a + b) == LineScanner.DropCRs(a) + LineScanner.DropCRs(b)
  {
  }

  lemma FitsAll(data: seq<byte>, bufferSize: nat)
    requires ScanFits(data, bufferSize)
    ensures DeliveredLines(data, bufferSize) == LineScanner.DropCRs(LineScanner.Segments(data))
  {
    var segs := LineScanner.Segments(data);
    assert segs[..|segs|] == segs;
  }

  lemma FitsParts(sa: seq<seq<byte>>, sb: seq<seq<byte>>, bufferSize: nat)
    requires LineScanner.FirstTooLong(sa + sb, bufferSize) == |sa + sb|
    ensures LineScanner.FirstTooLong(sa, bufferSize) == |sa|
    ensures LineScanner.FirstTooLong(sb, bufferSize) == |sb|
  {
    var s := sa + sb;
    forall k | 0 <= k < |sa| ensures |sa[k]| < bufferSize { assert s[k] == sa[k]; }
    forall k | 0 <= k < |sb| ensures |sb[k]| < bufferSize { assert s[|sa| + k] == sb[k]; }
  }

  lemma FitsSplit(a: seq<byte>, b: seq<byte>, bufferSize: nat)
    requires |a| == 0 || LineScanner.EndsWithNewline(a)
    requires ScanFits(a + b, bufferSize)
    ensures ScanFits(a, bufferSize) && ScanFits(b, bufferSize)
    ensures DeliveredLines(a + b, bufferSize) == DeliveredLines(a, bufferSize) + DeliveredLines(b, bufferSize)
  {
    LineScanner.SegmentsAppend(a, b);
    var sa := LineScanner.Segments(a);
    var sb := LineScanner.Segments(b);
    FitsParts(sa, sb, bufferSize);
    FitsAll(a, bufferSize);
    FitsAll(b, bufferSize);
    FitsAll(a + b, bufferSize);
    DropCRsAppend(sa, sb);
  }

  /** Following a file as whole lines are appended to it counts every line
      exactly once: reading the first part and then resuming after growth
      matches exactly the lines a single read of the grown file would. */
  lemma ResumingAfterAppend(m: Matcher, a: Content, b: seq<byte>, c: Counters)
    requires |a| + |b| <= MaxInt64
    requires |a| == 0 || LineScanner.EndsWithNewline(a)
    requires ScanFits(a + b, m.bufferSize)
    ensures var first := ProcessFileResuming(m, Opened(a), 0, c);
            var second := ProcessFileResuming(m, Opened(a + b), first.newOffset, first.counters);
            && first.error.None? && first.newOffset == |a|
            && second == ProcessFileResuming(m, Opened(a + b), 0, c)
  {
    var ab: Content := a + b;
    FitsSplit(a, b, m.bufferSize);
    assert Remainder(a, 0) == a;
    assert Remainder(ab, 0) == ab;
    assert Remainder(ab, |a|) == b;
    MatchLinesAppend(m, DeliveredLines(a, m.bufferSize), DeliveredLines(b, m.bufferSize), c);
  }

  /** A trailing piece with no newline yet is read as a complete line and
      the offset moves past it, so when the writer later finishes that line
      its remainder is read as a separate line. */
  lemma PartialLineConsumed(m: Matcher, a: seq<byte>, frag: seq<byte>, rest: seq<byte>, c: Counters)
    requires |a| + |frag| + |rest| <= MaxInt64
    requires |a| == 0 || LineScanner.EndsWithNewline(a)
    requires |frag| > 0 && NewlineByte !in frag
    requires ScanFits(a + frag, m.bufferSize)
    ensures var first := ProcessFile(m, Opened(a + frag), 0, c);
            && first.error.None? && first.newOffset == |a| + |frag|
            && Remainder(a + frag + rest, first.newOffset) == rest
  {
    var af: Content := a + frag;
    assert Remainder(af, 0) == af;
    assert (a + frag + rest)[|a| + |frag|..] == rest;
  }
}
