/** The file monitor as a sequential state machine. Each file-system event
    is first filtered by matching the base name of its path against the
    glob patterns, then dispatched on its operation bits with the priority
    Write, Create, Remove. The state is the position store, the file count,
    the match counters, the processed-files counter and the set of paths
    subscribed to. What the file system shows at each event (whether `stat`
    succeeds, what opening the file yields, whether subscribing succeeds)
    arrives with the event. */
module Monitor {
  import opened Common
  import Position
  import Matcher

  datatype Op = Create | Write | Remove | Rename | Chmod

  /** A notification: the path and the set operation bits. */
  datatype Event = Event(name: string, ops: set<Op>)

  /** What `filepath.Match` reports: a match, no match, or a malformed
      pattern (whose error the monitor discards). */
  datatype GlobOutcome = Matched | NoMatch | BadPattern

  /** Where a Write resumes after a call that read no line. `AsWritten`
      takes the returned zero; `KeepOffsetWhenIdle` keeps the offset, the
      corrected behaviour. */
  datatype OffsetRule = AsWritten | KeepOffsetWhenIdle

  datatype Config = Config(
    patterns: seq<string>,
    matcher: Matcher.Matcher,
    glob: (string, string) -> GlobOutcome,
    offsets: OffsetRule)

  datatype State = State(
    positions: Position.Positions,
    fileCount: int,
    counters: Matcher.Counters,
    processedFiles: nat,
    watched: set<string>)

  /** The file system as seen while handling one event. */
  datatype Observation = Observation(statOk: bool, file: Matcher.FileView, addOk: bool)

  // ---------------------------------------------------------------------
  // Base name

  function TrimTrailingSlashes(path: string): (r: string)
    ensures |r| <= |path| && r == path[..|r|]
    ensures |r| > 0 ==> r[|r| - 1] != '/'
    ensures forall j :: |r| <= j < |path| ==> path[j] == '/'
  {
    if |path| > 0 && path[|path| - 1] == '/' then TrimTrailingSlashes(path[..|path| - 1]) else path
  }

  function AfterLastSlash(s: string): (r: string)
    ensures '/' !in r
    ensures |r| <= |s| && r == s[|s| - |r|..]
    ensures |r| < |s| ==> s[|s| - |r| - 1] == '/'
  {
    if |s| == 0 || s[|s| - 1] == '/' then [] else AfterLastSlash(s[..|s| - 1]) + [s[|s| - 1]]
  }

  /** The last element of a slash-separated path, as `filepath.Base`
      computes it on Unix: trailing slashes are ignored, an empty path gives
      `.` and a path of slashes only gives `/`. */
  function Base(path: string): (b: string)
    ensures |b| > 0
    ensures b == "/" || '/' !in b
    ensures |path| == 0 ==> b == "."
  {
    if |path| == 0 then "."
    else
      var trimmed := TrimTrailingSlashes(path);
      if |trimmed| == 0 then "/" else AfterLastSlash(trimmed)
  }

  /** `b` is a path element of `path` ending at index `end`, followed by
      nothing but slashes. */
  predicate ElementEndsAt(path: string, b: string, end: int) {
    && |b| <= end <= |path|
    && path[end - |b|..end] == b
    && (end == |b| || path[end - |b| - 1] == '/')
    && forall j :: end <= j < |path| ==> path[j] == '/'
  }

  /** The base name is the last element of the path: the slash-free run
      that only slashes follow. A path of slashes only has base `/`. */
  lemma BaseIsLastElement(path: string)
    ensures |path| > 0 && (forall i :: 0 <= i < |path| ==> path[i] == '/') ==> Base(path) == "/"
    ensures (exists i :: 0 <= i < |path| && path[i] != '/') ==>
              '/' !in Base(path) && exists end :: ElementEndsAt(path, Base(path), end)
  {
    var t := TrimTrailingSlashes(path);
    if |t| > 0 {
      assert t[|t| - 1] == path[|t| - 1];
      var b := AfterLastSlash(t);
      assert path[|t| - |b|..|t|] == t[|t| - |b|..];
      if |b| < |t| {
        assert path[|t| - |b| - 1] == t[|t| - |b| - 1];
      }
      assert ElementEndsAt(path, Base(path), |t|);
    }
  }

  /** A directory followed by a plain file name has that file name as its
      base. */
  lemma BaseOfJoin(dir: string, name: string)
    requires |name| > 0 && '/' !in name
    ensures Base(dir + "/" + name) == name
  {
    var p := dir + "/" + name;
    assert p[|p| - 1] == name[|name| - 1];
    assert TrimTrailingSlashes(p) == p;
    AfterLastSlashAppend(dir + "/", name);
  }

  lemma {:induction false} AfterLastSlashAppend(pre: string, name: string)
    requires |pre| > 0 && pre[|pre| - 1] == '/' && '/' !in name
    ensures AfterLastSlash(pre + name) == name
    decreases |name|
  {
    if |name| == 0 {
      assert pre + name == pre;
    } else {
      var q := pre + name;
      var init := name[..|name| - 1];
      assert q[..|q| - 1] == pre + init;
      assert q[|q| - 1] == name[|name| - 1];
      AfterLastSlashAppend(pre, init);
      assert name == init + [name[|name| - 1]];
    }
  }

  // ---------------------------------------------------------------------
  // Filter and dispatch

  /** Tries the patterns in order, stopping at the first match. */
  function AnyPatternMatches(patterns: seq<string>, glob: (string, string) -> GlobOutcome, base: string): (b: bool)
    ensures b <==> exists i :: 0 <= i < |patterns| && glob(patterns[i], base) == Matched
  {
    if |patterns| == 0 then false
    else if glob(patterns[0], base) == Matched then true
    else
      var rest := AnyPatternMatches(patterns[1..], glob, base);
      assert forall i :: 1 <= i < |patterns| ==> patterns[i] == patterns[1..][i - 1];
      rest
  }

  predicate Selected(cfg: Config, name: string) {
    AnyPatternMatches(cfg.patterns, cfg.glob, Base(name))
  }

  /** The handler an event reaches. */
  datatype Action = DoWrite | DoCreate | DoRemove | Ignore

  /** Which handler runs: none for an unselected event; otherwise the
      Write bit wins over Create, and Create over Remove. Rename and Chmod
      alone reach no handler. */
  function Dispatch(cfg: Config, ev: Event): (a: Action)
    ensures !Selected(cfg, ev.name) ==> a == Ignore
    ensures Selected(cfg, ev.name) && Write in ev.ops ==> a == DoWrite
    ensures Selected(cfg, ev.name) && Write !in ev.ops && Create in ev.ops ==> a == DoCreate
    ensures Selected(cfg, ev.name) && Write !in ev.ops && Create !in ev.ops && Remove in ev.ops ==> a == DoRemove
    ensures Write !in ev.ops && Create !in ev.ops && Remove !in ev.ops ==> a == Ignore
  {
    if !Selected(cfg, ev.name) then Ignore
    else if Write in ev.ops then DoWrite
    else if Create in ev.ops then DoCreate
    else if Remove in ev.ops then DoRemove
    else Ignore
  }

  /** The glob with every malformed-pattern answer read as no match. */
  function ErrorsAsNoMatch(glob: (string, string) -> GlobOutcome): (string, string) -> GlobOutcome {
    (p, b) => if glob(p, b) == BadPattern then NoMatch else glob(p, b)
  }

  /** The error of a malformed pattern is discarded: reading every
      `BadPattern` answer as `NoMatch` selects and dispatches exactly the
      same events. */
  lemma BadPatternsSelectNothing(cfg: Config, ev: Event)
    ensures Selected(cfg, ev.name) == Selected(cfg.(glob := ErrorsAsNoMatch(cfg.glob)), ev.name)
    ensures Dispatch(cfg, ev) == Dispatch(cfg.(glob := ErrorsAsNoMatch(cfg.glob)), ev)
  {
    var g := ErrorsAsNoMatch(cfg.glob);
    var base := Base(ev.name);
    forall i | 0 <= i < |cfg.patterns|
      ensures g(cfg.patterns[i], base) == Matched <==> cfg.glob(cfg.patterns[i], base) == Matched
    {
    }
  }

  // ---------------------------------------------------------------------
  // Handlers

  function Process(cfg: Config, file: Matcher.FileView, offset: int64, c: Matcher.Counters): Matcher.Processed {
    match cfg.offsets
    case AsWritten => Matcher.ProcessFile(cfg.matcher, file, offset, c)
    case KeepOffsetWhenIdle => Matcher.ProcessFileResuming(cfg.matcher, file, offset, c)
  }

  /** A Write resumes at the stored offset. A failed `stat` changes nothing;
      a failed call keeps the store but not necessarily the counters (lines
      before a scan failure were counted); a successful one stores the
      returned offset. */
  function HandleWrite(cfg: Config, s: State, f: string, seen: Observation): (r: State)
    ensures r.fileCount == s.fileCount && r.processedFiles == s.processedFiles && r.watched == s.watched
    ensures !seen.statOk ==> r == s
    ensures seen.statOk ==>
              var p := Process(cfg, seen.file, Position.GetPosition(s.positions, f), s.counters);
              && r.counters == p.counters
              && (p.error.Some? ==> r.positions == s.positions)
              && (p.error.None? ==> r.positions == Position.UpdatePosition(s.positions, f, p.newOffset))
  {
    if !seen.statOk then s
    else
      var p := Process(cfg, seen.file, Position.GetPosition(s.positions, f), s.counters);
      if p.error.Some? then s.(counters := p.counters)
      else s.(counters := p.counters, positions := Position.UpdatePosition(s.positions, f, p.newOffset))
  }

  /** A Create counts the file first, then reads it from the start whatever
      offset is stored. Only a successful read stores the offset, subscribes
      to the path (when subscribing works) and counts a processed file. */
  function HandleCreate(cfg: Config, s: State, f: string, seen: Observation): (r: State)
    ensures r.fileCount == s.fileCount + 1
    ensures var p := Process(cfg, seen.file, 0, s.counters);
            && r.counters == p.counters
            && (p.error.Some? ==> r.positions == s.positions && r.processedFiles == s.processedFiles
                                  && r.watched == s.watched)
            && (p.error.None? ==> && r.positions == Position.UpdatePosition(s.positions, f, p.newOffset)
                                  && r.processedFiles == s.processedFiles + 1
                                  && r.watched == (if seen.addOk then s.watched + {f} else s.watched))
  {
    var counted := s.(fileCount := s.fileCount + 1);
    var p := Process(cfg, seen.file, 0, counted.counters);
    if p.error.Some? then counted.(counters := p.counters)
    else
      counted.(counters := p.counters,
               positions := Position.UpdatePosition(s.positions, f, p.newOffset),
               watched := if seen.addOk then s.watched + {f} else s.watched,
               processedFiles := s.processedFiles + 1)
  }

  /** A Remove uncounts the file with no lower bound, unsubscribes and
      forgets its offset; nothing else changes. */
  function HandleRemove(s: State, f: string): (r: State)
    ensures r.fileCount == s.fileCount - 1
    ensures r.positions == Position.RemovePosition(s.positions, f)
    ensures r.watched == s.watched - {f}
    ensures r.counters == s.counters && r.processedFiles == s.processedFiles
  {
    s.(fileCount := s.fileCount - 1,
       watched := s.watched - {f},
       positions := Position.RemovePosition(s.positions, f))
  }

  function HandleEvent(cfg: Config, s: State, ev: Event, seen: Observation): (r: State)
    ensures Dispatch(cfg, ev) == Ignore ==> r == s
    ensures Dispatch(cfg, ev) == DoWrite ==> r == HandleWrite(cfg, s, ev.name, seen)
    ensures Dispatch(cfg, ev) == DoCreate ==> r == HandleCreate(cfg, s, ev.name, seen)
    ensures Dispatch(cfg, ev) == DoRemove ==> r == HandleRemove(s, ev.name)
  {
    match Dispatch(cfg, ev)
    case Ignore => s
    case DoWrite => HandleWrite(cfg, s, ev.name, seen)
    case DoCreate => HandleCreate(cfg, s, ev.name, seen)
    case DoRemove => HandleRemove(s, ev.name)
  }

  /** The change an event makes to the file count. */
  function CountDelta(a: Action): int {
    match a
    case DoCreate => 1
    case DoRemove => -1
    case _ => 0
  }

  /** Only the entry of the event's own path can change in the store. */
  lemma HandleEventLocal(cfg: Config, s: State, ev: Event, seen: Observation, g: string)
    requires g != ev.name
    ensures Position.GetPosition(HandleEvent(cfg, s, ev, seen).positions, g) == Position.GetPosition(s.positions, g)
  {
  }

  /** Only Create and Remove move the file count, by one each way. */
  lemma HandleEventCount(cfg: Config, s: State, ev: Event, seen: Observation)
    ensures HandleEvent(cfg, s, ev, seen).fileCount == s.fileCount + CountDelta(Dispatch(cfg, ev))
  {
  }

  /** A Create does not depend on the offset stored for its path. */
  lemma CreateIgnoresStoredOffset(cfg: Config, s: State, f: string, seen: Observation, stored: int64)
    ensures HandleCreate(cfg, s.(positions := Position.UpdatePosition(s.positions, f, stored)), f, seen).counters
            == HandleCreate(cfg, s, f, seen).counters
    ensures var p := Process(cfg, seen.file, 0, s.counters);
            p.error.None? ==>
              HandleCreate(cfg, s.(positions := Position.UpdatePosition(s.positions, f, stored)), f, seen).positions
              == HandleCreate(cfg, s, f, seen).positions
  {
  }

  /** With the corrected offset rule, a Write that finds nothing new leaves
      the whole state as it was. */
  lemma IdleWriteChangesNothing(cfg: Config, s: State, f: string, content: Matcher.Content)
    requires cfg.offsets == KeepOffsetWhenIdle && cfg.matcher.bufferSize > 0
    requires f in s.positions && s.positions[f] == |content|
    ensures HandleWrite(cfg, s, f, Observation(true, Matcher.Opened(content), true)) == s
  {
    assert Matcher.Remainder(content, |content|) == [];
    assert s.positions[f := s.positions[f]] == s.positions;
  }

  /** As written, a Write that finds nothing new resets the stored offset
      of a non-empty file to zero, so the next Write reads the file from its
      start again. */
  lemma IdleWriteResetsOffset(cfg: Config, s: State, f: string, content: Matcher.Content)
    requires cfg.offsets == AsWritten && cfg.matcher.bufferSize > 0 && |content| > 0
    requires f in s.positions && s.positions[f] == |content|
    ensures var r := HandleWrite(cfg, s, f, Observation(true, Matcher.Opened(content), true));
            r.counters == s.counters && Position.GetPosition(r.positions, f) == 0
  {
    Matcher.ProcessAtEndReturnsZero(cfg.matcher, content, s.counters);
  }

  // ---------------------------------------------------------------------
  // The watch loop

  /** What the loop receives next: an event, an item on the error channel,
      a closed channel, or cancellation. */
  datatype Input =
    | EventIn(event: Event, seen: Observation)
    | ErrorIn(message: string)
    | EventsClosed
    | ErrorsClosed
    | Cancelled

  predicate Stops(i: Input) {
    i.EventsClosed? || i.ErrorsClosed? || i.Cancelled?
  }

  /** The state after the loop, how many inputs it took, and whether it
      returned (rather than running out of inputs). */
  datatype WatchResult = WatchResult(state: State, consumed: nat, stopped: bool)

  function Watch(cfg: Config, s: State, inputs: seq<Input>): (r: WatchResult)
    ensures r.consumed <= |inputs|
    decreases |inputs|
  {
    if |inputs| == 0 then WatchResult(s, 0, false)
    else
      match inputs[0]
      case EventIn(ev, seen) =>
        var rest := Watch(cfg, HandleEvent(cfg, s, ev, seen), inputs[1..]);
        rest.(consumed := rest.consumed + 1)
      case ErrorIn(_) =>
        var rest := Watch(cfg, s, inputs[1..]);
        rest.(consumed := rest.consumed + 1)
      case _ => WatchResult(s, 1, true)
  }

  /** Index of the first input that ends the loop, or the number of inputs
      when none does. */
  function FirstStop(inputs: seq<Input>): (k: nat)
    ensures k <= |inputs|
    ensures forall j :: 0 <= j < k ==> !Stops(inputs[j])
    ensures k < |inputs| ==> Stops(inputs[k])
  {
    if |inputs| == 0 || Stops(inputs[0]) then 0 else 1 + FirstStop(inputs[1..])
  }

  /** The net change in file count over the inputs before the first stop. */
  function NetCount(cfg: Config, inputs: seq<Input>): int {
    if |inputs| == 0 || Stops(inputs[0]) then 0
    else
      var d := if inputs[0].EventIn? then CountDelta(Dispatch(cfg, inputs[0].event)) else 0;
      d + NetCount(cfg, inputs[1..])
  }

  /** The state after taking one input that does not stop the loop. */
  function Next(cfg: Config, s: State, i: Input): State {
    if i.EventIn? then HandleEvent(cfg, s, i.event, i.seen) else s
  }

  lemma WatchStep(cfg: Config, s: State, inputs: seq<Input>)
    requires |inputs| > 0 && !Stops(inputs[0])
    ensures var rest := Watch(cfg, Next(cfg, s, inputs[0]), inputs[1..]);
            Watch(cfg, s, inputs) == rest.(consumed := rest.consumed + 1)
  {
  }

  /** The loop returns exactly at the first closed channel or cancellation,
      taking nothing after it, and runs through all inputs when none comes;
      error items are taken without effect. */
  lemma {:induction false} WatchStopsAtFirstStop(cfg: Config, s: State, inputs: seq<Input>)
    ensures var k := FirstStop(inputs);
            var r := Watch(cfg, s, inputs);
            && r.stopped == (k < |inputs|)
            && r.consumed == (if k < |inputs| then k + 1 else |inputs|)
            && r.state == Watch(cfg, s, inputs[..k]).state
  {
    WatchConsumed(cfg, s, inputs);
    WatchStateBeforeStop(cfg, s, inputs);
  }

  lemma {:induction false} WatchConsumed(cfg: Config, s: State, inputs: seq<Input>)
    ensures var k := FirstStop(inputs);
            var r := Watch(cfg, s, inputs);
            r.stopped == (k < |inputs|) && r.consumed == (if k < |inputs| then k + 1 else |inputs|)
    decreases |inputs|
  {
    if |inputs| > 0 && !Stops(inputs[0]) {
      WatchConsumed(cfg, Next(cfg, s, inputs[0]), inputs[1..]);
      WatchStep(cfg, s, inputs);
    }
  }

  lemma {:induction false} WatchStateBeforeStop(cfg: Config, s: State, inputs: seq<Input>)
    ensures Watch(cfg, s, inputs).state == Watch(cfg, s, inputs[..FirstStop(inputs)]).state
    decreases |inputs|
  {
    var k := FirstStop(inputs);
    if |inputs| > 0 && !Stops(inputs[0]) {
      var next := Next(cfg, s, inputs[0]);
      WatchStateBeforeStop(cfg, next, inputs[1..]);
      WatchStep(cfg, s, inputs);
      assert k == 1 + FirstStop(inputs[1..]);
      WatchStep(cfg, s, inputs[..k]);
      assert inputs[..k][1..] == inputs[1..][..k - 1];
    } else {
      assert inputs[..k] == [];
    }
  }

  /** The file count moves by one for each selected Create and back by one
      for each selected Remove (Write bits taking precedence), so it can go
      below zero. */
  lemma {:induction false} WatchFileCount(cfg: Config, s: State, inputs: seq<Input>)
    ensures Watch(cfg, s, inputs).state.fileCount == s.fileCount + NetCount(cfg, inputs)
    decreases |inputs|
  {
    if |inputs| > 0 && !Stops(inputs[0]) {
      var next := if inputs[0].EventIn? then HandleEvent(cfg, s, inputs[0].event, inputs[0].seen) else s;
      if inputs[0].EventIn? {
        HandleEventCount(cfg, s, inputs[0].event, inputs[0].seen);
      }
      WatchFileCount(cfg, next, inputs[1..]);
    }
  }

  /** Events whose path no pattern selects leave the state untouched. */
  lemma {:induction false} WatchUnselected(cfg: Config, s: State, inputs: seq<Input>)
    requires forall j :: 0 <= j < |inputs| && inputs[j].EventIn? ==> !Selected(cfg, inputs[j].event.name)
    ensures Watch(cfg, s, inputs).state == s
    decreases |inputs|
  {
    if |inputs| > 0 && !Stops(inputs[0]) {
      WatchUnselected(cfg, s, inputs[1..]);
    }
  }
}
