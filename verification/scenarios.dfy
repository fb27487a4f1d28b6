/** Concrete runs of the monitor on a one-line file `app.log` watched with
    the pattern `*.log` and one rule that matches every line. The file is
    created, then reported written twice without growing, as a writer that
    flushes without new data causes. */
module Scenarios {
  import opened Common
  import Position
  import Matcher
  import Monitor

  const Line: Matcher.Content := [97, 10]

  const Engine: Matcher.RegexEngine := Matcher.RegexEngine(p => None, (p, line) => true)

  const Rules: seq<Matcher.Rule> := [Matcher.Rule("a", "warn")]

  function Glob(pattern: string, base: string): Monitor.GlobOutcome {
    if base == "app.log" then Monitor.Matched else Monitor.NoMatch
  }

  function Cfg(offsets: Monitor.OffsetRule): Monitor.Config {
    Monitor.Config(["*.log"], Matcher.Matcher(Rules, 4096, Engine), Glob, offsets)
  }

  const Start: Monitor.State := Monitor.State(map[], 0, Matcher.NoCounts, 0, {})

  const Seen: Monitor.Observation := Monitor.Observation(true, Matcher.Opened(Line), true)

  function Created(offsets: Monitor.OffsetRule): Monitor.State {
    Monitor.HandleEvent(Cfg(offsets), Start, Monitor.Event("logs/app.log", {Monitor.Create}), Seen)
  }

  function Written(offsets: Monitor.OffsetRule, s: Monitor.State): Monitor.State {
    Monitor.HandleEvent(Cfg(offsets), s, Monitor.Event("logs/app.log", {Monitor.Write}), Seen)
  }

  lemma BaseOfLogPath()
    ensures Monitor.Base("logs/app.log") == "app.log"
  {
    Monitor.BaseOfJoin("logs", "app.log");
    assert "logs" + "/" + "app.log" == "logs/app.log";
  }

  lemma LineDelivered()
    ensures Matcher.DeliveredLines(Line, 4096) == [[97]]
    ensures Matcher.ScanFits(Line, 4096)
  {
    assert Line[..1] == [97] && Line[2..] == [];
  }

  /** Reading the file from the start finds its one line, which the rule
      matches. */
  lemma ReadFromStart(m: Matcher.Matcher, c: Matcher.Counters)
    requires m == Matcher.Matcher(Rules, 4096, Engine)
    ensures var r := Matcher.ProcessFile(m, Matcher.Opened(Line), 0, c);
            r.error.None? && r.newOffset == 2 && r.counters.matchCount == c.matchCount + 1
  {
    LineDelivered();
    assert Matcher.Remainder(Line, 0) == Line;
    assert Matcher.Hits(m.rules, m.engine, [97]) == {0};
    assert Matcher.MatchLines(m, [[97]], c) == Matcher.MatchLine(m, [97], c);
  }

  lemma CreateReadsLine(offsets: Monitor.OffsetRule)
    ensures Created(offsets).counters.matchCount == 1
    ensures Position.GetPosition(Created(offsets).positions, "logs/app.log") == 2
    ensures Created(offsets).fileCount == 1
  {
    BaseOfLogPath();
    ReadFromStart(Cfg(offsets).matcher, Matcher.NoCounts);
  }

  /** As written, the first idle Write resets the stored offset to zero and
      the second reads the line again: one line, counted twice. */
  lemma RepeatedWriteRecounts()
    ensures var s1 := Created(Monitor.AsWritten);
            var s2 := Written(Monitor.AsWritten, s1);
            var s3 := Written(Monitor.AsWritten, s2);
            && Position.GetPosition(s2.positions, "logs/app.log") == 0
            && s3.counters.matchCount == 2
  {
    BaseOfLogPath();
    CreateReadsLine(Monitor.AsWritten);
    var cfg := Cfg(Monitor.AsWritten);
    var s1 := Created(Monitor.AsWritten);
    Monitor.IdleWriteResetsOffset(cfg, s1, "logs/app.log", Line);
    var s2 := Written(Monitor.AsWritten, s1);
    ReadFromStart(cfg.matcher, s2.counters);
  }

  /** With the corrected offset rule the idle Writes change nothing and the
      line is counted once. */
  lemma RepeatedWriteCountsOnce()
    ensures var s1 := Created(Monitor.KeepOffsetWhenIdle);
            var s3 := Written(Monitor.KeepOffsetWhenIdle, Written(Monitor.KeepOffsetWhenIdle, s1));
            && s3 == s1
            && s3.counters.matchCount == 1
  {
    BaseOfLogPath();
    CreateReadsLine(Monitor.KeepOffsetWhenIdle);
    var cfg := Cfg(Monitor.KeepOffsetWhenIdle);
    var s1 := Created(Monitor.KeepOffsetWhenIdle);
    Monitor.IdleWriteChangesNothing(cfg, s1, "logs/app.log", Line);
  }
}
