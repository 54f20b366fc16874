/**
  Reading a failing step out of a job log, from scripts/ghapp_queue_arm_guard.py. A step starts at
  its `##[group]Run` line; the lines up to `##[endgroup]` echo the step's script and are never
  output.

  A line is its time stamp, when it has one, and the text after it.
 */
module JobLog {
  import opened Wrappers

  datatype Line = Line(stamp: Option<int>, text: string)

  datatype Segment = Segment(started: Option<int>, output: seq<string>, hasError: bool)

  const RUN_GROUP: string := "##[group]Run "
  const END_GROUP: string := "##[endgroup]"
  const ERROR_MARK: string := "##[error]"

  predicate IsRun(text: string) {
    RUN_GROUP <= text
  }

  predicate IsEnd(text: string) {
    END_GROUP <= text
  }

  predicate IsError(text: string) {
    ERROR_MARK <= text
  }

  // ---------------------------------------------------------------------------
  // Where a line belongs, without building segments
  // ---------------------------------------------------------------------------

  /** Before any step, inside a step's script echo, or in its output. */
  datatype Place = Outside | Echo(started: Option<int>) | Output(started: Option<int>)

  function After(place: Place, line: Line): Place {
    if IsRun(line.text) then Echo(line.stamp)
    else if place.Echo? && IsEnd(line.text) then Output(place.started)
    else place
  }

  /** Where a reader that stands at `place` ends up. */
  function PlaceFrom(place: Place, log: seq<Line>): Place
    decreases |log|
  {
    if |log| == 0 then place else PlaceFrom(After(place, log[0]), log[1..])
  }

  /** The line is output of a step that started no earlier than `startedAt`. */
  predicate IsOutput(place: Place, line: Line, startedAt: int) {
    place.Output? && !IsRun(line.text) && place.started.Some? && place.started.value >= startedAt
  }

  function OutputFrom(place: Place, log: seq<Line>, startedAt: int): seq<string>
    decreases |log|
  {
    if |log| == 0 then []
    else (if IsOutput(place, log[0], startedAt) then [log[0].text] else [])
         + OutputFrom(After(place, log[0]), log[1..], startedAt)
  }

  function PlaceAt(log: seq<Line>): Place {
    PlaceFrom(Outside, log)
  }

  /** The output of every step that started no earlier than `startedAt`. */
  function OutputSince(log: seq<Line>, startedAt: int): seq<string> {
    OutputFrom(Outside, log, startedAt)
  }

  /** Reading two parts one after the other. */
  lemma {:induction false} ReadOn(place: Place, a: seq<Line>, b: seq<Line>, startedAt: int)
    ensures PlaceFrom(place, a + b) == PlaceFrom(PlaceFrom(place, a), b)
    ensures OutputFrom(place, a + b, startedAt) ==
            OutputFrom(place, a, startedAt) + OutputFrom(PlaceFrom(place, a), b, startedAt)
    decreases |a|
  {
    if |a| == 0 {
      assert a + b == b;
    } else {
      ReadOn(After(place, a[0]), a[1..], b, startedAt);
      assert (a + b)[1..] == a[1..] + b;
    }
  }

  /** Up to and including the first error line; `None` without one. */
  function ThroughFirstError(lines: seq<string>): Option<seq<string>> {
    if |lines| == 0 then None
    else
      var init := ThroughFirstError(lines[..|lines| - 1]);
      if init.Some? then init
      else if IsError(lines[|lines| - 1]) then Some(lines)
      else None
  }

  /** What the failing step printed, as one pass over the log. */
  function FailingOutput(log: seq<Line>, startedAt: int): Option<seq<string>> {
    ThroughFirstError(OutputSince(log, startedAt))
  }

  // ---------------------------------------------------------------------------
  // The program
  // ---------------------------------------------------------------------------

  /** The output of the eligible segments, in order. */
  function Eligible(segments: seq<Segment>, startedAt: int): seq<string> {
    if |segments| == 0 then []
    else
      var last := segments[|segments| - 1];
      Eligible(segments[..|segments| - 1], startedAt)
      + if last.started.Some? && last.started.value >= startedAt then last.output else []
  }

  predicate HasError(lines: seq<string>) {
    exists line | line in lines :: IsError(line)
  }

  /** Each segment's error flag is right. */
  ghost predicate FlagsRight(segments: seq<Segment>) {
    forall s | s in segments :: s.hasError == HasError(s.output)
  }

  ghost predicate SameOutput(segments: seq<Segment>, log: seq<Line>) {
    forall startedAt :: Eligible(segments, startedAt) == OutputSince(log, startedAt)
  }

  ghost predicate Matches(segments: seq<Segment>, inEcho: bool, log: seq<Line>) {
    && FlagsRight(segments)
    && SameOutput(segments, log)
    && PlaceAt(log) == (if |segments| == 0 then Outside
                        else if inEcho then Echo(segments[|segments| - 1].started)
                        else Output(segments[|segments| - 1].started))
  }

  method Segments(log: seq<Line>) returns (segments: seq<Segment>)
    ensures FlagsRight(segments) && SameOutput(segments, log)
  {
    segments := [];
    var inEcho := false;
    for i := 0 to |log|
      invariant Matches(segments, inEcho, log[..i])
    {
      assert log[..i + 1] == log[..i] + [log[i]];
      var text := log[i].text;
      if IsRun(text) {
        RunMatches(segments, inEcho, log[..i], log[i]);
        segments := segments + [Segment(log[i].stamp, [], false)];
        inEcho := true;
        continue;
      }
      PlainMatches(segments, inEcho, log[..i], log[i]);
      if |segments| == 0 {
        continue;
      }
      if inEcho {
        if IsEnd(text) {
          inEcho := false;
        }
        continue;
      }
      var last := segments[|segments| - 1];
      segments := segments[..|segments| - 1]
                  + [Segment(last.started, last.output + [text], last.hasError || IsError(text))];
    }
    assert log[..|log|] == log;
  }

  lemma LogSnoc(log: seq<Line>, line: Line)
    ensures PlaceAt(log + [line]) == After(PlaceAt(log), line)
    ensures forall startedAt :: OutputSince(log + [line], startedAt) ==
              OutputSince(log, startedAt) + if IsOutput(PlaceAt(log), line, startedAt) then [line.text] else []
  {
    forall startedAt
      ensures PlaceAt(log + [line]) == After(PlaceAt(log), line)
      ensures OutputSince(log + [line], startedAt) ==
              OutputSince(log, startedAt) + if IsOutput(PlaceAt(log), line, startedAt) then [line.text] else []
    {
      ReadOn(Outside, log, [line], startedAt);
      assert [line][1..] == [];
      assert PlaceFrom(PlaceAt(log), [line]) == After(PlaceAt(log), line);
    }
    ReadOn(Outside, log, [line], 0);
    assert [line][1..] == [];
  }

  lemma RunMatches(segments: seq<Segment>, inEcho: bool, log: seq<Line>, line: Line)
    requires Matches(segments, inEcho, log) && IsRun(line.text)
    ensures Matches(segments + [Segment(line.stamp, [], false)], true, log + [line])
  {
    LogSnoc(log, line);
    var next := segments + [Segment(line.stamp, [], false)];
    assert next[..|segments|] == segments;
  }

  lemma PlainMatches(segments: seq<Segment>, inEcho: bool, log: seq<Line>, line: Line)
    requires Matches(segments, inEcho, log) && !IsRun(line.text)
    ensures |segments| == 0 || inEcho ==> Matches(segments, inEcho && !IsEnd(line.text), log + [line])
    ensures |segments| > 0 && !inEcho ==>
              var last := segments[|segments| - 1];
              var longer := Segment(last.started, last.output + [line.text], last.hasError || IsError(line.text));
              Matches(segments[..|segments| - 1] + [longer], false, log + [line])
  {
    LogSnoc(log, line);
    if |segments| > 0 && !inEcho {
      OutputMatches(segments, log, line);
    }
  }

  lemma OutputMatches(segments: seq<Segment>, log: seq<Line>, line: Line)
    requires Matches(segments, false, log) && !IsRun(line.text) && |segments| > 0
    ensures var last := segments[|segments| - 1];
            var longer := Segment(last.started, last.output + [line.text], last.hasError || IsError(line.text));
            Matches(segments[..|segments| - 1] + [longer], false, log + [line])
  {
    LogSnoc(log, line);
    var last := segments[|segments| - 1];
    var longer := Segment(last.started, last.output + [line.text], last.hasError || IsError(line.text));
    FlagsGrow(segments, line.text, longer);
    EligibleGrows(segments, line.text, longer);
    var next := segments[..|segments| - 1] + [longer];
    forall startedAt ensures Eligible(next, startedAt) == OutputSince(log + [line], startedAt) {
      assert Eligible(segments, startedAt) == OutputSince(log, startedAt);
    }
  }

  lemma FlagsGrow(segments: seq<Segment>, text: string, longer: Segment)
    requires |segments| > 0 && FlagsRight(segments)
    requires longer.output == segments[|segments| - 1].output + [text]
    requires longer.hasError == (segments[|segments| - 1].hasError || IsError(text))
    ensures FlagsRight(segments[..|segments| - 1] + [longer])
  {
    var last := segments[|segments| - 1];
    assert last in segments;
    assert forall line :: line in longer.output <==> line in last.output || line == text;
  }

  lemma EligibleGrows(segments: seq<Segment>, text: string, longer: Segment)
    requires |segments| > 0
    requires longer.started == segments[|segments| - 1].started
    requires longer.output == segments[|segments| - 1].output + [text]
    ensures forall startedAt ::
              Eligible(segments[..|segments| - 1] + [longer], startedAt) ==
              Eligible(segments, startedAt)
              + if longer.started.Some? && longer.started.value >= startedAt then [text] else []
  {
    var next := segments[..|segments| - 1] + [longer];
    assert next[..|segments| - 1] == segments[..|segments| - 1];
  }

  method FailingStepOutput(log: seq<Line>, startedAt: int) returns (found: Option<seq<string>>)
    ensures found == FailingOutput(log, startedAt)
  {
    var segments := Segments(log);
    var output: seq<string> := [];
    for i := 0 to |segments|
      invariant output == Eligible(segments[..i], startedAt)
      invariant !HasError(output)
    {
      assert segments[..i + 1][..i] == segments[..i];
      var segment := segments[i];
      assert segment in segments;
      if segment.started.None? || segment.started.value < startedAt {
        continue;
      }
      if segment.hasError {
        var error := FirstError(segment.output);
        PrefixOfEligible(segments, i, startedAt);
        StopsAtError(output, segment.output, error, Eligible(segments, startedAt));
        return Some(output + segment.output[..error + 1]);
      }
      output := output + segment.output;
    }
    assert segments[..|segments|] == segments;
    NoErrorFound(output);
    found := None;
  }

  method FirstError(lines: seq<string>) returns (k: nat)
    requires HasError(lines)
    ensures k < |lines| && IsError(lines[k]) && !HasError(lines[..k])
  {
    k := 0;
    while k < |lines| && !IsError(lines[k])
      invariant k <= |lines| && !HasError(lines[..k])
    {
      k := k + 1;
    }
    assert lines[..|lines|] == lines;
  }

  lemma {:induction false} NoErrorFound(lines: seq<string>)
    requires !HasError(lines)
    ensures ThroughFirstError(lines).None?
  {
    if |lines| == 0 {
    } else {
      NoErrorFound(lines[..|lines| - 1]);
    }
  }

  lemma {:induction false} FoundAt(lines: seq<string>, k: nat)
    requires k < |lines| && IsError(lines[k]) && !HasError(lines[..k])
    ensures ThroughFirstError(lines) == Some(lines[..k + 1])
  {
    if k == |lines| - 1 {
      NoErrorFound(lines[..k]);
      assert lines[..k + 1] == lines;
    } else {
      FoundAt(lines[..|lines| - 1], k);
      assert lines[..|lines| - 1][..k + 1] == lines[..k + 1];
    }
  }

  lemma {:induction false} PrefixOfEligible(segments: seq<Segment>, i: nat, startedAt: int)
    requires i < |segments| && segments[i].started.Some? && segments[i].started.value >= startedAt
    ensures Eligible(segments[..i], startedAt) + segments[i].output <= Eligible(segments, startedAt)
  {
    var init := segments[..|segments| - 1];
    if i == |segments| - 1 {
      assert segments[..i] == init;
    } else {
      PrefixOfEligible(init, i, startedAt);
      assert init[..i] == segments[..i];
    }
  }

  lemma StopsAtError(output: seq<string>, lines: seq<string>, error: nat, all: seq<string>)
    requires !HasError(output) && error < |lines| && IsError(lines[error]) && !HasError(lines[..error])
    requires output + lines <= all
    ensures ThroughFirstError(all) == Some(output + lines[..error + 1])
  {
    var k := |output| + error;
    assert all[k] == (output + lines)[k] == lines[error];
    assert all[..k] == output + lines[..error];
    FoundAt(all, k);
    assert all[..k + 1] == output + lines[..error + 1];
  }

  // ---------------------------------------------------------------------------
  // The script echo cannot affect the evidence
  // ---------------------------------------------------------------------------

  /** The line could stand inside a script echo without ending it. */
  predicate EchoLine(line: Line) {
    !IsRun(line.text) && !IsEnd(line.text)
  }

  /** Inside an echo nothing is output and nothing changes. */
  lemma {:induction false} EchoIsSkipped(started: Option<int>, echo: seq<Line>, startedAt: int)
    requires forall line | line in echo :: EchoLine(line)
    ensures PlaceFrom(Echo(started), echo) == Echo(started)
    ensures OutputFrom(Echo(started), echo, startedAt) == []
  {
    if |echo| == 0 {
    } else {
      assert EchoLine(echo[0]);
      EchoIsSkipped(started, echo[1..], startedAt);
    }
  }

  lemma OutputAroundEcho(before: seq<Line>, run: Line, echo: seq<Line>, rest: seq<Line>, startedAt: int)
    requires IsRun(run.text) && forall line | line in echo :: EchoLine(line)
    ensures OutputSince(before + ([run] + (echo + rest)), startedAt) ==
            OutputSince(before, startedAt) + OutputFrom(Echo(run.stamp), rest, startedAt)
  {
    var place, tail := PlaceAt(before), [run] + (echo + rest);
    ReadOn(Outside, before, tail, startedAt);
    assert tail[1..] == echo + rest;
    assert OutputFrom(place, tail, startedAt) == OutputFrom(Echo(run.stamp), echo + rest, startedAt);
    ReadOn(Echo(run.stamp), echo, rest, startedAt);
    EchoIsSkipped(run.stamp, echo, startedAt);
  }

  /** Replacing what a step's script echo shows leaves the failing step's output unchanged. */
  lemma EchoCannotAffectOutput(before: seq<Line>, run: Line, echo: seq<Line>, other: seq<Line>, rest: seq<Line>,
                               startedAt: int)
    requires IsRun(run.text)
    requires forall line | line in echo :: EchoLine(line)
    requires forall line | line in other :: EchoLine(line)
    ensures FailingOutput(before + ([run] + (echo + rest)), startedAt) ==
            FailingOutput(before + ([run] + (other + rest)), startedAt)
  {
    OutputAroundEcho(before, run, echo, rest, startedAt);
    OutputAroundEcho(before, run, other, rest, startedAt);
  }

  /** Any output found holds exactly one error line, its last. */
  lemma {:induction false} OneErrorAndLast(lines: seq<string>)
    requires ThroughFirstError(lines).Some?
    ensures var found := ThroughFirstError(lines).value;
            |found| > 0 && found <= lines && IsError(found[|found| - 1]) && !HasError(found[..|found| - 1])
  {
    var init := lines[..|lines| - 1];
    if ThroughFirstError(init).Some? {
      OneErrorAndLast(init);
    } else {
      NoneMeansNoError(init);
    }
  }

  lemma {:induction false} NoneMeansNoError(lines: seq<string>)
    requires ThroughFirstError(lines).None?
    ensures !HasError(lines)
  {
    if |lines| == 0 {
    } else {
      NoneMeansNoError(lines[..|lines| - 1]);
      assert lines == lines[..|lines| - 1] + [lines[|lines| - 1]];
    }
  }

  lemma FailingOutputEndsInItsError(log: seq<Line>, startedAt: int)
    requires FailingOutput(log, startedAt).Some?
    ensures var found := FailingOutput(log, startedAt).value;
            |found| > 0 && IsError(found[|found| - 1]) && forall k | 0 <= k < |found| - 1 :: !IsError(found[k])
  {
    OneErrorAndLast(OutputSince(log, startedAt));
    var found := FailingOutput(log, startedAt).value;
    forall k | 0 <= k < |found| - 1 ensures !IsError(found[k]) {
      assert found[k] in found[..|found| - 1];
    }
  }

  // ---------------------------------------------------------------------------
  // Which lines are output
  // ---------------------------------------------------------------------------

  /** Line `r` starts the step that line `n` is in. */
  ghost predicate LastRun(log: seq<Line>, r: nat, n: nat)
    requires n <= |log|
  {
    r < n && IsRun(log[r].text) && forall k | r < k < n :: !IsRun(log[k].text)
  }

  ghost predicate EndsBetween(log: seq<Line>, r: nat, n: nat)
    requires n <= |log|
  {
    exists e | r < e < n :: IsEnd(log[e].text)
  }

  /** Line `i` was printed by a step that started no earlier than `startedAt`, after its script's echo. */
  ghost predicate IsStepOutput(log: seq<Line>, i: nat, startedAt: int) {
    && i < |log| && !IsRun(log[i].text)
    && exists r: nat | LastRun(log, r, i) ::
         EndsBetween(log, r, i) && log[r].stamp.Some? && log[r].stamp.value >= startedAt
  }

  /** The reader's place after `n` lines, by the last run line and whether its echo has ended. */
  ghost predicate PlaceRight(log: seq<Line>, n: nat, place: Place)
    requires n <= |log|
  {
    match place
    case Outside => forall k | 0 <= k < n :: !IsRun(log[k].text)
    case Echo(started) => exists r: nat | LastRun(log, r, n) :: log[r].stamp == started && !EndsBetween(log, r, n)
    case Output(started) => exists r: nat | LastRun(log, r, n) :: log[r].stamp == started && EndsBetween(log, r, n)
  }

  lemma PlaceStep(log: seq<Line>, n: nat, place: Place)
    requires n < |log| && PlaceRight(log, n, place)
    ensures PlaceRight(log, n + 1, After(place, log[n]))
  {
    if IsRun(log[n].text) {
      assert LastRun(log, n, n + 1);
    } else if !place.Outside? {
      var r: nat :| LastRun(log, r, n) && log[r].stamp == place.started && (place.Output? <==> EndsBetween(log, r, n));
      assert LastRun(log, r, n + 1);
      assert EndsBetween(log, r, n + 1) <==> EndsBetween(log, r, n) || IsEnd(log[n].text);
    }
  }

  lemma {:induction false} PlaceIsRight(log: seq<Line>, n: nat)
    requires n <= |log|
    ensures PlaceRight(log, n, PlaceAt(log[..n]))
  {
    if n == 0 {
    } else {
      PlaceIsRight(log, n - 1);
      PlaceStep(log, n - 1, PlaceAt(log[..n - 1]));
      LogSnoc(log[..n - 1], log[n - 1]);
      assert log[..n] == log[..n - 1] + [log[n - 1]];
    }
  }

  lemma OneLastRun(log: seq<Line>, n: nat, r: nat, q: nat)
    requires n <= |log| && LastRun(log, r, n) && LastRun(log, q, n)
    ensures r == q
  {
  }

  lemma OutputIsRight(log: seq<Line>, n: nat, startedAt: int)
    requires n < |log|
    ensures IsOutput(PlaceAt(log[..n]), log[n], startedAt) <==> IsStepOutput(log, n, startedAt)
  {
    PlaceIsRight(log, n);
    forall r: nat, q: nat | LastRun(log, r, n) && LastRun(log, q, n) ensures r == q {
      OneLastRun(log, n, r, q);
    }
  }

  /** The texts of the first `n` lines that are output, in order. */
  ghost function OutputLines(log: seq<Line>, n: nat, startedAt: int): seq<string>
    requires n <= |log|
  {
    if n == 0 then []
    else OutputLines(log, n - 1, startedAt)
         + if IsStepOutput(log, n - 1, startedAt) then [log[n - 1].text] else []
  }

  /** The output read is that of exactly the lines that are output, in order. */
  lemma {:induction false} OutputExactly(log: seq<Line>, n: nat, startedAt: int)
    requires n <= |log|
    ensures OutputSince(log[..n], startedAt) == OutputLines(log, n, startedAt)
  {
    if n == 0 {
    } else {
      OutputExactly(log, n - 1, startedAt);
      OutputIsRight(log, n - 1, startedAt);
      LogSnoc(log[..n - 1], log[n - 1]);
      assert log[..n] == log[..n - 1] + [log[n - 1]];
    }
  }

  lemma HasErrorJoin(a: seq<string>, b: seq<string>)
    ensures HasError(a + b) <==> HasError(a) || HasError(b)
  {
    assert forall line :: line in a + b <==> line in a || line in b;
  }

  /** One of the first `n` lines is output and an error. */
  ghost predicate ErrorUpTo(log: seq<Line>, n: nat, startedAt: int)
    requires n <= |log|
  {
    exists i: nat | i < n && IsStepOutput(log, i, startedAt) :: IsError(log[i].text)
  }

  lemma ErrorUpToStep(log: seq<Line>, n: nat, startedAt: int)
    requires n < |log|
    ensures ErrorUpTo(log, n + 1, startedAt) <==>
            ErrorUpTo(log, n, startedAt) || (IsStepOutput(log, n, startedAt) && IsError(log[n].text))
  {
  }

  lemma {:induction false} OutputLineIn(log: seq<Line>, n: nat, startedAt: int)
    requires n <= |log|
    ensures HasError(OutputLines(log, n, startedAt)) <==> ErrorUpTo(log, n, startedAt)
  {
    if n == 0 {
    } else {
      OutputLineIn(log, n - 1, startedAt);
      ErrorUpToStep(log, n - 1, startedAt);
      var last := if IsStepOutput(log, n - 1, startedAt) then [log[n - 1].text] else [];
      HasErrorJoin(OutputLines(log, n - 1, startedAt), last);
    }
  }

  /** A failing step is found exactly when some line of output is an error. */
  lemma FailureFoundExactly(log: seq<Line>, startedAt: int)
    ensures FailingOutput(log, startedAt).Some? <==> ErrorUpTo(log, |log|, startedAt)
  {
    var lines := OutputSince(log, startedAt);
    assert log[..|log|] == log;
    OutputExactly(log, |log|, startedAt);
    OutputLineIn(log, |log|, startedAt);
    if FailingOutput(log, startedAt).Some? {
      OneErrorAndLast(lines);
      var found := FailingOutput(log, startedAt).value;
      assert found[|found| - 1] == lines[|found| - 1];
      assert lines[|found| - 1] in lines;
    } else {
      NoneMeansNoError(lines);
    }
  }
}
