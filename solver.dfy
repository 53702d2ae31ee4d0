/**
 * The solver-log parser that runs on the reader thread (src/solver.rs).
 *
 * The thread keeps the record of the solution step that is currently open and a
 * counter of residual samples since the last reset.  For every line of the
 * solver's standard output it sends zero or more structured messages and then
 * the line itself.  `Step` is that per-line transition, `Run` its left fold over
 * the lines, and `ReaderThread` the thread's loop, which stops at the first send
 * that fails because the receiver was dropped.
 */
module Solver {
  import opened Wrappers
  import opened Text

  /** A row of the step table: `StepInfo` (src/solver.rs:7-13). */
  datatype StepInfo = StepInfo(step: U32, increment: U32, attempt: U32, iterations: U32, totalTime: real)

  /** A point of the residual plot: `ResidualData` (src/solver.rs:17-21). */
  datatype ResidualData = ResidualData(step: U32, totalIteration: U32, residual: real)

  /** What the reader thread sends to the user interface: `SolverMessage` (src/solver.rs:23-29). */
  datatype SolverMessage =
    | Line(text: string)
    | NewStepInfo(info: StepInfo)
    | UpdateStepInfo(info: StepInfo)
    | Residual(data: ResidualData)
    | ResetResiduals

  /** The thread's state between lines: `current_step_info` and `total_iterations_for_residual`. */
  datatype ReaderState = ReaderState(current: Option<StepInfo>, residualCount: U32)

  /** The state before the first line. */
  const Initial: ReaderState := ReaderState(None, 0)

  /** A state together with the messages sent to reach it. */
  datatype Parsed = Parsed(state: ReaderState, sent: seq<SolverMessage>)

  /** `str::parse::<f64>`, left abstract: the text either denotes a number or does not. */
  type FloatParser = string -> Option<real>

  /** The record a `STEP` line opens: every field but the step number at its default. */
  function FreshRecord(step: U32): StepInfo {
    StepInfo(step, 0, 0, 0, 0.0)
  }

  /** A line whose trimmed form starts with `STEP`; such a line never reaches the sub-rules. */
  predicate IsHeaderLine(line: string) {
    StartsWith(Trim(line), "STEP")
  }

  /** The step number of a header line: its last whitespace-separated token, as a `u32`. */
  function HeaderStep(line: string): Option<U32> {
    var tokens := SplitWhitespace(line);
    if tokens == [] then None else ParseU32(tokens[|tokens| - 1])
  }

  /** Increment and attempt of an `increment` line: tokens 1 and 3, when there are at least four. */
  function IncrementFields(line: string): Option<(U32, U32)> {
    var parts := SplitWhitespace(line);
    if |parts| >= 4 && ParseU32(parts[1]).Some? && ParseU32(parts[3]).Some? then
      Some((ParseU32(parts[1]).value, ParseU32(parts[3]).value))
    else None
  }

  /** The value of an ` actual total time=` line: the trimmed text after the first `=`. */
  function TotalTimeValue(line: string, parseF64: FloatParser): Option<real> {
    match SecondField(line, '=')
    case None => None
    case Some(field) => parseF64(Trim(field))
  }

  /** The value of a `largest residual force=` line: the first token after the first `=`. */
  function ResidualValue(line: string, parseF64: FloatParser): Option<real> {
    match SecondField(line, '=')
    case None => None
    case Some(field) =>
      var tokens := SplitWhitespace(Trim(field));
      if tokens == [] then None else parseF64(tokens[0])
  }

  /** A message that is about the record with step number `step`, or a reset. */
  predicate AboutStep(m: SolverMessage, step: U32) {
    match m
    case UpdateStepInfo(info) => info.step == step
    case Residual(data) => data.step == step
    case ResetResiduals => true
    case _ => false
  }

  /**
   * What a line that is not a header line asks of the open record: the sub-rule
   * it falls under, with the value that rule parsed out of it.
   */
  datatype BodyLine =
    | IncrementLine(fields: Option<(U32, U32)>)
    | IterationLine
    | TotalTimeLine(time: Option<real>)
    | ResidualLine(residual: Option<real>)
    | OtherLine

  /** The tests of src/solver.rs:77, 93, 96 and 103, in that order; the first that matches wins. */
  function Classify(line: string, parseF64: FloatParser): BodyLine {
    var trimmed := Trim(line);
    if StartsWith(trimmed, "increment ") then IncrementLine(IncrementFields(line))
    else if StartsWith(trimmed, "iteration ") then IterationLine
    else if StartsWith(line, " actual total time=") then TotalTimeLine(TotalTimeValue(line, parseF64))
    else if StartsWith(trimmed, "largest residual force=") then ResidualLine(ResidualValue(line, parseF64))
    else OtherLine
  }

  /** A line as the reader thread's `if` chain sees it: a header line with its step number, or a body line. */
  datatype LineKind = Header(step: Option<U32>) | Body(body: BodyLine)

  /** The tests of src/solver.rs:61 and 75-132: a header line never reaches the sub-rules. */
  function Analyse(line: string, parseF64: FloatParser): LineKind {
    if IsHeaderLine(line) then Header(HeaderStep(line)) else Body(Classify(line, parseF64))
  }

  /** Sub-rule (a): reset the residual series, then take increment and attempt if they parsed. */
  function IncrementUpdate(info: StepInfo, fields: Option<(U32, U32)>): (r: Parsed)
    ensures r.state.current.Some? && r.state.current.value.step == info.step
    ensures r.state.residualCount == 0 && r.sent != [] && r.sent[0] == ResetResiduals
    ensures forall k :: 0 <= k < |r.sent| ==> AboutStep(r.sent[k], info.step)
  {
    match fields
    case Some((increment, attempt)) =>
      var next := info.(increment := increment, attempt := attempt, iterations := 0);
      Parsed(ReaderState(Some(next), 0), [ResetResiduals, UpdateStepInfo(next)])
    case None =>
      Parsed(ReaderState(Some(info), 0), [ResetResiduals])
  }

  /** Sub-rule (b): one more iteration. */
  function IterationUpdate(info: StepInfo, count: U32): (r: Parsed)
    ensures r.state.current.Some? && r.state.current.value.step == info.step
    ensures forall k :: 0 <= k < |r.sent| ==> AboutStep(r.sent[k], info.step)
  {
    var next := info.(iterations := WrappingInc(info.iterations));
    Parsed(ReaderState(Some(next), count), [UpdateStepInfo(next)])
  }

  /** Sub-rule (c): the total time, when it parsed. */
  function TotalTimeUpdate(info: StepInfo, count: U32, value: Option<real>): (r: Parsed)
    ensures r.state.current.Some? && r.state.current.value.step == info.step
    ensures forall k :: 0 <= k < |r.sent| ==> AboutStep(r.sent[k], info.step)
  {
    match value
    case Some(time) =>
      var next := info.(totalTime := time);
      Parsed(ReaderState(Some(next), count), [UpdateStepInfo(next)])
    case None =>
      Parsed(ReaderState(Some(info), count), [])
  }

  /** Sub-rule (d): the next residual sample, when the value parsed; the record is not updated. */
  function ResidualUpdate(info: StepInfo, count: U32, value: Option<real>): (r: Parsed)
    ensures r.state.current == Some(info)
    ensures forall k :: 0 <= k < |r.sent| ==> AboutStep(r.sent[k], info.step)
  {
    match value
    case Some(residual) =>
      var sample := WrappingInc(count);
      Parsed(ReaderState(Some(info), sample), [Residual(ResidualData(info.step, sample, residual))])
    case None =>
      Parsed(ReaderState(Some(info), count), [])
  }

  /**
   * The sub-rules for a line that is not a header line while `info` is open
   * (src/solver.rs:75-132): the new state and the messages sent before the line.
   * No sub-rule changes the step number, and every message is about that step.
   */
  function OpenRecordRules(info: StepInfo, count: U32, body: BodyLine): (r: Parsed)
    ensures r.state.current.Some? && r.state.current.value.step == info.step
    ensures forall k :: 0 <= k < |r.sent| ==> AboutStep(r.sent[k], info.step)
  {
    match body
    case IncrementLine(fields) => IncrementUpdate(info, fields)
    case IterationLine => IterationUpdate(info, count)
    case TotalTimeLine(time) => TotalTimeUpdate(info, count, time)
    case ResidualLine(residual) => ResidualUpdate(info, count, residual)
    case OtherLine => Parsed(ReaderState(Some(info), count), [])
  }

  /**
   * What one analysed line does to the reader's state (src/solver.rs:60-137).
   * The line itself is always the last message and the only `Line` message; a
   * body line keeps the open record open, if there is one, under the same step
   * number, and every message it sends before the line is about that step.
   */
  function Transition(st: ReaderState, kind: LineKind, line: string): (r: Parsed)
    ensures |r.sent| >= 1 && r.sent[|r.sent| - 1] == Line(line)
    ensures forall k :: 0 <= k < |r.sent| - 1 ==> !r.sent[k].Line?
    ensures kind.Body? ==> (r.state.current.Some? <==> st.current.Some?)
    ensures kind.Body? && st.current.Some? ==>
      r.state.current.value.step == st.current.value.step &&
      forall k :: 0 <= k < |r.sent| - 1 ==> AboutStep(r.sent[k], st.current.value.step)
  {
    match kind
    case Header(Some(step)) =>
      Parsed(ReaderState(Some(FreshRecord(step)), st.residualCount), [NewStepInfo(FreshRecord(step)), Line(line)])
    case Header(None) =>
      Parsed(st, [Line(line)])
    case Body(body) =>
      match st.current
      case None =>
        Parsed(st, [Line(line)])
      case Some(info) =>
        var rules := OpenRecordRules(info, st.residualCount, body);
        Parsed(rules.state, rules.sent + [Line(line)])
  }

  /**
   * One line of the reader thread's loop: the line analysed, then its
   * transition.  The line is sent last, untrimmed, and it is the only `Line`
   * message; a line that does not start with `STEP` once trimmed never opens
   * or closes the record.
   */
  function Step(st: ReaderState, line: string, parseF64: FloatParser): (r: Parsed)
    ensures |r.sent| >= 1 && r.sent[|r.sent| - 1] == Line(line)
    ensures forall k :: 0 <= k < |r.sent| - 1 ==> !r.sent[k].Line?
    ensures !IsHeaderLine(line) ==> (r.state.current.Some? <==> st.current.Some?)
  {
    Transition(st, Analyse(line, parseF64), line)
  }

  /** A per-line transition of the reader thread. */
  type StepFunction = (ReaderState, string) -> Parsed

  /** `Step` with the float parser fixed. */
  function StepWith(parseF64: FloatParser): StepFunction {
    (st: ReaderState, line: string) => Step(st, line, parseF64)
  }

  /** A per-line transition folded over the lines, left to right, collecting what each line sends. */
  function Fold(step: StepFunction, st: ReaderState, lines: seq<string>): Parsed
    decreases |lines|
  {
    if lines == [] then Parsed(st, [])
    else
      var before := Fold(step, st, lines[..|lines| - 1]);
      var last := step(before.state, lines[|lines| - 1]);
      Parsed(last.state, before.sent + last.sent)
  }

  /**
   * The reader thread over a whole sequence of lines, every send succeeding:
   * no lines send nothing and leave the state alone, and otherwise the last
   * message is the last line.
   */
  function Run(st: ReaderState, lines: seq<string>, parseF64: FloatParser): (r: Parsed)
    ensures lines == [] ==> r == Parsed(st, [])
    ensures lines != [] ==> r.sent != [] && r.sent[|r.sent| - 1] == Line(lines[|lines| - 1])
  {
    Fold(StepWith(parseF64), st, lines)
  }

  /**
   * The reader thread's `for` loop (src/solver.rs:55-144).  The receiver accepts
   * `acceptedSends` messages before it is dropped; the first send after that
   * fails and ends the loop.  What arrives is exactly the corresponding prefix of
   * the messages of `Run`, so nothing is lost or reordered before the drop.
   */
  method ReaderThread(lines: seq<string>, parseF64: FloatParser, acceptedSends: nat) returns (sent: seq<SolverMessage>)
    ensures var all := Run(Initial, lines, parseF64).sent;
      sent == if acceptedSends < |all| then all[..acceptedSends] else all
  {
    var step := StepWith(parseF64);
    var currentStepInfo: Option<StepInfo> := None;
    var totalIterationsForResidual: U32 := 0;
    sent := [];
    var i := 0;
    while i < |lines|
      invariant 0 <= i <= |lines|
      invariant ReaderState(currentStepInfo, totalIterationsForResidual) == Fold(step, Initial, lines[..i]).state
      invariant sent == Fold(step, Initial, lines[..i]).sent
      invariant |sent| <= acceptedSends
    {
      var parsed := step(ReaderState(currentStepInfo, totalIterationsForResidual), lines[i]);
      FoldSentSoFar(step, Initial, lines, i);
      ghost var before := sent;
      var delivered;
      sent, delivered := SendEach(sent, parsed.sent, acceptedSends);
      if !delivered {
        // The receiver is gone: a send failed and the thread ends.
        PrefixTake(Fold(step, Initial, lines).sent, before + parsed.sent, acceptedSends);
        return;
      }
      currentStepInfo, totalIterationsForResidual := parsed.state.current, parsed.state.residualCount;
      i := i + 1;
    }
    assert lines[..i] == lines;
  }

  /**
   * The `send` calls for one line, in order, to a receiver that accepts
   * `capacity` messages in all: either every message is delivered, or the
   * channel fills up and the first send that fails stops the sending.
   */
  method SendEach(sent: seq<SolverMessage>, messages: seq<SolverMessage>, capacity: nat)
    returns (after: seq<SolverMessage>, delivered: bool)
    requires |sent| <= capacity
    ensures delivered ==> after == sent + messages && |after| <= capacity
    ensures !delivered ==> capacity < |sent + messages| && after == (sent + messages)[..capacity]
  {
    after := sent;
    var k := 0;
    while k < |messages|
      invariant 0 <= k <= |messages|
      invariant after == sent + messages[..k]
      invariant |after| <= capacity
    {
      if |after| == capacity {
        assert (sent + messages)[..capacity] == sent + messages[..k];
        return after, false;
      }
      ExtendPrefix(sent, messages, k);
      after := after + [messages[k]];
      k := k + 1;
    }
    assert messages[..k] == messages;
    delivered := true;
  }

  /** The state and messages after line `i` extend those after the first `i` lines, and lead up to those of all lines. */
  lemma FoldSentSoFar(step: StepFunction, st: ReaderState, lines: seq<string>, i: nat)
    requires i < |lines|
    ensures var before := Fold(step, st, lines[..i]);
      var parsed := step(before.state, lines[i]);
      var through := Fold(step, st, lines).sent;
      && Fold(step, st, lines[..i + 1]) == Parsed(parsed.state, before.sent + parsed.sent)
      && |before.sent + parsed.sent| <= |through|
      && through[..|before.sent + parsed.sent|] == before.sent + parsed.sent
  {
    assert lines[..i + 1][..i] == lines[..i];
    FoldLast(step, st, lines[..i + 1]);
    FoldPrefix(step, st, lines, i + 1);
  }

  /** The messages of the first `i` lines are a prefix of the messages of all lines. */
  lemma {:induction false} FoldPrefix(step: StepFunction, st: ReaderState, lines: seq<string>, i: nat)
    requires i <= |lines|
    ensures var part := Fold(step, st, lines[..i]).sent;
      |part| <= |Fold(step, st, lines).sent| && Fold(step, st, lines).sent[..|part|] == part
    decreases |lines|
  {
    if i < |lines| {
      var front := lines[..|lines| - 1];
      assert front[..i] == lines[..i];
      FoldPrefix(step, st, front, i);
    } else {
      assert lines[..i] == lines;
    }
  }

  /** A fold over a non-empty sequence is the fold over all but the last line, then one step. */
  lemma FoldLast(step: StepFunction, st: ReaderState, lines: seq<string>)
    requires lines != []
    ensures var before := Fold(step, st, lines[..|lines| - 1]);
      var last := step(before.state, lines[|lines| - 1]);
      Fold(step, st, lines) == Parsed(last.state, before.sent + last.sent)
  {
  }

  /** What the reader sends for the first `i` lines is a prefix of what it sends for all of them. */
  lemma RunPrefix(st: ReaderState, lines: seq<string>, i: nat, parseF64: FloatParser)
    requires i <= |lines|
    ensures var part := Run(st, lines[..i], parseF64).sent;
      |part| <= |Run(st, lines, parseF64).sent| && Run(st, lines, parseF64).sent[..|part|] == part
  {
    FoldPrefix(StepWith(parseF64), st, lines, i);
  }

  /** The texts of the `Line` messages, in order. */
  function LinesOf(ms: seq<SolverMessage>): seq<string>
    decreases |ms|
  {
    if ms == [] then []
    else LinesOf(ms[..|ms| - 1]) + (if ms[|ms| - 1].Line? then [ms[|ms| - 1].text] else [])
  }

  lemma {:induction false} LinesOfAppend(a: seq<SolverMessage>, b: seq<SolverMessage>)
    ensures LinesOf(a + b) == LinesOf(a) + LinesOf(b)
    decreases |b|
  {
    if b == [] {
      assert a + b == a;
    } else {
      var b' := b[..|b| - 1];
      assert (a + b)[..|a + b| - 1] == a + b';
      LinesOfAppend(a, b');
    }
  }

  /** The messages of one line carry exactly that line as text. */
  lemma TransitionLines(st: ReaderState, kind: LineKind, line: string)
    ensures LinesOf(Transition(st, kind, line).sent) == [line]
  {
    var ms := Transition(st, kind, line).sent;
    var front := ms[..|ms| - 1];
    assert forall k :: 0 <= k < |front| ==> !front[k].Line?;
    NoLines(front);
    Snoc(ms);
    LinesOfAppend(front, [Line(line)]);
    assert LinesOf([Line(line)]) == [line] by {
      assert [Line(line)][..0] == [];
    }
  }

  lemma {:induction false} NoLines(ms: seq<SolverMessage>)
    requires forall k :: 0 <= k < |ms| ==> !ms[k].Line?
    ensures LinesOf(ms) == []
    decreases |ms|
  {
    if ms != [] {
      NoLines(ms[..|ms| - 1]);
    }
  }

  /** A fold whose every step echoes exactly its own line echoes exactly the lines. */
  lemma {:induction false} FoldEchoes(step: StepFunction, st: ReaderState, lines: seq<string>)
    requires forall s: ReaderState, l: string :: LinesOf(step(s, l).sent) == [l]
    ensures LinesOf(Fold(step, st, lines).sent) == lines
    decreases |lines|
  {
    if lines != [] {
      var front := lines[..|lines| - 1];
      FoldEchoes(step, st, front);
      var before := Fold(step, st, front);
      LinesOfAppend(before.sent, step(before.state, lines[|lines| - 1]).sent);
      Snoc(lines);
    }
  }

  /**
   * No line is lost, duplicated or reordered: the `Line` messages of a run are
   * the input lines, each with its original untrimmed text.
   */
  lemma RunEchoesEveryLine(st: ReaderState, lines: seq<string>, parseF64: FloatParser)
    ensures LinesOf(Run(st, lines, parseF64).sent) == lines
  {
    forall s: ReaderState, l: string
      ensures LinesOf(StepWith(parseF64)(s, l).sent) == [l]
    {
      TransitionLines(s, Analyse(l, parseF64), l);
    }
    FoldEchoes(StepWith(parseF64), st, lines);
  }

  // ---------------------------------------------------------------------------
  // The per-line rules, one lemma each, stated on the text of the line.

  /**
   * A body line seen while no record is open, and a header line whose last
   * token is not a `u32`, send only themselves and leave the state as it was.
   */
  lemma LineWithoutEffect(st: ReaderState, line: string, parseF64: FloatParser)
    requires (!IsHeaderLine(line) && st.current.None?) || (IsHeaderLine(line) && HeaderStep(line).None?)
    ensures Step(st, line, parseF64) == Parsed(st, [Line(line)])
  {
  }

  /**
   * A header line whose last token is a `u32` opens a fresh record under that
   * step number, keeps the residual counter, and announces the record before
   * the line.
   */
  lemma HeaderOpensRecord(st: ReaderState, line: string, parseF64: FloatParser)
    requires IsHeaderLine(line) && HeaderStep(line).Some?
    ensures var record := FreshRecord(HeaderStep(line).value);
      Step(st, line, parseF64) == Parsed(ReaderState(Some(record), st.residualCount), [NewStepInfo(record), Line(line)])
  {
  }

  /** A line is analysed as a header line exactly when its trimmed form starts with `STEP`. */
  lemma HeaderLinesFirst(line: string, parseF64: FloatParser)
    ensures Analyse(line, parseF64).Header? <==> StartsWith(Trim(line), "STEP")
    ensures Analyse(line, parseF64).Header? ==> Analyse(line, parseF64).step == HeaderStep(line)
  {
  }

  /** An ` actual total time=` line trims to a line starting with `a`. */
  lemma TotalTimeTrimmed(line: string)
    requires StartsWith(line, " actual total time=")
    ensures Trim(line) != [] && Trim(line)[0] == 'a'
  {
    assert line[..19][0] == ' ' && line[..19][1] == 'a';
    assert LeadingSpace(line[1..]) == 0;
    assert TrimStart(line) == line[1..];
    assert TrailingSpace(line[1..]) < |line[1..]| by {
      assert !IsWhitespace(line[1..][0]);
    }
  }

  /** Which sub-rule an `increment ` line falls under. */
  lemma IncrementRuleApplies(line: string, parseF64: FloatParser)
    requires StartsWith(Trim(line), "increment ")
    ensures Analyse(line, parseF64) == Body(IncrementLine(IncrementFields(line)))
  {
    PrefixesExclusive(Trim(line), "increment ", "STEP", 0);
  }

  /** Which sub-rule an `iteration ` line falls under. */
  lemma IterationRuleApplies(line: string, parseF64: FloatParser)
    requires StartsWith(Trim(line), "iteration ")
    ensures Analyse(line, parseF64) == Body(IterationLine)
  {
    PrefixesExclusive(Trim(line), "iteration ", "STEP", 0);
    PrefixesExclusive(Trim(line), "iteration ", "increment ", 1);
  }

  /** Which sub-rule an ` actual total time=` line falls under. */
  lemma TotalTimeRuleApplies(line: string, parseF64: FloatParser)
    requires StartsWith(line, " actual total time=")
    ensures Analyse(line, parseF64) == Body(TotalTimeLine(TotalTimeValue(line, parseF64)))
  {
    TotalTimeTrimmed(line);
    HeadExcludes(Trim(line), "STEP");
    HeadExcludes(Trim(line), "increment ");
    HeadExcludes(Trim(line), "iteration ");
  }

  /** Which sub-rule a `largest residual force=` line falls under. */
  lemma ResidualRuleApplies(line: string, parseF64: FloatParser)
    requires StartsWith(Trim(line), "largest residual force=")
    ensures Analyse(line, parseF64) == Body(ResidualLine(ResidualValue(line, parseF64)))
  {
    PrefixesExclusive(Trim(line), "largest residual force=", "STEP", 0);
    PrefixesExclusive(Trim(line), "largest residual force=", "increment ", 0);
    PrefixesExclusive(Trim(line), "largest residual force=", "iteration ", 0);
    if StartsWith(line, " actual total time=") {
      TotalTimeTrimmed(line);
    }
  }

  /**
   * With a record open, an `increment ` line always sends `ResetResiduals` first
   * and zeroes the residual counter, whether or not it had four tokens that
   * parse; only when tokens 1 and 3 parsed does it set increment and attempt,
   * zero the iterations and send the updated record.
   */
  lemma IncrementResets(st: ReaderState, line: string, parseF64: FloatParser)
    requires st.current.Some? && StartsWith(Trim(line), "increment ")
    ensures var r := Step(st, line, parseF64);
      var info := st.current.value;
      r.state.residualCount == 0 && r.sent[0] == ResetResiduals &&
      match IncrementFields(line)
      case Some((increment, attempt)) =>
        var next := info.(increment := increment, attempt := attempt, iterations := 0);
        r.state.current == Some(next) && r.sent == [ResetResiduals, UpdateStepInfo(next), Line(line)]
      case None =>
        r.state.current == Some(info) && r.sent == [ResetResiduals, Line(line)]
  {
    IncrementRuleApplies(line, parseF64);
    IncrementRule(st, IncrementFields(line), line);
  }

  lemma IncrementRule(st: ReaderState, fields: Option<(U32, U32)>, line: string)
    requires st.current.Some?
    ensures var r := Transition(st, Body(IncrementLine(fields)), line);
      var info := st.current.value;
      r.state.residualCount == 0 && r.sent[0] == ResetResiduals &&
      match fields
      case Some((increment, attempt)) =>
        var next := info.(increment := increment, attempt := attempt, iterations := 0);
        r.state.current == Some(next) && r.sent == [ResetResiduals, UpdateStepInfo(next), Line(line)]
      case None =>
        r.state.current == Some(info) && r.sent == [ResetResiduals, Line(line)]
  {
  }

  /** With a record open, an `iteration ` line counts one more iteration and changes nothing else. */
  lemma IterationCounts(st: ReaderState, line: string, parseF64: FloatParser)
    requires st.current.Some? && StartsWith(Trim(line), "iteration ")
    ensures var next := st.current.value.(iterations := WrappingInc(st.current.value.iterations));
      Step(st, line, parseF64) == Parsed(ReaderState(Some(next), st.residualCount), [UpdateStepInfo(next), Line(line)])
  {
    IterationRuleApplies(line, parseF64);
  }

  /**
   * With a record open, an ` actual total time=` line sets the total time and
   * sends the record only when the value parsed; otherwise it sends only the line.
   */
  lemma TotalTimeUpdates(st: ReaderState, line: string, parseF64: FloatParser)
    requires st.current.Some? && StartsWith(line, " actual total time=")
    ensures var r := Step(st, line, parseF64);
      match TotalTimeValue(line, parseF64)
      case Some(t) =>
        var next := st.current.value.(totalTime := t);
        r == Parsed(ReaderState(Some(next), st.residualCount), [UpdateStepInfo(next), Line(line)])
      case None =>
        r == Parsed(st, [Line(line)])
  {
    TotalTimeRuleApplies(line, parseF64);
    TotalTimeRule(st, TotalTimeValue(line, parseF64), line);
  }

  lemma TotalTimeRule(st: ReaderState, time: Option<real>, line: string)
    requires st.current.Some?
    ensures var r := Transition(st, Body(TotalTimeLine(time)), line);
      match time
      case Some(t) =>
        var next := st.current.value.(totalTime := t);
        r == Parsed(ReaderState(Some(next), st.residualCount), [UpdateStepInfo(next), Line(line)])
      case None =>
        r == Parsed(st, [Line(line)])
  {
  }

  /**
   * With a record open, a `largest residual force=` line whose value parsed
   * counts one more sample and sends it under the open record's step, and sends
   * no record update; otherwise it sends only the line.
   */
  lemma ResidualSampled(st: ReaderState, line: string, parseF64: FloatParser)
    requires st.current.Some? && StartsWith(Trim(line), "largest residual force=")
    ensures var r := Step(st, line, parseF64);
      match ResidualValue(line, parseF64)
      case Some(value) =>
        var sample := WrappingInc(st.residualCount);
        r == Parsed(ReaderState(st.current, sample),
                    [Residual(ResidualData(st.current.value.step, sample, value)), Line(line)])
      case None =>
        r == Parsed(st, [Line(line)])
  {
    ResidualRuleApplies(line, parseF64);
    ResidualRule(st, ResidualValue(line, parseF64), line);
  }

  lemma ResidualRule(st: ReaderState, residual: Option<real>, line: string)
    requires st.current.Some?
    ensures var r := Transition(st, Body(ResidualLine(residual)), line);
      match residual
      case Some(value) =>
        var sample := WrappingInc(st.residualCount);
        r == Parsed(ReaderState(st.current, sample),
                    [Residual(ResidualData(st.current.value.step, sample, value)), Line(line)])
      case None =>
        r == Parsed(st, [Line(line)])
  {
  }

  /** With a record open, a line that none of the tests picks out sends only itself. */
  lemma OtherLineIgnored(st: ReaderState, line: string, parseF64: FloatParser)
    requires st.current.Some? && !IsHeaderLine(line)
    requires !StartsWith(Trim(line), "increment ") && !StartsWith(Trim(line), "iteration ")
    requires !StartsWith(line, " actual total time=") && !StartsWith(Trim(line), "largest residual force=")
    ensures Step(st, line, parseF64) == Parsed(st, [Line(line)])
  {
  }

  // ---------------------------------------------------------------------------
  // The line parsers on sample lines.  Each sample is the lemma's parameter,
  // fixed by its `requires`, rather than a literal argument, so the solver does
  // not unfold the recursive `Trim` and `SplitWhitespace` on it eagerly; the
  // token lists are established by helper lemmas.

  /** `STEP 3` is a header line that opens step 3. */
  lemma HeaderStepExample(line: string)
    requires line == "STEP 3"
    ensures IsHeaderLine(line) && HeaderStep(line) == Some(3)
  {
    var blank: string := [];
    TrimAround(blank, line, blank);
    assert blank + line + blank == line;
    HeaderPrefix(line);
    HeaderTokens(line);
    DigitNumeral(SplitWhitespace(line)[1]);
  }

  lemma HeaderPrefix(line: string)
    requires line == "STEP 3"
    ensures StartsWith(line, "STEP")
  {
    assert line[..4] == "STEP";
  }

  lemma HeaderTokens(line: string)
    requires line == "STEP 3"
    ensures SplitWhitespace(line) == ["STEP", "3"]
  {
    var blank: string := [];
    var gaps, words := [blank, " ", blank], ["STEP", "3"];
    assert Interleave(gaps[2..], words[2..]) == blank;
    assert Interleave(gaps[1..], words[1..]) == " 3";
    assert Interleave(gaps, words) == line;
    SplitWhitespaceUnique(line, gaps, words);
  }

  /** A single digit reads as its value. */
  lemma DigitNumeral(s: string)
    requires |s| == 1 && IsDigit(s[0])
    ensures ParseU32(s) == Some(s[0] as int - '0' as int)
  {
    assert s[..0] == [] && s[0] != '+';
    assert DigitsValue(s) == s[0] as int - '0' as int;
  }

  /** `increment 7 attempt 2` gives increment 7 (token 1) and attempt 2 (token 3). */
  lemma IncrementFieldsExample(line: string)
    requires line == "increment 7 attempt 2"
    ensures IncrementFields(line) == Some((7, 2))
  {
    IncrementTokens(line);
    IncrementFieldsOfTokens(line);
  }

  lemma IncrementFieldsOfTokens(line: string)
    requires SplitWhitespace(line) == ["increment", "7", "attempt", "2"]
    ensures IncrementFields(line) == Some((7, 2))
  {
    var parts := SplitWhitespace(line);
    DigitNumeral(parts[1]);
    DigitNumeral(parts[3]);
  }

  lemma IncrementTokens(line: string)
    requires line == "increment 7 attempt 2"
    ensures SplitWhitespace(line) == ["increment", "7", "attempt", "2"]
  {
    var blank: string := [];
    var gaps, words := [blank, " ", " ", " ", blank], ["increment", "7", "attempt", "2"];
    assert Interleave(gaps[4..], words[4..]) == blank;
    assert Interleave(gaps[3..], words[3..]) == " 2";
    assert Interleave(gaps[2..], words[2..]) == " attempt 2";
    assert Interleave(gaps[1..], words[1..]) == " 7 attempt 2";
    assert Interleave(gaps, words) == line;
    SplitWhitespaceUnique(line, gaps, words);
  }

  // ---------------------------------------------------------------------------
  // Residual numbering.

  /** Whether the messages contain a `ResetResiduals`. */
  predicate HasReset(ms: seq<SolverMessage>)
    decreases |ms|
  {
    ms != [] && (ms[|ms| - 1].ResetResiduals? || HasReset(ms[..|ms| - 1]))
  }

  /** The residual samples sent after the last `ResetResiduals`, in order. */
  function SinceLastReset(ms: seq<SolverMessage>): seq<ResidualData>
    decreases |ms|
  {
    if ms == [] then []
    else
      var earlier := SinceLastReset(ms[..|ms| - 1]);
      match ms[|ms| - 1]
      case ResetResiduals => []
      case Residual(data) => earlier + [data]
      case _ => earlier
  }

  lemma {:induction false} SinceLastResetAppend(a: seq<SolverMessage>, b: seq<SolverMessage>)
    ensures SinceLastReset(a + b) == if HasReset(b) then SinceLastReset(b) else SinceLastReset(a) + SinceLastReset(b)
    ensures HasReset(a + b) == (HasReset(a) || HasReset(b))
    decreases |b|
  {
    if b == [] {
      assert a + b == a;
    } else {
      var b' := b[..|b| - 1];
      assert (a + b)[..|a + b| - 1] == a + b';
      SinceLastResetAppend(a, b');
    }
  }

  /** The samples since the reset are numbered 1, 2, 3, ... (modulo 2^32) and the counter holds their number. */
  predicate NumberedFromOne(samples: seq<ResidualData>, count: U32) {
    && (forall j :: 0 <= j < |samples| ==> samples[j].totalIteration == (j + 1) % U32Modulus)
    && count == |samples| % U32Modulus
  }

  /**
   * What a run of messages does to the residual series and its counter: it
   * clears both, leaves both alone, or adds exactly the next sample.
   */
  predicate ResidualEffect(ms: seq<SolverMessage>, before: U32, after: U32) {
    || (HasReset(ms) && SinceLastReset(ms) == [] && after == 0)
    || (!HasReset(ms) && SinceLastReset(ms) == [] && after == before)
    || (!HasReset(ms) && after == WrappingInc(before) &&
        |SinceLastReset(ms)| == 1 && SinceLastReset(ms)[0].totalIteration == after)
  }

  lemma NoMessages()
    ensures !HasReset([]) && SinceLastReset([]) == []
  {
  }

  lemma OneMessage(m: SolverMessage)
    ensures HasReset([m]) == m.ResetResiduals?
    ensures SinceLastReset([m]) == if m.Residual? then [m.data] else []
  {
    assert [m][..0] == [];
  }

  lemma TwoMessages(m: SolverMessage, n: SolverMessage)
    requires !n.ResetResiduals? && !n.Residual?
    ensures HasReset([m, n]) == m.ResetResiduals?
    ensures SinceLastReset([m, n]) == if m.Residual? then [m.data] else []
  {
    assert [m, n] == [m] + [n];
    SinceLastResetAppend([m], [n]);
    OneMessage(m);
    OneMessage(n);
  }

  /** Each sub-rule clears the series, leaves it, or adds the next sample. */
  lemma RulesResidualEffect(info: StepInfo, count: U32, body: BodyLine)
    ensures var r := OpenRecordRules(info, count, body);
      ResidualEffect(r.sent, count, r.state.residualCount)
  {
    var r := OpenRecordRules(info, count, body);
    NoMessages();
    if |r.sent| == 1 {
      OneMessage(r.sent[0]);
      assert r.sent == [r.sent[0]];
    } else if |r.sent| == 2 {
      assert body.IncrementLine?;
      TwoMessages(r.sent[0], r.sent[1]);
      assert r.sent == [r.sent[0], r.sent[1]];
    }
  }

  /** Echoing a line does not change the residual effect of the messages before it. */
  lemma EchoEffect(front: seq<SolverMessage>, line: string, before: U32, after: U32)
    requires ResidualEffect(front, before, after)
    ensures ResidualEffect(front + [Line(line)], before, after)
  {
    SinceLastResetAppend(front, [Line(line)]);
    OneMessage(Line(line));
  }

  /** What one line does to the residual series: reset it, leave it, or add the next sample. */
  lemma TransitionResidualEffect(st: ReaderState, kind: LineKind, line: string)
    ensures var r := Transition(st, kind, line);
      ResidualEffect(r.sent, st.residualCount, r.state.residualCount)
  {
    match kind
    case Header(Some(step)) =>
      TwoMessages(NewStepInfo(FreshRecord(step)), Line(line));
    case Header(None) =>
      OneMessage(Line(line));
    case Body(body) =>
      if st.current.Some? {
        RulesResidualEffect(st.current.value, st.residualCount, body);
        var rules := OpenRecordRules(st.current.value, st.residualCount, body);
        EchoEffect(rules.sent, line, st.residualCount, rules.state.residualCount);
      } else {
        OneMessage(Line(line));
      }
  }

  lemma ModuloStep(n: nat)
    ensures ((n % U32Modulus) + 1) % U32Modulus == (n + 1) % U32Modulus
  {
  }

  /**
   * From the start of a run, the residual samples sent since the last reset are
   * numbered 1, 2, 3, ... consecutively (wrapping at 2^32), and the counter
   * equals their number.
   */
  lemma ResidualsNumberedFromOne(lines: seq<string>, parseF64: FloatParser)
    ensures var r := Run(Initial, lines, parseF64);
      NumberedFromOne(SinceLastReset(r.sent), r.state.residualCount)
  {
    forall s: ReaderState, l: string
      ensures var r := StepWith(parseF64)(s, l); ResidualEffect(r.sent, s.residualCount, r.state.residualCount)
    {
      TransitionResidualEffect(s, Analyse(l, parseF64), l);
    }
    FoldNumbered(StepWith(parseF64), lines);
  }

  /** A fold from the initial state whose every step has a residual effect keeps the series numbered. */
  lemma {:induction false} FoldNumbered(step: StepFunction, lines: seq<string>)
    requires forall s: ReaderState, l: string ::
      ResidualEffect(step(s, l).sent, s.residualCount, step(s, l).state.residualCount)
    ensures var r := Fold(step, Initial, lines);
      NumberedFromOne(SinceLastReset(r.sent), r.state.residualCount)
    decreases |lines|
  {
    if lines != [] {
      var front := lines[..|lines| - 1];
      FoldNumbered(step, front);
      var before := Fold(step, Initial, front);
      var last := step(before.state, lines[|lines| - 1]);
      SinceLastResetAppend(before.sent, last.sent);
      NumberedExtend(SinceLastReset(before.sent), before.state.residualCount, last.sent, last.state.residualCount);
    }
  }

  /** A numbered series stays numbered under any residual effect. */
  lemma NumberedExtend(earlier: seq<ResidualData>, count: U32, ms: seq<SolverMessage>, after: U32)
    requires NumberedFromOne(earlier, count) && ResidualEffect(ms, count, after)
    ensures NumberedFromOne(if HasReset(ms) then SinceLastReset(ms) else earlier + SinceLastReset(ms), after)
  {
    var added := SinceLastReset(ms);
    if !HasReset(ms) && |added| == 1 {
      ModuloStep(|earlier|);
      var all := earlier + added;
      assert all[|earlier|] == added[0];
      assert forall j :: 0 <= j < |earlier| ==> all[j] == earlier[j];
    } else if !HasReset(ms) {
      assert earlier + added == earlier;
    }
  }
}
