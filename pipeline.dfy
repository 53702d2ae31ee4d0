/**
 * The parser and the consumer together: what the three views show once every
 * message the reader thread sent for a run has been drained.
 */
module Pipeline {
  import opened Wrappers
  import opened Solver
  import opened App

  /** The transcript of a finished run is exactly the solver's output, line for line, untrimmed. */
  lemma TranscriptIsOutput(lines: seq<string>, parseF64: FloatParser)
    ensures ApplyAll(EmptyDisplay, Run(Initial, lines, parseF64).sent).transcript == lines
  {
    var sent := Run(Initial, lines, parseF64).sent;
    ApplyAllTranscript(EmptyDisplay, sent);
    RunEchoesEveryLine(Initial, lines, parseF64);
  }

  /**
   * The residual plot of a run holds the samples since the last reset, numbered
   * 1, 2, 3, ... (wrapping at 2^32), and the reader's counter is their number.
   */
  lemma PlotNumberedFromOne(lines: seq<string>, parseF64: FloatParser)
    ensures var r := Run(Initial, lines, parseF64);
      NumberedFromOne(ApplyAll(EmptyDisplay, r.sent).residuals, r.state.residualCount)
  {
    var r := Run(Initial, lines, parseF64);
    ApplyAllResiduals(EmptyDisplay, r.sent);
    ResidualsNumberedFromOne(lines, parseF64);
  }

  /**
   * A whole session: the application starts with a project that has `.inp`
   * files, a run starts its process, the reader thread sends everything and
   * ends, and the next frame drains the channel.  The transcript is then the
   * solver's output, the residual plot is numbered from one, and the run is over.
   */
  method WholeRun(files: seq<Path>, lines: seq<string>, parseF64: FloatParser, child: Child, now: Instant)
    returns (app: MainApp)
    requires files != []
    ensures app.solverOutputBuffer == lines
    ensures NumberedFromOne(app.residualData, Run(Initial, lines, parseF64).state.residualCount)
    ensures app.Current() == Session(None, None, false, None)
    ensures app.selectedInpFile == Some(files[0])
  {
    app := new MainApp(files);
    app.RunAnalysis(Spawned(child), now);
    assert app.Shown() == EmptyDisplay && app.lineReceiver == Some(Channel([], true));
    var all := Run(Initial, lines, parseF64).sent;
    var sent := ReaderThread(lines, parseF64, |all|);
    assert sent == all;
    app.Deliver(sent, true);
    assert [] + all == all;
    assert app.lineReceiver == Some(Channel(all, false));
    app.DrainMessages();
    assert app.Shown() == ApplyAll(EmptyDisplay, all);
    TranscriptIsOutput(lines, parseF64);
    PlotNumberedFromOne(lines, parseF64);
  }
}
