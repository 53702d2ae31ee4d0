/**
 * The consumer side of the solver log (src/app.rs): the three views the
 * messages feed, the per-frame drain of the message channel, the Run and Stop
 * handlers, and the choice of the selected `.inp` file after the file list is
 * refreshed.
 */
module App {
  import opened Wrappers
  import opened Solver

  /** What the messages build up: the transcript, the residual plot and the step table. */
  datatype Display = Display(transcript: seq<string>, residuals: seq<ResidualData>, steps: seq<StepInfo>)

  const EmptyDisplay: Display := Display([], [], [])

  /** One received message applied to the views (src/app.rs:86-97). */
  function Apply(d: Display, m: SolverMessage): Display {
    match m
    case Line(text) => d.(transcript := d.transcript + [text])
    case Residual(data) => d.(residuals := d.residuals + [data])
    case ResetResiduals => d.(residuals := [])
    case NewStepInfo(info) => d.(steps := d.steps + [info])
    case UpdateStepInfo(info) =>
      if d.steps == [] then d else d.(steps := d.steps[|d.steps| - 1 := info])
  }

  /** The messages applied one after another, in queue order. */
  function ApplyAll(d: Display, ms: seq<SolverMessage>): Display
    decreases |ms|
  {
    if ms == [] then d else Apply(ApplyAll(d, ms[..|ms| - 1]), ms[|ms| - 1])
  }

  /**
   * `UpdateStepInfo` overwrites the positionally last row of the step table,
   * whatever its step number, and keeps the table's length; on an empty table
   * it does nothing.  The other views are untouched.
   */
  lemma UpdateReplacesLastRow(d: Display, info: StepInfo)
    ensures var r := Apply(d, UpdateStepInfo(info));
      && r.transcript == d.transcript && r.residuals == d.residuals
      && |r.steps| == |d.steps|
      && (forall k :: 0 <= k < |d.steps| - 1 ==> r.steps[k] == d.steps[k])
      && (d.steps != [] ==> r.steps[|r.steps| - 1] == info)
      && (d.steps == [] ==> r == d)
  {
  }

  /** Draining in two goes has the same effect as draining everything at once. */
  lemma {:induction false} ApplyAllAppend(d: Display, a: seq<SolverMessage>, b: seq<SolverMessage>)
    ensures ApplyAll(d, a + b) == ApplyAll(ApplyAll(d, a), b)
    decreases |b|
  {
    if b == [] {
      assert a + b == a;
    } else {
      var b' := b[..|b| - 1];
      assert (a + b)[..|a + b| - 1] == a + b';
      ApplyAllAppend(d, a, b');
    }
  }

  /** The transcript gains exactly the texts of the `Line` messages, in order. */
  lemma {:induction false} ApplyAllTranscript(d: Display, ms: seq<SolverMessage>)
    ensures ApplyAll(d, ms).transcript == d.transcript + LinesOf(ms)
    decreases |ms|
  {
    if ms != [] {
      ApplyAllTranscript(d, ms[..|ms| - 1]);
    }
  }

  /**
   * The residual plot ends up holding the samples sent since the last
   * `ResetResiduals` of the messages, or, when they hold no reset, the earlier
   * samples followed by all the new ones.
   */
  lemma {:induction false} ApplyAllResiduals(d: Display, ms: seq<SolverMessage>)
    ensures ApplyAll(d, ms).residuals ==
      if HasReset(ms) then SinceLastReset(ms) else d.residuals + SinceLastReset(ms)
    decreases |ms|
  {
    if ms != [] {
      ApplyAllResiduals(d, ms[..|ms| - 1]);
    }
  }

  /** The number of `NewStepInfo` messages. */
  function NewSteps(ms: seq<SolverMessage>): nat
    decreases |ms|
  {
    if ms == [] then 0 else NewSteps(ms[..|ms| - 1]) + (if ms[|ms| - 1].NewStepInfo? then 1 else 0)
  }

  /**
   * The step table gains one row per `NewStepInfo` and no others;
   * `UpdateStepInfo` never adds one.  Only the last row the table had can be
   * overwritten: every row before it is kept.
   */
  lemma {:induction false} ApplyAllStepRows(d: Display, ms: seq<SolverMessage>)
    ensures |ApplyAll(d, ms).steps| == |d.steps| + NewSteps(ms)
    ensures forall k :: 0 <= k < |d.steps| - 1 ==> ApplyAll(d, ms).steps[k] == d.steps[k]
    decreases |ms|
  {
    if ms != [] {
      ApplyAllStepRows(d, ms[..|ms| - 1]);
    }
  }

  /** The receiving end of the channel: the messages queued in it, and whether the sender still exists. */
  datatype Channel = Channel(queued: seq<SolverMessage>, senderAlive: bool)

  /** The outcome of `Receiver::try_recv`. */
  datatype Received = Message(message: SolverMessage, rest: Channel) | Empty | Disconnected

  /**
   * `try_recv` on an mpsc channel: queued messages come out first and in order;
   * with the queue empty it reports `Empty` while the sender exists and
   * `Disconnected` once it is dropped.
   */
  function TryRecv(c: Channel): (r: Received)
    ensures r.Message? <==> c.queued != []
    ensures r.Message? ==> r.message == c.queued[0] && r.rest == c.(queued := c.queued[1..])
    ensures r.Disconnected? <==> c.queued == [] && !c.senderAlive
  {
    if c.queued != [] then Message(c.queued[0], c.(queued := c.queued[1..]))
    else if c.senderAlive then Empty
    else Disconnected
  }

  /**
   * A file path.  Its equality is that of `PathBuf`, which compares paths
   * component by component (`proj//a.inp` and `proj/a.inp` are the same
   * path), so the model leaves its representation abstract.  Every selected
   * path is taken to have a file stem that is valid UTF-8, the job name that
   * `RunAnalysis` unwraps at src/app.rs:249.
   */
  type Path(==)

  /** The solver's child process, identified by its process id. */
  datatype Child = Child(id: nat)

  /** A point in time, as the clock reports it. */
  type Instant = nat

  /** What `spawn_process` returned: the started child, or the error's message. */
  datatype SpawnOutcome = Spawned(child: Child) | SpawnFailed(error: string)

  /** The bookkeeping of a run: the process handle, the receiver, the running flag and the start time. */
  datatype Session = Session(process: Option<Child>, receiver: Option<Channel>, running: bool, started: Option<Instant>)

  /**
   * The selected file after the file list is refreshed (src/app.rs:66-75): a
   * selection that is no longer listed is dropped, and with nothing selected
   * the first listed file is chosen.
   */
  function NormalizeSelection(selected: Option<Path>, files: seq<Path>): (r: Option<Path>)
    ensures files == [] <==> r.None?
    ensures r.Some? ==> r.value in files
    ensures selected.Some? && selected.value in files ==> r == selected
    ensures (selected.None? || selected.value !in files) && files != [] ==> r == Some(files[0])
  {
    var kept := if selected.Some? && selected.value !in files then None else selected;
    if kept.None? && files != [] then Some(files[0]) else kept
  }

  /** Refreshing twice with the same list selects the same file as refreshing once. */
  lemma NormalizeSelectionIdempotent(selected: Option<Path>, files: seq<Path>)
    ensures NormalizeSelection(NormalizeSelection(selected, files), files) == NormalizeSelection(selected, files)
  {
  }

  /** The application state of src/app.rs:22-35 that the core logic reads and writes. */
  class MainApp {
    var solverProcess: Option<Child>
    var lineReceiver: Option<Channel>
    var isRunning: bool
    var solverOutputBuffer: seq<string>
    var residualData: seq<ResidualData>
    var stepInfo: seq<StepInfo>
    var availableInpFiles: seq<Path>
    var selectedInpFile: Option<Path>
    var startTime: Option<Instant>

    /** The three views. */
    function Shown(): Display
      reads this
    {
      Display(solverOutputBuffer, residualData, stepInfo)
    }

    /** The run bookkeeping. */
    function Current(): Session
      reads this
    {
      Session(solverProcess, lineReceiver, isRunning, startTime)
    }

    /** `MainApp::new` (src/app.rs:38-55) with the `.inp` files of the project directory given. */
    constructor (files: seq<Path>)
      ensures Shown() == EmptyDisplay && Current() == Session(None, None, false, None)
      ensures availableInpFiles == files && selectedInpFile == NormalizeSelection(None, files)
    {
      solverProcess := None;
      lineReceiver := None;
      isRunning := false;
      solverOutputBuffer := [];
      residualData := [];
      stepInfo := [];
      availableInpFiles := [];
      selectedInpFile := None;
      startTime := None;
      new;
      RefreshInpFiles(files);
    }

    /**
     * `refresh_inp_files` (src/app.rs:57-76) given the `.inp` files that
     * `read_dir` found: replaces the list and normalises the selection.
     */
    method RefreshInpFiles(files: seq<Path>)
      modifies this
      ensures availableInpFiles == files
      ensures selectedInpFile == NormalizeSelection(old(selectedInpFile), files)
      ensures Shown() == old(Shown()) && Current() == old(Current())
    {
      availableInpFiles := files;
      if selectedInpFile.Some? && selectedInpFile.value !in availableInpFiles {
        selectedInpFile := None;
      }
      if selectedInpFile.None? && availableInpFiles != [] {
        selectedInpFile := Some(availableInpFiles[0]);
      }
    }

    /**
     * The drain loop of `update` (src/app.rs:82-111).  Every queued message is
     * applied to the views in queue order.  When the queue runs dry while the
     * sender exists (`Empty`), the drain stops and the run goes on; once the
     * sender is gone (`Disconnected`), the run is over: not running, and no
     * receiver, process handle or start time.  Without a receiver nothing happens.
     */
    method DrainMessages()
      modifies this
      ensures old(lineReceiver).None? ==> Shown() == old(Shown()) && Current() == old(Current())
      ensures old(lineReceiver).Some? ==> Shown() == ApplyAll(old(Shown()), old(lineReceiver).value.queued)
      ensures old(lineReceiver).Some? && old(lineReceiver).value.senderAlive ==>
        Current() == old(Current()).(receiver := Some(Channel([], true)))
      ensures old(lineReceiver).Some? && !old(lineReceiver).value.senderAlive ==>
        Current() == Session(None, None, false, None)
      ensures availableInpFiles == old(availableInpFiles) && selectedInpFile == old(selectedInpFile)
    {
      if lineReceiver.None? {
        return;
      }
      ghost var queue := lineReceiver.value.queued;
      ghost var taken := 0;
      while true
        invariant lineReceiver.Some? && 0 <= taken <= |queue|
        invariant lineReceiver.value == old(lineReceiver).value.(queued := queue[taken..])
        invariant Shown() == ApplyAll(old(Shown()), queue[..taken])
        invariant Current() == old(Current()).(receiver := lineReceiver)
        invariant availableInpFiles == old(availableInpFiles) && selectedInpFile == old(selectedInpFile)
        decreases |lineReceiver.value.queued|
      {
        match TryRecv(lineReceiver.value)
        case Message(message, rest) =>
          lineReceiver := Some(rest);
          HandleMessage(message);
          assert queue[..taken + 1][..taken] == queue[..taken];
          taken := taken + 1;
          assert queue[taken..] == rest.queued;
        case Empty =>
          assert queue[..taken] == queue;
          break;
        case Disconnected =>
          assert queue[..taken] == queue;
          isRunning := false;
          lineReceiver := None;
          solverProcess := None;
          startTime := None;
          break;
      }
    }

    /**
     * The other end of the channel: the reader thread's sends (src/solver.rs:135)
     * arrive behind those already queued, and when the thread ends its sender
     * is dropped.
     */
    method Deliver(messages: seq<SolverMessage>, senderDropped: bool)
      requires lineReceiver.Some?
      modifies this
      ensures lineReceiver == Some(Channel(old(lineReceiver).value.queued + messages,
        old(lineReceiver).value.senderAlive && !senderDropped))
      ensures Shown() == old(Shown()) && Current() == old(Current()).(receiver := lineReceiver)
      ensures availableInpFiles == old(availableInpFiles) && selectedInpFile == old(selectedInpFile)
    {
      var receiver := lineReceiver.value;
      lineReceiver := Some(Channel(receiver.queued + messages, receiver.senderAlive && !senderDropped));
    }

    /** One received message applied to the views in place (src/app.rs:86-97). */
    method HandleMessage(message: SolverMessage)
      modifies this
      ensures Shown() == Apply(old(Shown()), message)
      ensures Current() == old(Current())
      ensures availableInpFiles == old(availableInpFiles) && selectedInpFile == old(selectedInpFile)
    {
      match message {
        case Line(line) => solverOutputBuffer := solverOutputBuffer + [line];
        case Residual(data) => residualData := residualData + [data];
        case ResetResiduals => residualData := [];
        case NewStepInfo(info) => stepInfo := stepInfo + [info];
        case UpdateStepInfo(info) =>
          if stepInfo != [] {
            stepInfo := stepInfo[|stepInfo| - 1 := info];
          }
      }
    }

    /**
     * The Run Analysis handler (src/app.rs:248-279), with the outcome of
     * `spawn_process` and the current time given.  With no file selected it
     * only reports that.  Otherwise it opens a fresh channel, empties the three
     * views and marks the run as started; a process that started is kept and
     * its sender goes to the reader thread, while a failed start leaves the run
     * stopped, the transcript holding only the failure, and the channel without
     * a sender.
     */
    method RunAnalysis(spawn: SpawnOutcome, now: Instant)
      modifies this
      ensures old(selectedInpFile).None? ==>
        && solverOutputBuffer == old(solverOutputBuffer) + ["No '.inp' file selected."]
        && residualData == old(residualData) && stepInfo == old(stepInfo)
        && Current() == old(Current())
      ensures old(selectedInpFile).Some? && spawn.Spawned? ==>
        && Shown() == EmptyDisplay
        && Current() == Session(Some(spawn.child), Some(Channel([], true)), true, Some(now))
      ensures old(selectedInpFile).Some? && spawn.SpawnFailed? ==>
        && Shown() == Display(["Failed to start process: " + spawn.error], [], [])
        && Current() == Session(old(solverProcess), Some(Channel([], false)), false, Some(now))
      ensures availableInpFiles == old(availableInpFiles) && selectedInpFile == old(selectedInpFile)
    {
      if selectedInpFile.Some? {
        var receiver := Channel([], true);
        lineReceiver := Some(receiver);
        isRunning := true;
        startTime := Some(now);
        solverOutputBuffer := [];
        residualData := [];
        stepInfo := [];
        match spawn
        case Spawned(child) =>
          solverProcess := Some(child);
        case SpawnFailed(error) =>
          solverOutputBuffer := solverOutputBuffer + ["Failed to start process: " + error];
          isRunning := false;
          // The sender goes out of scope with the failed match arm.
          lineReceiver := Some(receiver.(senderAlive := false));
      } else {
        solverOutputBuffer := solverOutputBuffer + ["No '.inp' file selected."];
      }
    }

    /**
     * The Stop Analysis handler (src/app.rs:222-235): takes the process handle,
     * returning it to be killed, and ends the run.  The views are kept.
     */
    method StopAnalysis() returns (taken: Option<Child>)
      modifies this
      ensures taken == old(solverProcess)
      ensures Current() == Session(None, None, false, None)
      ensures Shown() == old(Shown())
      ensures availableInpFiles == old(availableInpFiles) && selectedInpFile == old(selectedInpFile)
    {
      taken := solverProcess;
      solverProcess := None;
      isRunning := false;
      lineReceiver := None;
      startTime := None;
    }
  }

  /** Stopping twice: the second stop finds no process to kill. */
  method StopTwice(app: MainApp) returns (first: Option<Child>, second: Option<Child>)
    modifies app
    ensures first == old(app.solverProcess) && second.None?
  {
    first := app.StopAnalysis();
    second := app.StopAnalysis();
  }
}
