/**
 * The clipatron run: the manifest reader is resumed row by row and every clip
 * it yields is cut by one ffmpeg command, in manifest order, until the rows
 * run out, a row is refused or a command fails.
 */
module Clipatron {
  import opened Wrappers
  import opened Manifest
  import opened Ffmpeg

  /** What became of one ffmpeg command: it exited with status 0, it exited
      with another status, or it could not be started at all (no such program). */
  datatype CommandOutcome = Succeeded | ExitedNonZero | NotLaunched

  /** How a run ends. A failing command is reported with a hint that ffmpeg may
      be missing; a command that cannot be started is not caught and ends the
      run as an uncaught error. */
  datatype Exit =
    | Completed
    | RejectedRow(error: RowError)
    | CommandFailed(command: seq<string>)
    | CommandNotLaunched(command: seq<string>)

  /** The process exit status of a run that ended with `exit`. */
  function ExitStatus(exit: Exit): nat {
    if exit.Completed? then 0 else 1
  }

  /** The commands a run issued, in order, and how it ended. */
  datatype Trace = Trace(commands: seq<seq<string>>, exit: Exit)

  function Extend(commands: seq<seq<string>>, trace: Trace): Trace {
    Trace(commands + trace.commands, trace.exit)
  }

  /** The part of a run that starts at data row `k` when the commands for rows
      0 to k - 1 all succeeded. `outcome(k)` is the outcome of the command
      issued for row k, which is the (k + 1)-th command of the run: every
      earlier row issued exactly one command. */
  function RunFrom(checks: seq<Check>, video: string, outcome: nat -> CommandOutcome, k: nat): Trace
    requires k <= |checks|
    decreases |checks| - k
  {
    match StepAt(checks, k)
    case Exhausted => Trace([], Completed)
    case Failed(e) => Trace([], RejectedRow(e))
    case Yielded(c) =>
      var command := ClipCommand(c, video);
      match outcome(k)
      case Succeeded => Extend([command], RunFrom(checks, video, outcome, k + 1))
      case ExitedNonZero => Trace([command], CommandFailed(command))
      case NotLaunched => Trace([command], CommandNotLaunched(command))
  }

  /** A whole run over the manifest `rows` and the source video `video`. */
  function Run(rows: seq<Row>, video: string, outcome: nat -> CommandOutcome): Trace {
    RunFrom(Checks(rows), video, outcome, 0)
  }

  /** The main loop: resume the reader, and for every clip it yields issue the
      ffmpeg command; stop at the end of the rows, at a refused row, or at the
      first command that does not succeed. `issued` logs every command issued. */
  method RunManifest(rows: seq<Row>, video: string, outcome: nat -> CommandOutcome)
    returns (issued: seq<seq<string>>, exit: Exit)
    ensures Trace(issued, exit) == Run(rows, video, outcome)
  {
    var reader := new RowReader(rows);
    ghost var checks := Checks(rows);
    ghost var spec := RunFrom(checks, video, outcome, 0);
    issued := [];
    exit := Completed;
    var running := true;
    assert [] + spec.commands == spec.commands;
    while running
      invariant reader.Valid() && reader.rows == rows
      invariant running ==> !reader.finished && |issued| == reader.position
      invariant running ==> spec == Extend(issued, RunFrom(checks, video, outcome, reader.position))
      invariant !running ==> Trace(issued, exit) == spec
      decreases running, |rows| - reader.position
    {
      ghost var k := reader.position;
      ghost var before := issued;
      var step := reader.Next();
      RunFromUnfold(checks, video, outcome, k);
      match step
      case Exhausted =>
        exit := Completed;
        running := false;
      case Failed(e) =>
        exit := RejectedRow(e);
        running := false;
      case Yielded(c) =>
        var command := ClipCommand(c, video);
        var invocation := |issued|;
        issued := issued + [command];
        match outcome(invocation)
        case Succeeded =>
          ghost var rest := RunFrom(checks, video, outcome, k + 1).commands;
          assert before + ([command] + rest) == issued + rest;
        case ExitedNonZero =>
          exit := CommandFailed(command);
          running := false;
        case NotLaunched =>
          exit := CommandNotLaunched(command);
          running := false;
    }
  }

  /** The first step of the run from row k, as the main loop takes it. */
  lemma RunFromUnfold(checks: seq<Check>, video: string, outcome: nat -> CommandOutcome, k: nat)
    requires k <= |checks|
    ensures StepAt(checks, k).Exhausted? ==> RunFrom(checks, video, outcome, k) == Trace([], Completed)
    ensures StepAt(checks, k).Failed? ==>
              RunFrom(checks, video, outcome, k) == Trace([], RejectedRow(StepAt(checks, k).error))
    ensures StepAt(checks, k).Yielded? ==> k < |checks|
    ensures StepAt(checks, k).Yielded? && outcome(k) == Succeeded ==>
              RunFrom(checks, video, outcome, k) ==
              Extend([ClipCommand(StepAt(checks, k).clip, video)], RunFrom(checks, video, outcome, k + 1))
    ensures StepAt(checks, k).Yielded? && outcome(k) == ExitedNonZero ==>
              var command := ClipCommand(StepAt(checks, k).clip, video);
              RunFrom(checks, video, outcome, k) == Trace([command], CommandFailed(command))
    ensures StepAt(checks, k).Yielded? && outcome(k) == NotLaunched ==>
              var command := ClipCommand(StepAt(checks, k).clip, video);
              RunFrom(checks, video, outcome, k) == Trace([command], CommandNotLaunched(command))
  {
  }

  /** The commands for `clips`, one each, in order. */
  function CommandsFor(clips: seq<Clip>, video: string): seq<seq<string>> {
    seq(|clips|, j requires 0 <= j < |clips| => ClipCommand(clips[j], video))
  }

  /** One step of a run: at an accepted row whose command succeeds, the run
      issues that command and goes on with the next row. */
  lemma RunFromStep(checks: seq<Check>, video: string, outcome: nat -> CommandOutcome, k: nat)
    requires k < |checks| && checks[k].Ok? && outcome(k) == Succeeded
    ensures RunFrom(checks, video, outcome, k) ==
              Extend([ClipCommand(checks[k].value, video)], RunFrom(checks, video, outcome, k + 1))
    ensures ValidateFrom(checks, k) == Prepend([checks[k].value], ValidateFrom(checks, k + 1))
  {
  }

  /** The commands of a run are those for the clips the manifest yields, in
      manifest order, up to some point; no command is issued for anything else. */
  lemma {:induction false} RunIssuesValidatedClips(checks: seq<Check>, video: string, outcome: nat -> CommandOutcome, k: nat)
    requires k <= |checks|
    ensures RunFrom(checks, video, outcome, k).commands <= CommandsFor(ValidateFrom(checks, k).clips, video)
    decreases |checks| - k
  {
    if k < |checks| && checks[k].Ok? {
      var c := checks[k].value;
      var rest := ValidateFrom(checks, k + 1).clips;
      assert ValidateFrom(checks, k).clips == [c] + rest;
      assert CommandsFor([c] + rest, video) == [ClipCommand(c, video)] + CommandsFor(rest, video);
      if outcome(k) == Succeeded {
        RunIssuesValidatedClips(checks, video, outcome, k + 1);
        RunFromStep(checks, video, outcome, k);
      }
    }
  }

  /** While every command succeeds, checking row by row while cutting gives
      the same as checking the whole manifest first: one command for each
      clip the manifest yields, in order, then the manifest's own verdict. */
  lemma {:induction false} RunMatchesValidation(checks: seq<Check>, video: string, outcome: nat -> CommandOutcome, k: nat)
    requires k <= |checks|
    requires forall i :: k <= i < k + |ValidateFrom(checks, k).clips| ==> outcome(i) == Succeeded
    ensures RunFrom(checks, video, outcome, k) ==
              Trace(CommandsFor(ValidateFrom(checks, k).clips, video),
                    if ValidateFrom(checks, k).failure.Some? then RejectedRow(ValidateFrom(checks, k).failure.value)
                    else Completed)
    decreases |checks| - k
  {
    if k < |checks| && checks[k].Ok? {
      var c := checks[k].value;
      var rest := ValidateFrom(checks, k + 1).clips;
      assert ValidateFrom(checks, k).clips == [c] + rest;
      assert CommandsFor([c] + rest, video) == [ClipCommand(c, video)] + CommandsFor(rest, video);
      assert outcome(k) == Succeeded;
      RunMatchesValidation(checks, video, outcome, k + 1);
      RunFromStep(checks, video, outcome, k);
    }
  }

  /** Every command but the last one of a run succeeded, and so did the last
      one unless the run ended because of it. */
  lemma {:induction false} RunStopsAtFirstFailure(checks: seq<Check>, video: string, outcome: nat -> CommandOutcome, k: nat)
    requires k <= |checks|
    ensures var t := RunFrom(checks, video, outcome, k);
            && (forall i :: k <= i < k + |t.commands| - 1 ==> outcome(i) == Succeeded)
            && ((t.exit.Completed? || t.exit.RejectedRow?) ==>
                  forall i :: k <= i < k + |t.commands| ==> outcome(i) == Succeeded)
            && (t.exit.CommandFailed? ==>
                  |t.commands| > 0 && outcome(k + |t.commands| - 1) == ExitedNonZero
                  && t.exit.command == t.commands[|t.commands| - 1])
            && (t.exit.CommandNotLaunched? ==>
                  |t.commands| > 0 && outcome(k + |t.commands| - 1) == NotLaunched
                  && t.exit.command == t.commands[|t.commands| - 1])
    decreases |checks| - k
  {
    if k < |checks| && checks[k].Ok? && outcome(k) == Succeeded {
      RunStopsAtFirstFailure(checks, video, outcome, k + 1);
      RunFromStep(checks, video, outcome, k);
    }
  }

  /** A run completes exactly when every row is accepted and every command
      succeeds; it then issued one command per row. */
  lemma {:induction false} RunCompletes(checks: seq<Check>, video: string, outcome: nat -> CommandOutcome, k: nat)
    requires k <= |checks|
    ensures RunFrom(checks, video, outcome, k).exit.Completed? <==>
              forall j :: k <= j < |checks| ==> checks[j].Ok? && outcome(j) == Succeeded
    ensures RunFrom(checks, video, outcome, k).exit.Completed? ==>
              |RunFrom(checks, video, outcome, k).commands| == |checks| - k
    decreases |checks| - k
  {
    if k < |checks| && checks[k].Ok? && outcome(k) == Succeeded {
      RunCompletes(checks, video, outcome, k + 1);
      RunFromStep(checks, video, outcome, k);
    }
  }

  /** If the command for row j fails and every earlier row was accepted and
      its command succeeded, the run ends there: its commands are those for
      rows k to j, and none is issued for a later row. */
  lemma {:induction false} RunEndsAtFailedCommand(checks: seq<Check>, video: string, outcome: nat -> CommandOutcome, k: nat, j: nat)
    requires k <= j < |checks|
    requires forall i :: k <= i < j ==> checks[i].Ok? && outcome(i) == Succeeded
    requires checks[j].Ok? && outcome(j) != Succeeded
    ensures var t := RunFrom(checks, video, outcome, k);
            && |t.commands| == j - k + 1
            && (forall i :: k <= i <= j ==> t.commands[i - k] == ClipCommand(checks[i].value, video))
            && t.exit == (if outcome(j) == ExitedNonZero then CommandFailed(t.commands[j - k])
                          else CommandNotLaunched(t.commands[j - k]))
            && ExitStatus(t.exit) == 1
    decreases j - k
  {
    if k < j {
      RunEndsAtFailedCommand(checks, video, outcome, k + 1, j);
      RunFromStep(checks, video, outcome, k);
      var t := RunFrom(checks, video, outcome, k);
      var t' := RunFrom(checks, video, outcome, k + 1);
      assert forall i :: 0 < i <= j - k ==> t.commands[i] == t'.commands[i - 1];
    }
  }

  /** If row j is the first refused row and every command before it succeeded,
      the run issues exactly the commands for rows k to j - 1 and then ends
      with row j's error. */
  lemma {:induction false} RunEndsAtRejectedRow(checks: seq<Check>, video: string, outcome: nat -> CommandOutcome, k: nat, j: nat)
    requires k <= j < |checks|
    requires forall i :: k <= i < j ==> checks[i].Ok? && outcome(i) == Succeeded
    requires checks[j].Err?
    ensures var t := RunFrom(checks, video, outcome, k);
            && |t.commands| == j - k
            && (forall i :: k <= i < j ==> t.commands[i - k] == ClipCommand(checks[i].value, video))
            && t.exit == RejectedRow(checks[j].error)
            && ExitStatus(t.exit) == 1
    decreases j - k
  {
    if k < j {
      RunEndsAtRejectedRow(checks, video, outcome, k + 1, j);
      RunFromStep(checks, video, outcome, k);
      var t := RunFrom(checks, video, outcome, k);
      var t' := RunFrom(checks, video, outcome, k + 1);
      assert forall i :: 0 < i < j - k ==> t.commands[i] == t'.commands[i - 1];
    }
  }

  /** A run that ends at a refused row ends at the row right after the last
      one it issued a command for. */
  lemma {:induction false} RunRejectsNextRow(checks: seq<Check>, video: string, outcome: nat -> CommandOutcome, k: nat)
    requires k <= |checks|
    ensures var t := RunFrom(checks, video, outcome, k);
            t.exit.RejectedRow? ==> k + |t.commands| < |checks| && checks[k + |t.commands|] == Err(t.exit.error)
    decreases |checks| - k
  {
    if k < |checks| && checks[k].Ok? && outcome(k) == Succeeded {
      RunRejectsNextRow(checks, video, outcome, k + 1);
      RunFromStep(checks, video, outcome, k);
    }
  }

  /** On a manifest: a refused row is reported under the spreadsheet number
      that follows the rows already cut, counting the header as row 1, so
      when n commands were issued the error names row n + 2. */
  lemma RejectedRowNumber(rows: seq<Row>, video: string, outcome: nat -> CommandOutcome)
    ensures Run(rows, video, outcome).exit.RejectedRow? ==>
              Run(rows, video, outcome).exit.error.row == |Run(rows, video, outcome).commands| + 2
  {
    var t := Run(rows, video, outcome);
    RunRejectsNextRow(Checks(rows), video, outcome, 0);
    if t.exit.RejectedRow? {
      ChecksAt(rows, |t.commands|);
    }
  }

  /** On a manifest: the exit status is 0 exactly when every row is accepted
      and every command succeeds, and then there was one command per row; it
      is 1 otherwise. */
  lemma ExitStatusOfRun(rows: seq<Row>, video: string, outcome: nat -> CommandOutcome)
    ensures ExitStatus(Run(rows, video, outcome).exit) ==
              if forall j :: 0 <= j < |rows| ==> Checks(rows)[j].Ok? && outcome(j) == Succeeded then 0 else 1
    ensures ExitStatus(Run(rows, video, outcome).exit) == 0 ==> |Run(rows, video, outcome).commands| == |rows|
  {
    RunCompletes(Checks(rows), video, outcome, 0);
  }

  /** The two rows of the example in the program's documentation. */
  function ExampleRow(filename: string, start: string, duration: string): Row {
    map["filename" := Some(filename), "start_time" := Some(start), "duration" := Some(duration)]
  }

  /** A row of that shape with no empty cell is accepted as it stands. */
  lemma ExampleRowAccepted(filename: string, start: string, duration: string, number: nat)
    requires filename != "" && start != "" && duration != ""
    ensures ValidateRow(ExampleRow(filename, start, duration), number) == Ok(Clip(start, duration, filename))
  {
    var row := ExampleRow(filename, start, duration);
    FirstMissingRequired(row);
    FirstBlankRequired(row);
  }

  /** The documented manifest, with the second row's duration left as a parameter. */
  function ExampleManifest(secondDuration: string): seq<Row> {
    [ExampleRow("scene_1.mp4", "01:00", "00:30"), ExampleRow("scene_2.mp4", "02:31", secondDuration)]
  }

  /** The row outcomes of that manifest: its first row is accepted, and its
      second row, row 3, is accepted unless its duration is empty. */
  lemma ExampleManifestChecks(secondDuration: string)
    ensures Checks(ExampleManifest(secondDuration)) ==
              [Ok(Clip("01:00", "00:30", "scene_1.mp4")),
               if secondDuration == "" then Err(EmptyValue(3, Duration))
               else Ok(Clip("02:31", secondDuration, "scene_2.mp4"))]
  {
    var rows := ExampleManifest(secondDuration);
    ChecksAt(rows, 0);
    ChecksAt(rows, 1);
    ExampleRowAccepted("scene_1.mp4", "01:00", "00:30", 2);
    if secondDuration == "" {
      FirstMissingRequired(rows[1]);
      FirstBlankRequired(rows[1]);
    } else {
      ExampleRowAccepted("scene_2.mp4", "02:31", secondDuration, 3);
    }
  }

  /** A two-row run over accepted rows whose commands succeed. */
  lemma RunTwoAccepted(first: Clip, second: Clip, video: string, outcome: nat -> CommandOutcome)
    requires outcome(0) == Succeeded && outcome(1) == Succeeded
    ensures RunFrom([Ok(first), Ok(second)], video, outcome, 0) ==
              Trace([ClipCommand(first, video), ClipCommand(second, video)], Completed)
  {
    var checks: seq<Check> := [Ok(first), Ok(second)];
    assert RunFrom(checks, video, outcome, 2) == Trace([], Completed);
    assert RunFrom(checks, video, outcome, 1) == Trace([ClipCommand(second, video)], Completed);
  }

  /** A two-row run whose second row is refused, after the first row's command succeeded. */
  lemma RunSecondRefused(first: Clip, e: RowError, video: string, outcome: nat -> CommandOutcome)
    requires outcome(0) == Succeeded
    ensures RunFrom([Ok(first), Err(e)], video, outcome, 0) == Trace([ClipCommand(first, video)], RejectedRow(e))
  {
    var checks: seq<Check> := [Ok(first), Err(e)];
    assert RunFrom(checks, video, outcome, 1) == Trace([], RejectedRow(e));
  }

  /** Both clips of the documented example are cut from movie.mp4, in order,
      with the filenames passed through unchanged, and the run completes. */
  lemma ExampleRun(outcome: nat -> CommandOutcome)
    requires outcome(0) == Succeeded && outcome(1) == Succeeded
    ensures Run(ExampleManifest("00:25"), "movie.mp4", outcome)
            == Trace([["ffmpeg", "-ss", "01:00", "-i", "movie.mp4", "-t", "00:30", "-vcodec", "copy", "-an", "scene_1.mp4"],
                      ["ffmpeg", "-ss", "02:31", "-i", "movie.mp4", "-t", "00:25", "-vcodec", "copy", "-an", "scene_2.mp4"]],
                     Completed)
  {
    ExampleManifestChecks("00:25");
    var first := Clip("01:00", "00:30", "scene_1.mp4");
    var second := Clip("02:31", "00:25", "scene_2.mp4");
    RunTwoAccepted(first, second, "movie.mp4", outcome);
    assert ClipCommand(first, "movie.mp4") ==
           ["ffmpeg", "-ss", "01:00", "-i", "movie.mp4", "-t", "00:30", "-vcodec", "copy", "-an", "scene_1.mp4"];
    assert ClipCommand(second, "movie.mp4") ==
           ["ffmpeg", "-ss", "02:31", "-i", "movie.mp4", "-t", "00:25", "-vcodec", "copy", "-an", "scene_2.mp4"];
  }

  /** With the second row's duration empty, rows are checked lazily: the first
      clip is cut before the second row, row 3, is refused for its duration. */
  lemma ExampleRunEmptyDuration(outcome: nat -> CommandOutcome)
    requires outcome(0) == Succeeded
    ensures Run(ExampleManifest(""), "movie.mp4", outcome)
            == Trace([["ffmpeg", "-ss", "01:00", "-i", "movie.mp4", "-t", "00:30", "-vcodec", "copy", "-an", "scene_1.mp4"]],
                     RejectedRow(EmptyValue(3, Duration)))
  {
    ExampleManifestChecks("");
    var first := Clip("01:00", "00:30", "scene_1.mp4");
    RunSecondRefused(first, EmptyValue(3, Duration), "movie.mp4", outcome);
    assert ClipCommand(first, "movie.mp4") ==
           ["ffmpeg", "-ss", "01:00", "-i", "movie.mp4", "-t", "00:30", "-vcodec", "copy", "-an", "scene_1.mp4"];
  }
}
