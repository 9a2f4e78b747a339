# clipatron, modelled in Dafny

clipatron cuts clips out of one video file with ffmpeg. A CSV manifest lists
the clips; each data row must have the columns `start_time`, `duration` and
`filename` (other columns are ignored). The script reads the rows lazily,
checks each one, and for each accepted row runs

    ffmpeg -ss <start_time> -i <video> -t <duration> -vcodec copy -an <filename>

It works strictly in manifest order and stops the whole run at the first
refused row or the first failing command.

The project has four modules:

- `Wrappers` (`wrappers.dfy`): `Option` and `Result`.
- `Manifest` (`manifest.dfy`): the row check and the manifest reader.
  - A row is a map from column name to an optional cell. A cell is `None`
    when the row is shorter than the header.
  - `ValidateRow` is the check of one row. `CheckRow` is the imperative version
    of it, with the source's loop over (value, column) pairs.
  - `Checks` gives the outcome of each row. The n-th data row (0-based) is checked
    as spreadsheet row n + 2, because the header is row 1.
  - `ValidateFrom`/`Validate` walk those outcomes up to the first refused row.
  - `RowReader` models the lazy generator object. Each call of `Next` resumes
    the generator for one more row.
- `Ffmpeg` (`ffmpeg.dfy`): the argument vector for one clip, and `Parse`, which
  reads such a vector back into the clip and video it stands for.
- `Clipatron` (`clipatron.dfy`): the main loop.
  - `RunManifest` resumes the reader, logs every command it issues in its
    `issued` out-parameter, and stops at the first refused row or failed command.
  - `Run`/`RunFrom` are the specification of a run.
  - The running of ffmpeg is a parameter `outcome: nat -> CommandOutcome`.
    `outcome(n)` is the outcome of the n-th command issued. Since each accepted
    row issues exactly one command, the n-th command belongs to row n.

What the program does, and so what the model does:

- The manifest's `filename` goes to ffmpeg verbatim, as the last argument
  (clipatron.py:91); the program does nothing else with it.
- After the last row the program simply ends, with status 0 and no message.
- Only a command that exits non-zero gets the "something went wrong / is ffmpeg
  installed" diagnostic. If ffmpeg cannot be started at all,
  `subprocess.check_call` raises an exception that is not caught, and the
  run ends with Python's status 1 for an uncaught error. The model keeps these
  two ends apart (`CommandFailed` and `CommandNotLaunched`). Both have exit status 1.
- A cell is refused when Python treats it as false: the empty string, or `None`
  for a short row. A cell of spaces is accepted.
- Validation is streaming, not whole-file. A bad row k is found only after
  the commands for rows 0 to k - 1 have run (`ExampleRunEmptyDuration`).

## Model

| member | source | states |
|---|---|---|
| Manifest.FirstMissing | clipatron.py:56-65 | the index of the first column, in lookup order, that the row lacks: all columns before it are present, and it is absent (or there is none) |
| Manifest.FirstBlank | clipatron.py:67-77 | the index of the first column, in checking order, whose cell is falsy: all before it are non-empty, and it is empty or None (or there is none) |
| Manifest.FirstMissingRequired | clipatron.py:57-59 | the columns are looked up in the order start_time, duration, filename |
| Manifest.FirstBlankRequired | clipatron.py:67-71 | the cells are tested in the order start_time, duration, filename |
| Manifest.RequiredInRankOrder | clipatron.py:67-71 | the checking order lists each required column exactly once, at its rank |
| Manifest.ValidateRow | clipatron.py:56-79 | an error always carries the row number it was given; a row is accepted iff all three columns are present and non-empty; an accepted row yields the three cells verbatim, as (start_time, duration, filename) |
| Manifest.MissingColumnReported | clipatron.py:56-77 | MissingColumn(n, c) is reported iff c is the first absent column in lookup order; any absent column makes the result a MissingColumn error, whatever cell is empty |
| Manifest.EmptyValueReported | clipatron.py:67-77 | EmptyValue(n, c) is reported iff every column is present and c is the first falsy cell in checking order |
| Manifest.FirstMissingAgree | clipatron.py:57-59 | the missing-column search sees only the required columns |
| Manifest.FirstBlankAgree | clipatron.py:67-72 | the empty-cell search sees only the required columns |
| Manifest.ExtraColumnsIgnored | clipatron.py:56-79 | two rows that agree on the three required columns get the same outcome, so extra columns never matter |
| Manifest.ChecksFrom | clipatron.py:55 | one outcome per remaining data row |
| Manifest.ChecksFromAt | clipatron.py:55 | the outcome at position j is the check of row j under number j + 2 |
| Manifest.ChecksAt | clipatron.py:53-55 | the j-th data row (0-based) is checked as row number j + 2, and its error names that number |
| Manifest.ValidateFrom | clipatron.py:55-79 | never more clips than rows; with no refused row, one clip per row |
| Manifest.ValidateAllValid | clipatron.py:55-79 | no error iff every row is accepted, and then the clips are the rows' clips in manifest order |
| Manifest.ValidateFirstInvalid | clipatron.py:55-79 | if row j is the first refused row, exactly the clips of rows before j are produced, in order, and then row j's error |
| Manifest.CheckRow | clipatron.py:56-79 | the imperative check returns exactly ValidateRow's outcome: the three lookups, then a loop over the (value, column) pairs with early exit |
| Manifest.RowReader.constructor | clipatron.py:49-55 | a fresh reader is at the first data row, has yielded nothing, and keeps the reader invariant |
| Manifest.RowReader.Next | clipatron.py:55-79 | one resumption yields the next row's clip, or its error, or reports exhaustion; the reader invariant ties what it has yielded to checking the whole manifest, so the clips yielded before an error are exactly those of the rows before the first refused row |
| Ffmpeg.ClipCommand | clipatron.py:86-92 | the command is the program name followed by ten arguments |
| Ffmpeg.ParseClipCommand | clipatron.py:86-92 | the command for a clip reads back as: seek to start_time before the input, input the video, limit to duration, copy video, drop audio, write to filename |
| Ffmpeg.ParseOnlyClipCommands | clipatron.py:24-26 | every argv of that shape is the command for the clip and video it reads as |
| Ffmpeg.ClipCommandInjective | clipatron.py:86-92 | two commands are equal iff their clips and videos are |
| Clipatron.RunManifest | clipatron.py:85-92 | the main loop's log of issued commands and its exit are exactly those of the run specification |
| Clipatron.RunIssuesValidatedClips | clipatron.py:85-92 | the issued commands are a prefix of the commands for the manifest's clips, in manifest order |
| Clipatron.RunMatchesValidation | clipatron.py:85-92 | while commands succeed, the lazy run issues one command per clip of the whole-manifest check and ends with that check's verdict |
| Clipatron.RunStopsAtFirstFailure | clipatron.py:24-30 | every command except the last succeeded; the last one failed exactly when the run ended on a command failure, which reports that command |
| Clipatron.RunCompletes | clipatron.py:85-92 | a run completes iff every row is accepted and every command succeeds; then there are as many commands as rows |
| Clipatron.RunEndsAtFailedCommand | clipatron.py:24-30 | if the command for row j fails, the run issued exactly the commands for rows up to j and none later, and exits with status 1 |
| Clipatron.RunEndsAtRejectedRow | clipatron.py:55-92 | if row j is the first refused row, exactly the commands for earlier rows were issued before the error, and the exit status is 1 |
| Clipatron.RunRejectsNextRow | clipatron.py:55-92 | a run that ends on a refused row ends on the row right after the last one it cut |
| Clipatron.RejectedRowNumber | clipatron.py:53-55 | a refused row is reported as row n + 2 when n commands were issued |
| Clipatron.ExitStatusOfRun | clipatron.py:27-30 | exit status 0 iff every row is accepted and every command succeeds (then one command per row); otherwise 1 |
| Clipatron.ExampleRowAccepted | clipatron.py:5-12 | a row with the three columns and no empty cell is accepted as it stands |
| Clipatron.ExampleManifestChecks | clipatron.py:8-10 | the documented manifest's rows are accepted, and row 3 is refused for its duration when that is empty |
| Clipatron.RunTwoAccepted | clipatron.py:85-92 | two accepted rows whose commands succeed give their two commands, in order, and completion |
| Clipatron.RunSecondRefused | clipatron.py:85-92 | a refused second row comes after the first row's command |
| Clipatron.ExampleRun | clipatron.py:8-10 | the documented example issues the two ffmpeg commands, with the filenames unchanged, and completes |
| Clipatron.ExampleRunEmptyDuration | clipatron.py:55-79 | with row 3's duration empty, the first clip is cut and then the run ends with EmptyValue(3, duration) |

## Left out

- Argument parsing (`parse_args`, clipatron.py:33-46). It is command-line plumbing over argparse. The video path
  is a parameter of `Run` and `RunManifest`.
- Opening the manifest and splitting it into records with `csv.DictReader`
  (clipatron.py:50-51): quoting, dialects, header parsing. The model starts
  from the already-split rows. Row numbers count the records the reader
  delivers, so blank lines skipped by the CSV library, and records that span
  several lines, are not reflected in them.
- Running ffmpeg (`subprocess.check_call`, clipatron.py:26) is an abstract
  oracle of outcomes. What ffmpeg does with the file is outside the model.
- The text of the diagnostics written to standard error (clipatron.py:28-29,
  61-64, 73-76), and `sys.exit` as a process primitive. Errors are typed
  values, and the end of the process is the `Exit` of a run with its `ExitStatus`.
- Manifest.RowReader.Next: when the generator finds a refused row, the real
  program exits inside the generator. The model instead returns `Failed` and
  marks the reader as finished. Later calls report it as exhausted, as a
  Python generator does once an exception has left it. The process never
  reaches those later calls.
