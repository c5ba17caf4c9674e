# Checkpoint log utility, modelled in Dafny

The repository's checkpoint utility (`scripts/update_checkpoint.py`, `main`)
keeps two files in a project directory up to date:

- the checkpoint log `checkpoint.md`. When the log does not exist it is
  created with a fixed header: a title, four rules, and a `---` separator
  line. Every run then appends one entry `- [<timestamp>] `. The program
  writes no summary text; rule 1 of the header (line 14) expects one to
  follow the entry on the same line.
- the ignore list `.gitignore`. A run reads its lines. An absent file reads
  as no lines. When `checkpoint.md` is not among the lines, the run appends
  it as a new line. If the file's last line lacks its line break, the run
  first writes that break.

The model has five modules:

- `Wrappers` holds `Option`. `None` stands for a file that does not exist.
- `LineSplit` holds `Lines`, which models `str.splitlines` for text whose
  only line break is `'\n'`. It also holds the algebra of `Lines`: its
  inverse `Unlines`, and how `Lines` behaves under concatenation and under
  extension of an unterminated last line.
- `CheckpointLog` holds the header, the entry, and one run's update of the
  log. It also folds that update over a sequence of runs.
- `IgnoreList` holds the ignore-list update `EnsureIgnore` and its
  line-level meaning.
- `UpdateStep` holds the whole run. The run maps the pair of file contents
  (`Project`) to the new pair, and `Run` folds it over many runs.

The timestamp comes from the clock. In the model it is an opaque string
parameter `ts`.

Two consequences of the code are worth stating:

- Entries share one line. Rule 1 of the header (lines 13-14) shows one
  `- [..] summary` item per update, but the code writes each entry without a
  line terminator. Whatever is written next, a summary
  or the next run's entry, therefore continues on the same line. `CheckpointLog.EntriesShareOneLine`
  states this: a second run adds no line to the log and only lengthens its
  last line. `CheckpointLog.FirstRunAddsOneLine` states the first run, which
  does add exactly one line after the header.
- Copies already present are kept. The closing message at line 37 says the
  ignore list is "ensured", and the code does only that: it adds
  `checkpoint.md` when it is missing and never removes copies already
  there. `IgnoreList.PatternCountAfterEnsure` states it: the count becomes 1
  when it was 0 and otherwise stays what it was.

## Model

| member | source | states |
|---|---|---|
| CheckpointLog.Entry | scripts/update_checkpoint.py:21-24 | the entry is `- [`, the timestamp, then `] `; it is five characters longer than the timestamp and contains a line break only when the timestamp does |
| CheckpointLog.TextBeforeEntry | scripts/update_checkpoint.py:8-19 | the text the entry is appended to is the existing log, or the header when the log does not exist |
| CheckpointLog.UpdateCheckpoint | scripts/update_checkpoint.py:8-27 | the previous text (existing log or header) is a strict prefix of the result, and what follows it is exactly the entry |
| CheckpointLog.HeaderEndsWithSeparator | scripts/update_checkpoint.py:11-18 | the header ends with the `---` separator line, terminated |
| CheckpointLog.AbsentLogGetsHeaderAndEntry | scripts/update_checkpoint.py:9-27 | a log that did not exist becomes exactly the header followed by `- [ts] ` |
| CheckpointLog.ExistingLogIsKept | scripts/update_checkpoint.py:26-27 | an existing log is a strict prefix of the result, and the rest is exactly `- [ts] ` (append-only) |
| CheckpointLog.FirstRunAddsOneLine | scripts/update_checkpoint.py:9-27 | on an absent log, the lines of the result are the header's lines followed by the entry as one more line |
| CheckpointLog.UpdateLeavesLineOpen | scripts/update_checkpoint.py:22-27 | the log after a run never ends with a line terminator |
| CheckpointLog.EntriesShareOneLine | scripts/update_checkpoint.py:22-27 | a second run adds no line to the log; it extends the last line by the new entry |
| CheckpointLog.LogAfter | scripts/update_checkpoint.py:8-27 | no runs leave the log as it was; one or more runs leave a log that exists and has the old content (or the header) as a strict prefix |
| CheckpointLog.ExistingLogAfter | scripts/update_checkpoint.py:26-27 | runs on an existing log append their entries in run order after the untouched old content |
| CheckpointLog.LogAfterRuns | scripts/update_checkpoint.py:8-27 | after one or more runs the log is the old content (or the header) followed by one entry per run, in order |
| LineSplit.Lines | scripts/update_checkpoint.py:30 | empty text, and only empty text, has no lines; the lemmas `LinesOfUnlines`, `UnlinesOfLines` and `LinesHaveNoBreak` below characterise it fully as the inverse of terminating and joining break-free lines |
| LineSplit.LinesOfUnlines | scripts/update_checkpoint.py:30 | splitting the text made by terminating each of some break-free lines gives back exactly those lines |
| LineSplit.UnlinesOfLines | scripts/update_checkpoint.py:30 | joining the split lines, each terminated, gives back the text with its last line terminated |
| LineSplit.LinesOfSingleLine | scripts/update_checkpoint.py:30 | non-empty text without a line break is one line |
| LineSplit.LinesOfTerminatedConcat | scripts/update_checkpoint.py:30 | after terminated text, the lines of appended text follow the earlier lines unchanged |
| LineSplit.LinesOfTermination | scripts/update_checkpoint.py:30 | terminating an unterminated last line changes no line |
| LineSplit.LinesOfLastLineExtension | scripts/update_checkpoint.py:30 | break-free text appended to an unterminated last line lengthens that line and adds none |
| LineSplit.LinesHaveNoBreak | scripts/update_checkpoint.py:30 | no split line contains a line break |
| IgnoreList.Content | scripts/update_checkpoint.py:29-30 | an absent ignore file reads as empty text; an existing one as its content |
| IgnoreList.EnsureIgnore | scripts/update_checkpoint.py:29-35 | the old content is a prefix of the result, the result equals it when the pattern is already a line, and an absent or empty file becomes exactly `checkpoint.md` and a line break |
| IgnoreList.NeedsSeparator | scripts/update_checkpoint.py:33 | a line break is written before the pattern exactly when the text is non-empty and its last line is unterminated |
| IgnoreList.Closed | scripts/update_checkpoint.py:33-34 | the old text is kept, at most one character is added, the result is terminated, and it differs from the old text exactly when a separator was needed |
| IgnoreList.ClosedKeepsLines | scripts/update_checkpoint.py:33-34 | writing the missing line break leaves the text terminated and its lines unchanged |
| IgnoreList.LinesOfAppendedLine | scripts/update_checkpoint.py:33-35 | closing the last line and appending a break-free line adds exactly that line after the old lines |
| IgnoreList.LinesAfterEnsure | scripts/update_checkpoint.py:30-35 | the lines after a run are the old lines, followed by `checkpoint.md` exactly when it was missing |
| IgnoreList.PatternPresentAfterEnsure | scripts/update_checkpoint.py:30-35 | after a run `checkpoint.md` is one of the lines |
| IgnoreList.EnsureIgnoreIdempotent | scripts/update_checkpoint.py:30-35 | a second run leaves the ignore file as the first run made it |
| IgnoreList.PatternCountAfterEnsure | scripts/update_checkpoint.py:30-35 | the number of `checkpoint.md` lines becomes 1 when it was 0 and is otherwise unchanged |
| IgnoreList.AppendedTextWhenMissing | scripts/update_checkpoint.py:31-35 | when the pattern is missing the old text is kept, followed by a line break, the pattern and a line break for an unterminated last line, and otherwise by the pattern and a line break |
| IgnoreList.UnterminatedSingleLine | scripts/update_checkpoint.py:31-35 | a file holding one other pattern without a final line break keeps that line intact and gains the pattern on the next line |
| UpdateStep.Step | scripts/update_checkpoint.py:4-35 | after a run both files exist, the old log is a strict prefix of the new one and the old ignore list a prefix of the new one |
| UpdateStep.Run | scripts/update_checkpoint.py:4-35 | no runs leave the project as it was; after one or more runs both files exist |
| UpdateStep.RunActsPerFile | scripts/update_checkpoint.py:4-35 | over many runs the log evolves by itself, and the ignore file changes only on the first run |
| UpdateStep.RunAppendsEntries | scripts/update_checkpoint.py:4-35 | after one or more runs the log is the old content (or the header) followed by one entry per run, and the ignore file is what one run makes of it |
| UpdateStep.StepListsLog | scripts/update_checkpoint.py:29-35 | after a run the ignore file exists and lists `checkpoint.md` |
| UpdateStep.RunCountsPatternAsOneRun | scripts/update_checkpoint.py:29-35 | however many runs happen, `checkpoint.md` is listed as many times as after a single run |
| UpdateStep.RunKeepsLogPrefix | scripts/update_checkpoint.py:26-27 | no sequence of runs removes or rewrites text already in the log |
| UpdateStep.FreshProject | scripts/update_checkpoint.py:4-35 | on an empty directory the log becomes the header and `- [ts] `, and the ignore file becomes exactly `checkpoint.md` and a line break |

## Left out

- The architecture-diagram script is not modelled. It only declares nodes and edges for an external drawing library and has no logic of its own.
- Creating the project directory (line 6) is not modelled. A project is the pair of file contents, and `None` stands for a missing file.
- File existence checks, opening, reading and appending are not modelled as I/O. Each becomes a function from the old content to the new content.
- Runs that fail partway are not modelled. A read or decode failure at line 30 or 33 aborts the run after lines 26-27 have already appended the entry, leaving the log updated and the ignore list untouched; in the model every run updates both files.
- The file encodings are not modelled, and neither is the second read at line 33, which uses the platform default encoding. Files are strings of characters. The second read is taken to see the same text as the first, because nothing has been written between them.
- The clock and its formatting at line 21 are not modelled. The timestamp is a parameter `ts` of any string, so the model does not promise its `YYYY-MM-DD HH:MM:SS TZ` shape.
- LineSplit.Lines: only `'\n'` is a line break. Python's `splitlines` also splits at `\r`, `\r\n`, `\v`, `\f`, `\x1c`-`\x1e`, `\x85`, U+2028 and U+2029. Text with those characters splits differently in the model.
- Newline translation is not modelled. Both reads (lines 30 and 33) are in text mode, which turns `\r` and `\r\n` into `'\n'` before `splitlines` and `endswith` see the text, and text-mode writes emit the platform's line separator for `'\n'`. The model reads the raw text and writes `'\n'`. For an ignore list holding `a\r` the utility adds no separator, while the model adds `'\n'` before the pattern.
- CheckpointLog.FirstRunAddsOneLine and CheckpointLog.EntriesShareOneLine require a timestamp without `'\n'`. The clock's formatted timestamp never contains one.
- The final message printed at line 37 is not modelled.
- Concurrent runs against the same files are not modelled. The utility uses no locking, and runs are taken one at a time.
