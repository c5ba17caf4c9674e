/**
 The checkpoint log `checkpoint.md`: a fixed header written once, when the
 file is first created, followed by one entry `- [<timestamp>] ` per run.
 The log is only ever appended to. The program writes no summary text and
 an entry carries no line terminator, so whatever is written after it, a
 summary as rule 1 of the header expects or the next run's entry,
 continues on the same line.
 */
module CheckpointLog {
  import opened Wrappers
  import opened LineSplit

  /** The text a newly created log starts with; it ends with the `---` separator line. */
  const Header: string :=
    "# Project Checkpoint Log\n\n"
    + "Rules:\n"
    + "1. Always follow this format per update:\n"
    + "   - [YYYY-MM-DD HH:MM:SS TZ] Brief summary for each entry\n"
    + "2. After each task is completed, update the checkpoint file.\n"
    + "3. Try to ensure checkpoint file is read at the beginning of each chat session.\n"
    + "4. Always append - never over write the file.\n\n"
    + "---\n"

  /** The entry one run appends for timestamp `ts`. */
  function Entry(ts: string): (e: string)
    ensures |e| == |ts| + 5
    ensures e[..3] == "- [" && e[|e| - 2..] == "] "
    ensures e[3..|e| - 2] == ts
    ensures '\n' in e <==> '\n' in ts
  {
    "- [" + ts + "] "
  }

  /** The log as it stands before the entry is appended: the header when the file is absent. */
  function TextBeforeEntry(log: Option<string>): (c: string)
    ensures log.Some? ==> c == log.value
    ensures log.None? ==> c == Header
  {
    log.GetOr(Header)
  }

  /** The content of the log after one run that appends the entry for `ts`. */
  function UpdateCheckpoint(log: Option<string>, ts: string): (r: string)
    ensures TextBeforeEntry(log) < r
    ensures |r| == |TextBeforeEntry(log)| + |Entry(ts)|
    ensures r[|TextBeforeEntry(log)|..] == Entry(ts)
  {
    TextBeforeEntry(log) + Entry(ts)
  }

  /** The header text ends with its `---` separator line. */
  lemma HeaderEndsWithSeparator()
    ensures |Header| >= 4 && Header[|Header| - 4..] == "---\n"
    ensures EndsWithNewline(Header)
  {
  }

  /** A log that did not exist becomes exactly the header followed by the one entry. */
  lemma AbsentLogGetsHeaderAndEntry(ts: string)
    ensures UpdateCheckpoint(None, ts)[..|Header|] == Header
    ensures UpdateCheckpoint(None, ts)[|Header|..] == "- [" + ts + "] "
  {
  }

  /** An existing log is a strict prefix of the result, followed by exactly the one entry. */
  lemma ExistingLogIsKept(content: string, ts: string)
    ensures content < UpdateCheckpoint(Some(content), ts)
    ensures UpdateCheckpoint(Some(content), ts)[|content|..] == "- [" + ts + "] "
  {
  }

  /**
   The first run on an absent log leaves the header's lines followed by
   exactly one more line, the entry, when the timestamp has no line break.
   */
  lemma FirstRunAddsOneLine(ts: string)
    requires '\n' !in ts
    ensures Lines(UpdateCheckpoint(None, ts)) == Lines(Header) + [Entry(ts)]
  {
    HeaderEndsWithSeparator();
    LinesOfTerminatedConcat(Header, Entry(ts));
    LinesOfSingleLine(Entry(ts));
  }

  /** The result never ends with a line terminator: it ends with the entry's `"] "`. */
  lemma UpdateLeavesLineOpen(log: Option<string>, ts: string)
    ensures !Terminated(UpdateCheckpoint(log, ts))
  {
  }

  /**
   The entry of one run and the entry of the next share a line: with a
   timestamp free of line breaks, the second run adds no line to the log and
   only lengthens its last line by the new entry.
   */
  lemma EntriesShareOneLine(log: Option<string>, ts1: string, ts2: string)
    requires '\n' !in ts2
    ensures var first := UpdateCheckpoint(log, ts1);
            Lines(UpdateCheckpoint(Some(first), ts2)) == ExtendLast(Lines(first), Entry(ts2))
  {
    var first := UpdateCheckpoint(log, ts1);
    UpdateLeavesLineOpen(log, ts1);
    LinesOfLastLineExtension(first, Entry(ts2));
  }

  /** The log after runs stamped `stamps[0]`, `stamps[1]`, ... one after the other. */
  function LogAfter(log: Option<string>, stamps: seq<string>): (r: Option<string>)
    ensures stamps == [] ==> r == log
    ensures stamps != [] ==> r.Some? && TextBeforeEntry(log) < r.value
    decreases |stamps|
  {
    if stamps == [] then log else LogAfter(Some(UpdateCheckpoint(log, stamps[0])), stamps[1..])
  }

  /** The entries of runs stamped `stamps`, in order. */
  function Entries(stamps: seq<string>): string
    decreases |stamps|
  {
    if stamps == [] then "" else Entry(stamps[0]) + Entries(stamps[1..])
  }

  /** Runs on an existing log append one entry per run, in run order, and touch nothing else. */
  lemma {:induction false} ExistingLogAfter(content: string, stamps: seq<string>)
    ensures LogAfter(Some(content), stamps) == Some(content + Entries(stamps))
    decreases |stamps|
  {
    if stamps == [] {
      assert content + Entries(stamps) == content;
    } else {
      var first := content + Entry(stamps[0]);
      assert LogAfter(Some(content), stamps) == LogAfter(Some(first), stamps[1..]);
      ExistingLogAfter(first, stamps[1..]);
      ConcatAssoc(content, Entry(stamps[0]), Entries(stamps[1..]));
    }
  }

  /**
   After one or more runs the log is what it was, or the header when it did
   not exist, followed by one entry per run in run order.
   */
  lemma LogAfterRuns(log: Option<string>, stamps: seq<string>)
    requires stamps != []
    ensures LogAfter(log, stamps) == Some(TextBeforeEntry(log) + Entries(stamps))
  {
    var base := TextBeforeEntry(log);
    var first := base + Entry(stamps[0]);
    assert LogAfter(log, stamps) == LogAfter(Some(first), stamps[1..]);
    ExistingLogAfter(first, stamps[1..]);
    ConcatAssoc(base, Entry(stamps[0]), Entries(stamps[1..]));
  }
}
