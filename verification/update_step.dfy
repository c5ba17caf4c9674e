/**
 One run of the checkpoint utility over the two files of a project
 directory, and a sequence of runs. The directory itself, the clock and the
 file system are not modelled: a project is the pair of file contents, and
 each run is given its timestamp.
 */
module UpdateStep {
  import opened Wrappers
  import opened LineSplit
  import opened CheckpointLog
  import opened IgnoreList

  /** The two files a run touches; `None` is a file that does not exist. */
  datatype Project = Project(checkpoint: Option<string>, gitignore: Option<string>)

  /** One run, stamped `ts`: append to the log, then make sure the ignore file lists the log. */
  function Step(p: Project, ts: string): (q: Project)
    ensures q.checkpoint.Some? && q.gitignore.Some?
    ensures p.checkpoint.Some? ==> p.checkpoint.value < q.checkpoint.value
    ensures p.gitignore.Some? ==> p.gitignore.value <= q.gitignore.value
  {
    Project(Some(UpdateCheckpoint(p.checkpoint, ts)), Some(EnsureIgnore(p.gitignore)))
  }

  /** Runs stamped `stamps[0]`, `stamps[1]`, ... one after the other. */
  function Run(p: Project, stamps: seq<string>): (q: Project)
    ensures stamps == [] ==> q == p
    ensures stamps != [] ==> q.checkpoint.Some? && q.gitignore.Some?
    decreases |stamps|
  {
    if stamps == [] then p else Run(Step(p, stamps[0]), stamps[1..])
  }

  /** A sequence of runs acts on each file separately; the ignore file only changes on the first. */
  lemma {:induction false} RunActsPerFile(p: Project, stamps: seq<string>)
    ensures Run(p, stamps).checkpoint == LogAfter(p.checkpoint, stamps)
    ensures Run(p, stamps).gitignore
         == if stamps == [] then p.gitignore else Some(EnsureIgnore(p.gitignore))
    decreases |stamps|
  {
    if stamps != [] {
      var q := Step(p, stamps[0]);
      RunActsPerFile(q, stamps[1..]);
      if stamps[1..] != [] {
        EnsureIgnoreIdempotent(p.gitignore);
      }
    }
  }

  /**
   After one or more runs, the log is what it was (or the header) followed by
   one entry per run, in run order, and the ignore file is what the first run
   made of it.
   */
  lemma RunAppendsEntries(p: Project, stamps: seq<string>)
    requires stamps != []
    ensures Run(p, stamps).checkpoint == Some(TextBeforeEntry(p.checkpoint) + Entries(stamps))
    ensures Run(p, stamps).gitignore == Some(EnsureIgnore(p.gitignore))
  {
    RunActsPerFile(p, stamps);
    LogAfterRuns(p.checkpoint, stamps);
  }

  /** After a run the ignore file exists and lists the log's pattern. */
  lemma StepListsLog(p: Project, ts: string)
    ensures Step(p, ts).gitignore.Some?
    ensures Pattern in Lines(Step(p, ts).gitignore.value)
  {
    PatternPresentAfterEnsure(p.gitignore);
  }

  /** However many runs there are, the ignore file lists the pattern as often as after one run. */
  lemma RunCountsPatternAsOneRun(p: Project, stamps: seq<string>)
    requires stamps != []
    ensures Run(p, stamps).gitignore.Some?
    ensures var before := multiset(Lines(Content(p.gitignore)))[Pattern];
            multiset(Lines(Run(p, stamps).gitignore.value))[Pattern] == if before == 0 then 1 else before
  {
    RunAppendsEntries(p, stamps);
    PatternCountAfterEnsure(p.gitignore);
  }

  /** A run never removes or rewrites text already in the log. */
  lemma {:induction false} RunKeepsLogPrefix(p: Project, stamps: seq<string>)
    requires p.checkpoint.Some?
    ensures Run(p, stamps).checkpoint.Some?
    ensures p.checkpoint.value <= Run(p, stamps).checkpoint.value
    decreases |stamps|
  {
    if stamps != [] {
      RunKeepsLogPrefix(Step(p, stamps[0]), stamps[1..]);
    }
  }

  /** An empty project directory: the log is the header and one entry, the ignore file the one pattern line. */
  lemma FreshProject(ts: string)
    ensures Step(Project(None, None), ts)
         == Project(Some(Header + "- [" + ts + "] "), Some("checkpoint.md\n"))
  {
    assert TextBeforeEntry(None) + Entry(ts) == Header + "- [" + ts + "] ";
    assert EnsureIgnore(None) == Pattern + "\n" == "checkpoint.md\n";
  }
}
