/**
 The ignore list `.gitignore`: one pattern per line. A run makes sure the
 pattern `checkpoint.md` is one of its lines, appending it (after a line
 terminator, when the last line lacks one) only when it is missing.
 */
module IgnoreList {
  import opened Wrappers
  import opened LineSplit

  /** The line that keeps the checkpoint log out of version control. */
  const Pattern: string := "checkpoint.md"

  /** The text the run reads: an absent ignore file reads as empty. */
  function Content(file: Option<string>): (c: string)
    ensures file.Some? ==> c == file.value
    ensures file.None? ==> c == []
  {
    file.GetOr("")
  }

  /** True when appending to `c` must first close its unterminated last line. */
  predicate NeedsSeparator(c: string): (b: bool)
    ensures b <==> !Terminated(c)
  {
    Lines(c) != [] && !EndsWithNewline(c)
  }

  /** `c` with its last line terminated, ready for a line to be appended. */
  function Closed(c: string): (r: string)
    ensures c <= r && |r| <= |c| + 1
    ensures Terminated(r)
    ensures NeedsSeparator(c) <==> r != c
  {
    if NeedsSeparator(c) then c + "\n" else c
  }

  /** The content of the ignore file after one run. */
  function EnsureIgnore(file: Option<string>): (r: string)
    ensures Content(file) <= r
    ensures Pattern in Lines(Content(file)) ==> r == Content(file)
    ensures Content(file) == [] ==> r == Pattern + "\n"
  {
    var c := Content(file);
    if Pattern in Lines(c) then c else Closed(c) + Pattern + "\n"
  }

  /** Closing the last line changes no line and leaves the text terminated. */
  lemma ClosedKeepsLines(c: string)
    ensures Terminated(Closed(c))
    ensures Lines(Closed(c)) == Lines(c)
  {
    if NeedsSeparator(c) {
      LinesOfTermination(c);
    }
  }

  /** Appending a line after closing the last one adds exactly that line. */
  lemma LinesOfAppendedLine(c: string, p: string)
    requires '\n' !in p
    ensures Lines(Closed(c) + p + "\n") == Lines(c) + [p]
  {
    ClosedKeepsLines(c);
    assert Closed(c) + p + "\n" == Closed(c) + (p + "\n");
    LinesOfTerminatedConcat(Closed(c), p + "\n");
    LinesOfUnlines([p]);
    assert Unlines([p]) == p + "\n";
  }

  /**
   The lines after a run are the lines before it, followed by the pattern
   when it was missing: no existing line changes (an unterminated last line
   gains only its terminator), no line merges with the pattern and no empty
   line is inserted before it.
   */
  lemma LinesAfterEnsure(file: Option<string>)
    ensures var c := Content(file);
            Lines(EnsureIgnore(file)) == if Pattern in Lines(c) then Lines(c) else Lines(c) + [Pattern]
  {
    var c := Content(file);
    if Pattern !in Lines(c) {
      LinesOfAppendedLine(c, Pattern);
    }
  }

  /** After a run the pattern is always one of the lines. */
  lemma PatternPresentAfterEnsure(file: Option<string>)
    ensures Pattern in Lines(EnsureIgnore(file))
  {
    LinesAfterEnsure(file);
    var c := Content(file);
    if Pattern !in Lines(c) {
      assert (Lines(c) + [Pattern])[|Lines(c)|] == Pattern;
    }
  }

  /** Running twice leaves the ignore file as running once did. */
  lemma EnsureIgnoreIdempotent(file: Option<string>)
    ensures EnsureIgnore(Some(EnsureIgnore(file))) == EnsureIgnore(file)
  {
    PatternPresentAfterEnsure(file);
  }

  /**
   A run adds the pattern once when it is missing and otherwise leaves the
   number of its occurrences alone, so repeated runs never add a second copy
   (copies already present stay).
   */
  lemma PatternCountAfterEnsure(file: Option<string>)
    ensures var before := multiset(Lines(Content(file)))[Pattern];
            multiset(Lines(EnsureIgnore(file)))[Pattern] == if before == 0 then 1 else before
  {
    LinesAfterEnsure(file);
    var c := Content(file);
    if Pattern !in Lines(c) {
      assert multiset(Lines(c) + [Pattern]) == multiset(Lines(c)) + multiset{Pattern};
    }
  }

  /**
   When the pattern is missing the old text is kept, and a line break is put
   before the pattern exactly when the old text's last line is unterminated.
   */
  lemma AppendedTextWhenMissing(file: Option<string>)
    requires Pattern !in Lines(Content(file))
    ensures var c, r := Content(file), EnsureIgnore(file);
            && r[..|c|] == c
            && (!Terminated(c) ==> r[|c|..] == "\n" + Pattern + "\n")
            && (Terminated(c) ==> r[|c|..] == Pattern + "\n")
  {
    var c := Content(file);
    if NeedsSeparator(c) {
      assert Closed(c) + Pattern + "\n" == c + ("\n" + Pattern + "\n");
    } else {
      assert Closed(c) + Pattern + "\n" == c + (Pattern + "\n");
    }
  }

  /**
   An ignore file holding one other pattern, such as `node_modules`, without
   a final line break: that line stays intact and the log's pattern follows
   on a line of its own.
   */
  lemma UnterminatedSingleLine(line: string)
    requires line != [] && '\n' !in line && line != Pattern
    ensures EnsureIgnore(Some(line)) == line + "\n" + Pattern + "\n"
    ensures Lines(EnsureIgnore(Some(line))) == [line, Pattern]
  {
    assert Lines(line) == [line] by {
      LinesOfSingleLine(line);
    }
    LinesAfterEnsure(Some(line));
  }
}
