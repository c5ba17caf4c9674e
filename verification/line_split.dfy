/**
 Splitting text into lines the way Python's `str.splitlines()` does when the
 only line break that occurs is `'\n'`: every `'\n'` ends a line and is not
 part of it, and a final line without a terminator is still a line, so
 `""` has no lines, `"\n"` has one empty line and `"a\nb"` has two.
 */
module LineSplit {

  /** True when `s` is non-empty and its last character is a line break. */
  predicate EndsWithNewline(s: string) {
    |s| > 0 && s[|s| - 1] == '\n'
  }

  /** True when every line break of `s` terminates it: `s` is empty or ends in `'\n'`. */
  predicate Terminated(s: string) {
    s == [] || EndsWithNewline(s)
  }

  /** Position of the first `'\n'` in `s`, or `|s|` when `s` has none. */
  function FirstNewline(s: string): (i: nat)
    ensures i <= |s|
    ensures i < |s| ==> s[i] == '\n'
  {
    FirstNewlineFrom(s, 0)
  }

  /** Position of the first `'\n'` in `s` at or after `k`, or `|s|` when there is none. */
  function FirstNewlineFrom(s: string, k: nat): (i: nat)
    requires k <= |s|
    ensures k <= i <= |s|
    ensures i < |s| ==> s[i] == '\n'
    decreases |s| - k
  {
    if k == |s| then |s|
    else if s[k] == '\n' then k
    else FirstNewlineFrom(s, k + 1)
  }

  /** No character between `k` and the first line break after it is a line break. */
  lemma {:induction false} NoNewlineBeforeFirstFrom(s: string, k: nat, j: nat)
    requires k <= j < |s| && j < FirstNewlineFrom(s, k)
    ensures s[j] != '\n'
    decreases |s| - k
  {
    if k < j {
      NoNewlineBeforeFirstFrom(s, k + 1, j);
    }
  }

  /** No character before the first line break is a line break. */
  lemma NoNewlineBeforeFirst(s: string, k: nat)
    requires k < FirstNewline(s)
    ensures s[k] != '\n'
  {
    NoNewlineBeforeFirstFrom(s, 0, k);
  }

  /** Text whose first line break is past its end holds no line break. */
  lemma NoNewlineInLine(s: string)
    requires FirstNewline(s) == |s|
    ensures '\n' !in s
  {
    forall k | 0 <= k < |s|
      ensures s[k] != '\n'
    {
      NoNewlineBeforeFirst(s, k);
    }
  }

  /** `FirstNewline` is characterised by the position it finds. */
  lemma FirstNewlineIs(s: string, i: nat)
    requires i <= |s|
    requires i < |s| ==> s[i] == '\n'
    requires forall k :: 0 <= k < i ==> s[k] != '\n'
    ensures FirstNewline(s) == i
  {
    if i < FirstNewline(s) {
      NoNewlineBeforeFirst(s, i);
    }
  }

  /** The lines of `s`, without their terminators. */
  function Lines(s: string): (ls: seq<string>)
    ensures ls == [] <==> s == []
    decreases |s|
  {
    if s == [] then []
    else if FirstNewline(s) == |s| then [s]
    else [s[..FirstNewline(s)]] + Lines(s[FirstNewline(s) + 1..])
  }

  /** The text whose lines are `ls`, each line followed by a terminator. */
  function Unlines(ls: seq<string>): (s: string)
    ensures |ls| > 0 ==> EndsWithNewline(s)
    ensures |ls| == 0 ==> s == []
  {
    if ls == [] then "" else ls[0] + "\n" + Unlines(ls[1..])
  }

  /** A line break placed right after a line-free prefix is the first one. */
  lemma FirstNewlineAfterLine(a: string, b: string)
    requires '\n' !in a
    ensures FirstNewline(a + "\n" + b) == |a|
  {
    var s := a + "\n" + b;
    assert forall k :: 0 <= k < |a| ==> s[k] == a[k];
    FirstNewlineIs(s, |a|);
  }

  /** Text that already holds a line break keeps the same first break when extended. */
  lemma FirstNewlineOfExtension(a: string, b: string)
    requires FirstNewline(a) < |a|
    ensures FirstNewline(a + b) == FirstNewline(a)
  {
    var i := FirstNewline(a);
    forall k | 0 <= k < i
      ensures (a + b)[k] != '\n'
    {
      NoNewlineBeforeFirst(a, k);
    }
    FirstNewlineIs(a + b, i);
  }

  /** Splitting undoes joining: lines without breaks, once joined, split back into themselves. */
  lemma {:induction false} LinesOfUnlines(ls: seq<string>)
    requires forall k :: 0 <= k < |ls| ==> '\n' !in ls[k]
    ensures Lines(Unlines(ls)) == ls
  {
    if ls != [] {
      var h, rest := ls[0], Unlines(ls[1..]);
      assert Lines(Unlines(ls)) == [h] + Lines(rest) by {
        var s := h + "\n" + rest;
        assert Unlines(ls) == s;
        FirstNewlineAfterLine(h, rest);
        assert s[..|h|] == h;
        assert s[|h| + 1..] == rest;
        LinesAt(s, |h|);
      }
      LinesOfUnlines(ls[1..]);
      assert ls == [h] + ls[1..];
    }
  }

  /** A text is the part before a line break, the break, and the part after it. */
  lemma SplitAt(s: string, i: nat)
    requires i < |s| && s[i] == '\n'
    ensures s == s[..i] + "\n" + s[i + 1..]
  {
    assert s[..i + 1] == s[..i] + ['\n'];
    assert s == s[..i + 1] + s[i + 1..];
  }

  /** Unfolds `Lines` once, at the first line break `i` of `s`. */
  lemma LinesAt(s: string, i: nat)
    requires i == FirstNewline(s) && i < |s|
    ensures Lines(s) == [s[..i]] + Lines(s[i + 1..])
  {
  }

  /** Slicing a concatenation inside its first part. */
  lemma SliceOfConcat(a: string, b: string, i: nat)
    requires i < |a|
    ensures (a + b)[..i] == a[..i]
    ensures (a + b)[i + 1..] == a[i + 1..] + b
  {
  }

  /** Unfolds `Lines` once on a text extended past its first line break. */
  lemma LinesOfExtension(a: string, b: string)
    requires FirstNewline(a) < |a|
    ensures Lines(a + b) == [a[..FirstNewline(a)]] + Lines(a[FirstNewline(a) + 1..] + b)
  {
    var i := FirstNewline(a);
    FirstNewlineOfExtension(a, b);
    SliceOfConcat(a, b, i);
    LinesAt(a + b, i);
  }

  /** Text without a line break is a single unterminated line. */
  lemma LinesWithoutBreak(s: string)
    requires s != [] && FirstNewline(s) == |s|
    ensures !Terminated(s)
    ensures Lines(s) == [s]
  {
    NoNewlineBeforeFirst(s, |s| - 1);
  }

  /** The text that joining the lines of `s` gives back. */
  function Rejoined(s: string): string {
    if Terminated(s) then s else s + "\n"
  }

  /** `Unlines` on a list with a first line. */
  lemma UnlinesCons(h: string, t: seq<string>)
    ensures Unlines([h] + t) == h + "\n" + Unlines(t)
  {
    assert ([h] + t)[1..] == t;
  }

  /** Rejoining text that holds a break only touches the part after that break. */
  lemma RejoinedAfterBreak(a: string, b: string)
    ensures Rejoined(a + "\n" + b) == a + "\n" + Rejoined(b)
  {
    var s := a + "\n" + b;
    if b == [] {
      assert s == a + "\n";
    } else {
      assert s[|s| - 1] == b[|b| - 1];
      assert s + "\n" == a + "\n" + (b + "\n");
    }
  }

  /** One step of `UnlinesOfLines`: from the text after the first break to the whole text. */
  lemma UnlinesOfLinesStep(s: string)
    requires FirstNewline(s) < |s|
    requires Unlines(Lines(s[FirstNewline(s) + 1..])) == Rejoined(s[FirstNewline(s) + 1..])
    ensures Unlines(Lines(s)) == Rejoined(s)
  {
    var i := FirstNewline(s);
    var head, tail := s[..i], s[i + 1..];
    LinesAt(s, i);
    SplitAt(s, i);
    UnlinesCons(head, Lines(tail));
    RejoinedAfterBreak(head, tail);
  }

  /** A non-empty text free of line breaks is exactly one line. */
  lemma LinesOfSingleLine(s: string)
    requires s != [] && '\n' !in s
    ensures Lines(s) == [s]
  {
    FirstNewlineIs(s, |s|);
    LinesWithoutBreak(s);
  }

  /** Joining undoes splitting, except that a missing final terminator is supplied. */
  lemma {:induction false} UnlinesOfLines(s: string)
    ensures Unlines(Lines(s)) == Rejoined(s)
    decreases |s|
  {
    if s == [] {
    } else if FirstNewline(s) == |s| {
      LinesWithoutBreak(s);
      assert Unlines([s]) == s + "\n" + Unlines([]);
    } else {
      UnlinesOfLines(s[FirstNewline(s) + 1..]);
      UnlinesOfLinesStep(s);
    }
  }

  /** A non-empty terminated text has a first line break, and what follows it is terminated too. */
  lemma TerminatedTail(a: string)
    requires a != [] && Terminated(a)
    ensures FirstNewline(a) < |a|
    ensures Terminated(a[FirstNewline(a) + 1..])
  {
    if FirstNewline(a) == |a| {
      NoNewlineBeforeFirst(a, |a| - 1);
    }
  }

  /** One step of `LinesOfTerminatedConcat`, from the text after the first break to the whole text. */
  lemma LinesOfTerminatedConcatStep(a: string, b: string, i: nat)
    requires i == FirstNewline(a) && i < |a|
    requires Lines(a[i + 1..] + b) == Lines(a[i + 1..]) + Lines(b)
    ensures Lines(a + b) == Lines(a) + Lines(b)
  {
    var head, tail := a[..i], a[i + 1..];
    assert Lines(a) == [head] + Lines(tail) by {
      LinesAt(a, i);
    }
    assert Lines(a + b) == [head] + Lines(tail + b) by {
      LinesOfExtension(a, b);
    }
    ConcatAssoc([head], Lines(tail), Lines(b));
  }

  /** Concatenation of sequences is associative. */
  lemma ConcatAssoc<T>(a: seq<T>, b: seq<T>, c: seq<T>)
    ensures a + b + c == a + (b + c)
  {
  }

  /** The lines of a terminated text followed by more text are the lines of each part. */
  lemma {:induction false} LinesOfTerminatedConcat(a: string, b: string)
    requires Terminated(a)
    ensures Lines(a + b) == Lines(a) + Lines(b)
    decreases |a|
  {
    if a == [] {
      assert a + b == b;
    } else {
      var i := FirstNewline(a);
      assert i < |a| && Terminated(a[i + 1..]) by {
        TerminatedTail(a);
      }
      assert Lines(a[i + 1..] + b) == Lines(a[i + 1..]) + Lines(b) by {
        LinesOfTerminatedConcat(a[i + 1..], b);
      }
      LinesOfTerminatedConcatStep(a, b, i);
    }
  }

  /** Terminating an unterminated last line adds no line and changes no line. */
  lemma {:induction false} LinesOfTermination(s: string)
    requires !Terminated(s)
    ensures Lines(s + "\n") == Lines(s)
    decreases |s|
  {
    var i := FirstNewline(s);
    if i == |s| {
      LinesWithoutBreak(s);
      NoNewlineInLine(s);
      FirstNewlineAfterLine(s, "");
      assert s + "\n" + "" == s + "\n";
      SliceOfConcat(s + "\n", [], i);
      LinesAt(s + "\n", i);
    } else {
      var tail := s[i + 1..];
      assert !Terminated(tail);
      LinesAt(s, i);
      LinesOfExtension(s, "\n");
      LinesOfTermination(tail);
    }
  }

  /** `ls` with `e` appended to its last line (or `e` as the only line when there is none). */
  function ExtendLast(ls: seq<string>, e: string): seq<string> {
    if ls == [] then [e] else ls[..|ls| - 1] + [ls[|ls| - 1] + e]
  }

  lemma ExtendLastCons(h: string, ls: seq<string>, e: string)
    requires |ls| > 0
    ensures ExtendLast([h] + ls, e) == [h] + ExtendLast(ls, e)
  {
    assert ([h] + ls)[..|ls|] == [h] + ls[..|ls| - 1];
  }

  /** One step of `LinesOfLastLineExtension`, from the text after the first break to the whole text. */
  lemma LinesOfLastLineExtensionStep(s: string, e: string)
    requires !Terminated(s) && FirstNewline(s) < |s|
    requires Lines(s[FirstNewline(s) + 1..] + e) == ExtendLast(Lines(s[FirstNewline(s) + 1..]), e)
    ensures Lines(s + e) == ExtendLast(Lines(s), e)
  {
    var i := FirstNewline(s);
    var head, tail := s[..i], s[i + 1..];
    LinesAt(s, i);
    LinesOfExtension(s, e);
    ExtendLastCons(head, Lines(tail), e);
  }

  /** Appending text without a break to a single line gives a single, longer line. */
  lemma LinesOfLastLineExtensionBase(s: string, e: string)
    requires s != [] && FirstNewline(s) == |s|
    requires '\n' !in e
    ensures Lines(s + e) == ExtendLast(Lines(s), e)
  {
    LinesWithoutBreak(s);
    NoNewlineInLine(s);
    LinesOfSingleLine(s + e);
  }

  /**
   Text without line breaks appended to an unterminated last line joins that
   line: the number of lines stays the same and only the last line grows.
   */
  lemma {:induction false} LinesOfLastLineExtension(s: string, e: string)
    requires !Terminated(s)
    requires '\n' !in e
    ensures Lines(s + e) == ExtendLast(Lines(s), e)
    decreases |s|
  {
    if FirstNewline(s) == |s| {
      LinesOfLastLineExtensionBase(s, e);
    } else {
      var tail := s[FirstNewline(s) + 1..];
      assert !Terminated(tail);
      LinesOfLastLineExtension(tail, e);
      LinesOfLastLineExtensionStep(s, e);
    }
  }

  /** No line holds a line break. */
  lemma {:induction false} LinesHaveNoBreak(s: string)
    ensures forall k :: 0 <= k < |Lines(s)| ==> '\n' !in Lines(s)[k]
    decreases |s|
  {
    if s != [] {
      var i := FirstNewline(s);
      forall k | 0 <= k < i
        ensures s[k] != '\n'
      {
        NoNewlineBeforeFirst(s, k);
      }
      if i < |s| {
        LinesAt(s, i);
        LinesHaveNoBreak(s[i + 1..]);
        assert '\n' !in s[..i];
      } else {
        assert s[..i] == s;
      }
    }
  }
}
