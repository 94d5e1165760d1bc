/**
 * The last step of extract_question_data: every blank line (a newline, whitespace, a
 * newline) collapsed to one newline, then the text trimmed.
 */
module Cleanup {
  import opened Wrappers
  import opened Strings
  import opened Patterns

  /** `re.sub(r'\n\s*\n', '\n', t)`. */
  function Collapse(t: string): string {
    SubAll(BlankLine, t, 0, "\n")
  }

  /** `re.sub(r'\n\s*\n', '\n', t).strip()`. */
  function Tidy(t: string): string {
    Strip(Collapse(t))
  }

  /** No two newlines of `s` have only whitespace between them. */
  predicate NoBlankLine(s: string) {
    forall i :: 0 <= i < |s| && s[i] == '\n' ==> !SpaceThenNewline(s, i + 1)
  }

  // ------------------------------------------------- whitespace-then-newline

  /** `\s*\n` holds at `k` exactly when the whitespace run from `k` holds a newline. */
  lemma {:induction false} SpaceThenNewlineRun(t: string, k: nat)
    requires k <= |t|
    ensures SpaceThenNewline(t, k) <==> LastNewline(t, k, RunEnd(t, k, Spaces)).Some?
    decreases |t| - k
  {
    var r := RunEnd(t, k, Spaces);
    if k < |t| && IsSpace(t[k]) {
      SpaceThenNewlineRun(t, k + 1);
      assert RunEnd(t, k + 1, Spaces) == r;
      if t[k] == '\n' {
        assert LastNewline(t, k, r).Some? by {
          NewlineInRange(t, k, r, k);
        }
      } else {
        LastNewlineSkipFirst(t, k, r);
      }
    }
  }

  /** A newline in `t[lo..hi]` makes LastNewline find one. */
  lemma {:induction false} NewlineInRange(t: string, lo: nat, hi: nat, m: nat)
    requires lo <= m < hi <= |t| && t[m] == '\n'
    ensures LastNewline(t, lo, hi).Some?
    decreases hi
  {
    if t[hi - 1] != '\n' {
      NewlineInRange(t, lo, hi - 1, m);
    }
  }

  /** When `t[lo]` is not a newline, looking from `lo` or from `lo + 1` is the same. */
  lemma {:induction false} LastNewlineSkipFirst(t: string, lo: nat, hi: nat)
    requires lo < hi <= |t| && t[lo] != '\n'
    ensures LastNewline(t, lo, hi) == LastNewline(t, lo + 1, hi)
    decreases hi
  {
    if hi - 1 > lo && t[hi - 1] != '\n' {
      LastNewlineSkipFirst(t, lo, hi - 1);
    }
  }

  /** A blank line starts at `i` exactly when `t[i]` is a newline followed by `\s*\n`. */
  lemma BlankLineAt(t: string, i: nat)
    requires i <= |t|
    ensures BlankLineEnd(t, i).Some? <==> i < |t| && t[i] == '\n' && SpaceThenNewline(t, i + 1)
  {
    if i < |t| {
      SpaceThenNewlineRun(t, i + 1);
    }
  }

  /** `\s*\n` read after a prefix is `\s*\n` read in the rest. */
  lemma {:induction false} SpaceThenNewlineShift(a: string, b: string, k: nat)
    requires k <= |b|
    ensures SpaceThenNewline(a + b, |a| + k) == SpaceThenNewline(b, k)
    decreases |b| - k
  {
    if k < |b| {
      assert (a + b)[|a| + k] == b[k];
      SpaceThenNewlineShift(a, b, k + 1);
    }
  }

  /** `\s*\n` in a slice is `\s*\n` in the whole text. */
  lemma {:induction false} SpaceThenNewlineSlice(s: string, a: nat, b: nat, k: nat)
    requires a <= b <= |s| && k <= b - a
    requires SpaceThenNewline(s[a..b], k)
    ensures SpaceThenNewline(s, a + k)
    decreases b - a - k
  {
    var u := s[a..b];
    assert u[k] == s[a + k];
    if u[k] != '\n' {
      SpaceThenNewlineSlice(s, a, b, k + 1);
    }
  }

  // ------------------------------------------------------------ the collapse

  /** One character in front of a text without blank lines leaves none, as long as a
      newline there is not followed by `\s*\n`. */
  lemma NoBlankLineCons(c: char, s: string)
    requires NoBlankLine(s)
    requires c == '\n' ==> !SpaceThenNewline(s, 0)
    ensures NoBlankLine([c] + s)
  {
    var u := [c] + s;
    forall i | 0 <= i < |u| && u[i] == '\n'
      ensures !SpaceThenNewline(u, i + 1)
    {
      SpaceThenNewlineShift([c], s, i);
      if i > 0 {
        assert u[i] == s[i - 1];
        SpaceThenNewlineShift([c], s, i - 1);
      }
    }
  }

  /** After whitespace that holds no newline, the collapsed rest of the text does not
      begin with `\s*\n`. */
  lemma {:induction false} NoNewlineAhead(t: string, k: nat)
    requires k <= |t|
    requires forall m {:trigger IsNewline(t[m])} :: k <= m < RunEnd(t, k, Spaces) ==> !IsNewline(t[m])
    ensures !SpaceThenNewline(SubAll(BlankLine, t, k, "\n"), 0)
    decreases |t| - k
  {
    if k < |t| {
      assert !IsNewline(t[k]) || RunEnd(t, k, Spaces) == k;
      assert MatchAt(BlankLine, t, k).None?;
      var rest := SubAll(BlankLine, t, k + 1, "\n");
      assert SubAll(BlankLine, t, k, "\n") == [t[k]] + rest;
      if IsSpace(t[k]) {
        NoNewlineAhead(t, k + 1);
        SpaceThenNewlineShift([t[k]], rest, 0);
      }
    }
  }

  /** The collapse leaves no blank line, from any position on. */
  lemma {:induction false} CollapseFrom(t: string, pos: nat)
    requires pos <= |t|
    ensures NoBlankLine(SubAll(BlankLine, t, pos, "\n"))
    decreases |t| - pos
  {
    if pos < |t| {
      match MatchAt(BlankLine, t, pos)
      case Some(e) =>
        CollapseFrom(t, e);
        var n := LastNewline(t, pos + 1, RunEnd(t, pos + 1, Spaces)).value;
        assert e == n + 1;
        assert RunEnd(t, e, Spaces) == RunEnd(t, pos + 1, Spaces);
        NoNewlineAhead(t, e);
        NoBlankLineCons('\n', SubAll(BlankLine, t, e, "\n"));
      case None =>
        CollapseFrom(t, pos + 1);
        if t[pos] == '\n' {
          BlankLineAt(t, pos);
          SpaceThenNewlineRun(t, pos + 1);
          NoNewlineAhead(t, pos + 1);
        }
        NoBlankLineCons(t[pos], SubAll(BlankLine, t, pos + 1, "\n"));
    }
  }

  /** The collapse leaves no two newlines with only whitespace between them. */
  lemma CollapseLeavesNoBlankLine(t: string)
    ensures NoBlankLine(Collapse(t))
  {
    CollapseFrom(t, 0);
  }

  /** A text without blank lines is its own collapse. */
  lemma CollapseKeeps(s: string)
    requires NoBlankLine(s)
    ensures Collapse(s) == s
  {
    forall k | 0 <= k < |s| ensures MatchAt(BlankLine, s, k).None? {
      BlankLineAt(s, k);
    }
    SubAllNoMatch(BlankLine, s, 0, "\n");
  }

  /** Trimming keeps a text free of blank lines. */
  lemma StripKeepsNoBlankLine(s: string)
    requires NoBlankLine(s)
    ensures NoBlankLine(Strip(s))
  {
    var a := RunEnd(s, 0, Spaces);
    if a < |s| {
      var b := TrailStart(s, |s|);
      var u := s[a..b];
      forall i | 0 <= i < |u| && u[i] == '\n' ensures !SpaceThenNewline(u, i + 1) {
        assert s[a + i] == '\n';
        if SpaceThenNewline(u, i + 1) {
          SpaceThenNewlineSlice(s, a, b, i + 1);
        }
      }
    }
  }

  /** The final text is trimmed, has no blank line, and collapsing it again changes
      nothing. */
  lemma TidyIsClean(t: string)
    ensures var r := Tidy(t); r == [] || (!IsSpace(r[0]) && !IsSpace(r[|r| - 1]))
    ensures NoBlankLine(Tidy(t))
    ensures Collapse(Tidy(t)) == Tidy(t)
  {
    CollapseLeavesNoBlankLine(t);
    StripKeepsNoBlankLine(Collapse(t));
    CollapseKeeps(Tidy(t));
  }

  /** Two newlines of a text without blank lines have a non-whitespace character between
      them. */
  lemma {:induction false} NoBlankLineMeans(s: string, i: nat, j: nat)
    requires NoBlankLine(s)
    requires i < j < |s| && s[i] == '\n' && s[j] == '\n'
    ensures exists m :: i < m < j && !IsSpace(s[m])
  {
    if forall m :: i < m < j ==> IsSpace(s[m]) {
      SpacesReachNewline(s, i + 1, j);
    }
  }

  lemma {:induction false} SpacesReachNewline(s: string, k: nat, j: nat)
    requires k <= j < |s| && s[j] == '\n'
    requires forall m :: k <= m < j ==> IsSpace(s[m])
    ensures SpaceThenNewline(s, k)
    decreases j - k
  {
    if k < j {
      SpacesReachNewline(s, k + 1, j);
    }
  }
}
