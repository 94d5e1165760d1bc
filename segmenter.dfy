/**
 * The question segmenter (process_questions): header starts found by a three-tier
 * cascade of patterns, the text cut between consecutive starts, each piece numbered
 * and turned into a question record.
 */
module Segmenter {
  import opened Wrappers
  import opened Strings
  import opened Patterns
  import opened Fields

  /** What process_questions returns: the empty dictionary when no header is found,
      otherwise the number of questions and their records. */
  datatype ParseResult = NoQuestions | Parsed(totalQuestions: nat, questions: seq<Question>)

  /** Positions inside the text, strictly increasing. */
  predicate Ascending(starts: seq<nat>, text: string) {
    (forall k :: 0 <= k < |starts| ==> starts[k] < |text|) &&
    (forall k, l :: 0 <= k < l < |starts| ==> starts[k] < starts[l])
  }

  /** The starts of the matches of `p`, in order. */
  function StartsOf(p: Pattern, text: string): (r: seq<nat>)
    ensures Ascending(r, text)
  {
    Starts(Matches(p, text, 0))
  }

  /** The header starts: the full header's, or failing any, those of `<n>. Тип`, or
      failing any, those of `<n>. Тип <n>`. */
  function HeaderStarts(text: string): (r: seq<nat>)
    ensures Ascending(r, text)
  {
    var full := StartsOf(FullHeader, text);
    if full != [] then full
    else
      var alt := StartsOf(TypeHeader, text);
      if alt != [] then alt else StartsOf(NumberedTypeHeader, text)
  }

  /** Where the piece of question `i` ends: at the next start, the last at the end. */
  function PieceEnd(text: string, starts: seq<nat>, i: nat): nat
    requires i < |starts|
  {
    if i + 1 < |starts| then starts[i + 1] else |text|
  }

  /** The stripped text from start `i` to the next start (the last to the end). */
  function QuestionSlice(text: string, starts: seq<nat>, i: nat): string
    requires Ascending(starts, text) && i < |starts|
  {
    Strip(text[starts[i]..PieceEnd(text, starts, i)])
  }

  /** The number of `<n>. Тип` in the piece, else `i + 1`. */
  function QuestionNumber(slice: string, i: nat): nat {
    match Search(TypeHeader, slice, 0)
    case Some(sp) =>
      DigitRun(slice, sp.start);
      DecimalValue(slice[sp.start..RunEnd(slice, sp.start, Digits)])
    case None => i + 1
  }

  /** The record process_questions builds for question `i`. */
  function Record(text: string, starts: seq<nat>, i: nat, refs: seq<ImageRef>): Question
    requires Ascending(starts, text) && i < |starts|
  {
    var slice := QuestionSlice(text, starts, i);
    ExtractQuestion(slice, QuestionNumber(slice, i), refs)
  }

  /** The cascade of process_questions: each tier tried only when the one before it
      found nothing. */
  method FindQuestionStarts(text: string) returns (positions: seq<nat>)
    ensures positions == HeaderStarts(text)
    ensures Ascending(positions, text)
  {
    positions := StartsOf(FullHeader, text);
    if positions == [] {
      positions := StartsOf(TypeHeader, text);
      if positions == [] {
        positions := StartsOf(NumberedTypeHeader, text);
      }
    }
  }

  /** process_questions: the cascade, then one record per start, in order. */
  method ProcessQuestions(text: string, refs: seq<ImageRef>) returns (r: ParseResult)
    ensures r.NoQuestions? <==> HeaderStarts(text) == []
    ensures r.Parsed? ==> r.totalQuestions == |r.questions| == |HeaderStarts(text)|
    ensures r.Parsed? ==> forall i :: 0 <= i < |r.questions| ==>
      r.questions[i] == Record(text, HeaderStarts(text), i, refs)
  {
    var positions := FindQuestionStarts(text);
    if positions == [] {
      return NoQuestions;
    }
    ghost var starts := positions;
    positions := positions + [|text|];

    var questions: seq<Question> := [];
    ghost var expected := seq(|starts|, k requires 0 <= k < |starts| => Record(text, starts, k, refs));
    for i := 0 to |positions| - 1
      invariant questions == expected[..i]
    {
      assert positions[i] == starts[i] && positions[i + 1] == PieceEnd(text, starts, i);
      var questionText := Strip(text[positions[i]..positions[i + 1]]);
      var questionNumber := QuestionNumber(questionText, i);
      assert questionText == QuestionSlice(text, starts, i);
      var questionData := ExtractQuestionData(questionText, questionNumber, refs);
      assert questionData == expected[i];
      PrefixSnoc(questions, expected, i, questionData);
      questions := questions + [questionData];
    }
    assert questions == expected;
    r := Parsed(|questions|, questions);
  }

  // ------------------------------------------------------------------ lemmas

  /** Extending a prefix of `all` by its next element gives the next prefix. */
  lemma PrefixSnoc<T>(qs: seq<T>, all: seq<T>, i: nat, q: T)
    requires i < |all| && qs == all[..i] && q == all[i]
    ensures qs + [q] == all[..i + 1]
  {
  }

  /** The header prefixes: a match of a longer header pattern at `i` has a match of each
      shorter one at `i` inside it. */
  lemma HeaderPrefixes(text: string, i: nat)
    requires i <= |text|
    ensures MatchAt(FullHeader, text, i).Some? ==>
      MatchAt(NumberedTypeHeader, text, i).Some? &&
      MatchAt(NumberedTypeHeader, text, i).value <= MatchAt(FullHeader, text, i).value
    ensures MatchAt(NumberedTypeHeader, text, i).Some? ==>
      MatchAt(TypeHeader, text, i).Some? &&
      MatchAt(TypeHeader, text, i).value <= MatchAt(NumberedTypeHeader, text, i).value
  {
    MatchSeqAppend(NumberedTypeHeaderAtoms,
      [Some1(Spaces), Lit(NumberSign), Some1(Spaces), Lit("[["), Some1(Digits), Lit("]")], text, i);
    MatchSeqAppend(TypeHeaderAtoms, [Some1(Spaces), Some1(Digits)], text, i);
  }

  /** Tier 3 never succeeds where tier 2 failed: every `<n>. Тип <n>` is a `<n>. Тип`. */
  lemma TierThreeNeverNeeded(text: string)
    ensures StartsOf(TypeHeader, text) == [] ==> StartsOf(NumberedTypeHeader, text) == []
  {
    MatchesEmpty(TypeHeader, text, 0);
    MatchesEmpty(NumberedTypeHeader, text, 0);
    forall k | 0 <= k < |text|
      ensures MatchAt(NumberedTypeHeader, text, k).Some? ==> MatchAt(TypeHeader, text, k).Some?
    {
      HeaderPrefixes(text, k);
    }
  }

  /** The cascade: the full headers when there are any, otherwise the `<n>. Тип`
      headers; no question at all exactly when `<n>. Тип` matches nowhere. */
  lemma HeaderCascade(text: string)
    ensures StartsOf(FullHeader, text) != [] ==> HeaderStarts(text) == StartsOf(FullHeader, text)
    ensures StartsOf(FullHeader, text) == [] ==> HeaderStarts(text) == StartsOf(TypeHeader, text)
    ensures HeaderStarts(text) == [] <==> forall k :: 0 <= k < |text| ==> MatchAt(TypeHeader, text, k).None?
  {
    TierThreeNeverNeeded(text);
    MatchesEmpty(TypeHeader, text, 0);
    MatchesEmpty(FullHeader, text, 0);
    forall k | 0 <= k < |text|
      ensures MatchAt(FullHeader, text, k).Some? ==> MatchAt(TypeHeader, text, k).Some?
    {
      HeaderPrefixes(text, k);
    }
  }

  /** At each header start there is a `<n>. Тип` that ends by the end of its piece. */
  lemma StartHasTypeHeader(text: string, i: nat)
    requires i < |HeaderStarts(text)|
    ensures var starts := HeaderStarts(text);
      MatchAt(TypeHeader, text, starts[i]).Some? &&
      MatchAt(TypeHeader, text, starts[i]).value <= PieceEnd(text, starts, i)
  {
    var starts := HeaderStarts(text);
    var s := starts[i];
    var full := Matches(FullHeader, text, 0);
    var alt := Matches(TypeHeader, text, 0);
    var third := Matches(NumberedTypeHeader, text, 0);
    HeaderPrefixes(text, s);
    if full != [] {
      assert s == full[i].start;
      if i + 1 < |starts| {
        assert full[i].stop <= full[i + 1].start;
      }
    } else if alt != [] {
      assert s == alt[i].start;
      if i + 1 < |starts| {
        assert alt[i].stop <= alt[i + 1].start;
      }
    } else {
      assert s == third[i].start;
      if i + 1 < |starts| {
        assert third[i].stop <= third[i + 1].start;
      }
    }
  }

  /** Every piece begins with its header, so the number of a question is the number its
      header writes and the fallback `i + 1` is never taken. */
  lemma IdIsHeaderNumber(text: string, i: nat)
    requires i < |HeaderStarts(text)|
    ensures var starts := HeaderStarts(text);
      var s, slice := starts[i], QuestionSlice(text, starts, i);
      var d := RunEnd(text, s, Digits);
      s < d && AllDigits(text[s..d]) &&
      Search(TypeHeader, slice, 0).Some? &&
      QuestionNumber(slice, i) == DecimalValue(text[s..d])
  {
    var starts := HeaderStarts(text);
    var s, slice := starts[i], QuestionSlice(text, starts, i);
    var d := RunEnd(text, s, Digits);
    SliceStartsWithHeader(text, i);
    MatchHere(TypeHeader, slice, 0);
    DigitRun(text, s);
  }

  /** The piece of question `i` begins with the `<n>. Тип` found at its start. */
  lemma SliceStartsWithHeader(text: string, i: nat)
    requires i < |HeaderStarts(text)|
    ensures var starts := HeaderStarts(text);
      var s, slice := starts[i], QuestionSlice(text, starts, i);
      var d := RunEnd(text, s, Digits);
      s < d && d - s <= |slice| &&
      MatchAt(TypeHeader, slice, 0).Some? &&
      RunEnd(slice, 0, Digits) == d - s && slice[0..d - s] == text[s..d]
  {
    var starts := HeaderStarts(text);
    StartHasTypeHeader(text, i);
    PieceStartsWithHeader(text, starts[i], PieceEnd(text, starts, i));
  }

  /** A stripped piece `text[s..e]` that has a `<n>. Тип` at `s` ending by `e` begins with
      it. */
  lemma PieceStartsWithHeader(text: string, s: nat, e: nat)
    requires s <= e <= |text|
    requires MatchAt(TypeHeader, text, s).Some? && MatchAt(TypeHeader, text, s).value <= e
    ensures var slice, d := Strip(text[s..e]), RunEnd(text, s, Digits);
      s < d && d - s <= |slice| &&
      MatchAt(TypeHeader, slice, 0).Some? &&
      RunEnd(slice, 0, Digits) == d - s && slice[0..d - s] == text[s..d]
  {
    var h := MatchAt(TypeHeader, text, s).value;
    var d := RunEnd(text, s, Digits);
    HeaderShape(text, s);
    var b := SliceKeepsHeader(text, s, e, h);
    var v := text[s..s + b];
    HeaderSurvivesCut(text, s, s + b);
    assert v[0..d - s] == text[s..d];
  }

  /** Cutting the text at `s` and after the `<n>. Тип` found there keeps that header and
      its digits. */
  lemma HeaderSurvivesCut(text: string, s: nat, c: nat)
    requires s <= c <= |text|
    requires MatchAt(TypeHeader, text, s).Some? && MatchAt(TypeHeader, text, s).value <= c
    ensures MatchAt(TypeHeader, text[s..c], 0).Some?
    ensures RunEnd(text, s, Digits) <= c && RunEnd(text[s..c], 0, Digits) == RunEnd(text, s, Digits) - s
  {
    HeaderShape(text, s);
    MatchSeqLocal(TypeHeaderAtoms, text, s, c, s);
    RunEndLocal(text, s, c, s, Digits);
  }

  /** Stripping a piece that starts with a non-space and has a non-space just before `h`
      keeps at least its first `h` characters. */
  lemma SliceKeepsHeader(text: string, s: nat, e: nat, h: nat) returns (b: nat)
    requires s < h <= e <= |text|
    requires !IsSpace(text[s]) && !IsSpace(text[h - 1])
    ensures h - s <= b <= e - s && Strip(text[s..e]) == text[s..s + b]
  {
    var u := text[s..e];
    assert u[0] == text[s];
    b := TrailStart(u, |u|);
    assert u[h - 1 - s] == text[h - 1];
    assert RunEnd(u, 0, Spaces) == 0;
    assert u[0..b] == text[s..s + b];
  }

  /** A `<n>. Тип` at `i` begins with its digits and ends with the last letter of "Тип". */
  lemma HeaderShape(text: string, i: nat)
    requires i <= |text| && MatchAt(TypeHeader, text, i).Some?
    ensures var h, d := MatchAt(TypeHeader, text, i).value, RunEnd(text, i, Digits);
      i < d < h && h - 1 < |text| && text[h - 1] == 'п' && IsDigit(text[i])
  {
    var d := RunEnd(text, i, Digits);
    var a1 := [Lit("."), Some1(Spaces), Lit(TypeWord)];
    var a2 := [Some1(Spaces), Lit(TypeWord)];
    var a3 := [Lit(TypeWord)];
    assert TypeHeaderAtoms[1..] == a1 && a1[1..] == a2 && a2[1..] == a3 && a3[1..] == [];
    assert MatchSeq(TypeHeaderAtoms, text, i) == MatchSeq(a1, text, d);
    assert StartsAt(text, d, ".");
    assert MatchSeq(a1, text, d) == MatchSeq(a2, text, d + 1);
    var w := RunEnd(text, d + 1, Spaces);
    assert MatchSeq(a2, text, d + 1) == MatchSeq(a3, text, w);
    assert StartsAt(text, w, TypeWord);
    assert MatchSeq(a3, text, w) == Some(w + |TypeWord|);
    assert text[w + |TypeWord| - 1] == text[w..w + |TypeWord|][2] == TypeWord[2];
  }

  /** Record `i` is the record of the stripped piece from start `i` to the next (the last
      to the end), numbered by its header. */
  lemma RecordOfPiece(text: string, i: nat, refs: seq<ImageRef>)
    requires i < |HeaderStarts(text)|
    ensures var starts := HeaderStarts(text);
      var s := starts[i];
      var d := RunEnd(text, s, Digits);
      var e := if i + 1 < |starts| then starts[i + 1] else |text|;
      AllDigits(text[s..d]) &&
      Record(text, starts, i, refs) == ExtractQuestion(Strip(text[s..e]), DecimalValue(text[s..d]), refs)
  {
    IdIsHeaderNumber(text, i);
  }
}
