/**
 * The fields of one question (extract_question_data): the header line removed, the
 * answer clause found and removed, the options collected, the mapped image placeholders
 * replaced by image labels, the option texts removed, and the blank lines collapsed.
 */
module Fields {
  import opened Wrappers
  import opened Strings
  import opened Patterns
  import opened Cleanup
  import TextExtraction

  /** An entry of the image mapping: the placeholder `[IMAGE_<index>]` and the path of
      the image saved for it. The mapping is a sequence in its insertion order. */
  datatype ImageRef = ImageRef(index: nat, path: string)

  /** One `(number, text)` pair as findall reports it: the digits and the raw text. */
  datatype OptionGroup = OptionGroup(num: string, text: string)

  /** An option of a question: the number written in the document and its text. */
  datatype OptionEntry = OptionEntry(number: nat, text: string)

  /** The record of one question. */
  datatype Question = Question(
    id: nat,
    text: string,
    hasImage: bool,
    images: seq<string>,
    options: seq<OptionEntry>,
    correctAnswer: Option<string>)

  /** What an image placeholder becomes in the question text. */
  function ImageLabel(path: string): string {
    "[Изображение: " + path + "]"
  }

  function Key(r: ImageRef): string {
    TextExtraction.Placeholder(r.index)
  }

  // --------------------------------------------------------------- the header

  /** The header line removed: the full header through the end of its line if there is
      one, and otherwise the numbered header through the end of its line. */
  function StripHeader(t: string): string {
    var c := SubFirst(FullHeaderLine, t);
    if c == t then SubFirst(NumberedHeaderLine, t) else c
  }

  /** At most one header line goes: the leftmost full header line when there is one,
      otherwise the leftmost numbered header line, otherwise nothing. */
  lemma StripHeaderRemovesOneLine(t: string)
    ensures match Search(FullHeaderLine, t, 0)
      case Some(sp) => StripHeader(t) == t[..sp.start] + t[sp.stop..]
      case None =>
        match Search(NumberedHeaderLine, t, 0)
        case Some(sp) => StripHeader(t) == t[..sp.start] + t[sp.stop..]
        case None => StripHeader(t) == t
  {
    SubFirstChanges(FullHeaderLine, t);
  }

  /** The rest of a line runs through the first newline and holds no other newline. */
  lemma RestOfLineShape(t: string, j: nat)
    requires j <= |t| && MatchSeq([RestOfLine], t, j).Some?
    ensures var e := MatchSeq([RestOfLine], t, j).value;
      j < e && t[e - 1] == '\n' && forall m :: j <= m < e - 1 ==> t[m] != '\n'
  {
    assert [RestOfLine][1..] == [];
  }

  /** A full header line is the full header, its closing ']', then the rest of that line
      through the first newline after it. */
  lemma HeaderLineThroughNewline(t: string, i: nat)
    requires i <= |t|
    ensures MatchAt(FullHeaderLine, t, i).Some? ==>
      MatchAt(FullHeader, t, i).Some? &&
      var h, e := MatchAt(FullHeader, t, i).value, MatchAt(FullHeaderLine, t, i).value;
      h < e && t[h] == ']' && t[e - 1] == '\n' && forall m :: h + 1 <= m < e - 1 ==> t[m] != '\n'
  {
    var tail := [Lit("]"), RestOfLine];
    MatchSeqAppend(FullHeaderAtoms, tail, t, i);
    assert MatchAt(FullHeaderLine, t, i) == MatchSeq(FullHeaderAtoms + tail, t, i);
    var full := MatchSeq(FullHeaderAtoms, t, i);
    if full.Some? {
      var h := full.value;
      if StartsAt(t, h, "]") {
        assert t[h] == t[h..h + 1][0];
        assert tail[1..] == [RestOfLine];
        assert MatchSeq(tail, t, h) == MatchSeq([RestOfLine], t, h + 1);
        if MatchSeq([RestOfLine], t, h + 1).Some? {
          RestOfLineShape(t, h + 1);
        }
      }
    }
  }

  /** A numbered header line is the numbered header, then the rest of that line through
      the first newline after it. */
  lemma NumberedLineThroughNewline(t: string, i: nat)
    requires i <= |t|
    ensures MatchAt(NumberedHeaderLine, t, i).Some? ==>
      MatchAt(NumberedTypeHeader, t, i).Some? &&
      var h, e := MatchAt(NumberedTypeHeader, t, i).value, MatchAt(NumberedHeaderLine, t, i).value;
      h < e && t[e - 1] == '\n' && forall m :: h <= m < e - 1 ==> t[m] != '\n'
  {
    MatchSeqAppend(NumberedTypeHeaderAtoms, [RestOfLine], t, i);
    var header := MatchSeq(NumberedTypeHeaderAtoms, t, i);
    if header.Some? && MatchSeq([RestOfLine], t, header.value).Some? {
      RestOfLineShape(t, header.value);
    }
  }

  // --------------------------------------------------------------- the answer

  /** The stripped value of the first answer clause. */
  function FindAnswer(t: string): (r: Option<string>)
    ensures r.None? <==> Search(AnswerClause, t, 0).None?
    ensures r.Some? ==> forall m :: 0 <= m < |r.value| ==> r.value[m] != '\n'
    ensures r.Some? ==> r.value == [] || (!IsSpace(r.value[0]) && !IsSpace(r.value[|r.value| - 1]))
  {
    match Search(AnswerClause, t, 0)
    case Some(sp) =>
      var m := AnswerParts(t, sp.start).value;
      StripNoNewline(t, m.groupStart, m.groupEnd);
      Some(Strip(t[m.groupStart..m.groupEnd]))
    case None => None
  }

  /** The answer is the stripped value of the leftmost position where an answer clause
      matches. */
  lemma FindAnswerLeftmost(t: string, i: nat)
    requires i <= |t| && AnswerParts(t, i).Some?
    requires forall k :: 0 <= k < i ==> AnswerParts(t, k).None?
    ensures var m := AnswerParts(t, i).value;
      FindAnswer(t) == Some(Strip(t[m.groupStart..m.groupEnd]))
  {
    assert MatchAt(AnswerClause, t, i).Some?;
    var sp := Search(AnswerClause, t, 0).value;
    assert MatchAt(AnswerClause, t, sp.start).Some?;
    assert sp.start == i;
  }

  /** There is no answer exactly when no answer clause matches anywhere. */
  lemma FindAnswerNone(t: string)
    ensures FindAnswer(t).None? <==> forall k :: 0 <= k <= |t| ==> AnswerParts(t, k).None?
  {
    if FindAnswer(t).Some? {
      var sp := Search(AnswerClause, t, 0).value;
      assert MatchAt(AnswerClause, t, sp.start).Some?;
    } else {
      forall k | 0 <= k <= |t|
        ensures AnswerParts(t, k).None?
      {
        assert MatchAt(AnswerClause, t, k).None?;
      }
    }
  }

  /** The text with every answer clause removed, when there is one. */
  function RemoveAnswer(t: string, answer: Option<string>): string {
    if answer.Some? then SubAll(AnswerClause, t, 0, "") else t
  }

  // -------------------------------------------------------------- the options

  /** The findall pair of the option match that starts at `i`. */
  function GroupAt(t: string, i: nat): (g: OptionGroup)
    requires i <= |t| && OptionParts(t, i).Some?
    ensures |g.num| > 0 && AllDigits(g.num)
  {
    var m := OptionParts(t, i).value;
    DigitRun(t, i);
    OptionGroup(t[i..RunEnd(t, i, Digits)], t[m.groupStart..m.groupEnd])
  }

  /** `re.findall` of the option pattern: one pair per option match, left to right. */
  function OptionGroups(t: string): (gs: seq<OptionGroup>)
    ensures |gs| == |Matches(OptionMarker, t, 0)|
    ensures forall k :: 0 <= k < |gs| ==> |gs[k].num| > 0 && AllDigits(gs[k].num)
  {
    var ms := Matches(OptionMarker, t, 0);
    seq(|ms|, k requires 0 <= k < |ms| => GroupAt(t, ms[k].start))
  }

  predicate Numbered(gs: seq<OptionGroup>) {
    forall k :: 0 <= k < |gs| ==> AllDigits(gs[k].num)
  }

  /** An option record: `int` of the digits, the text stripped. */
  function Entry(g: OptionGroup): OptionEntry
    requires AllDigits(g.num)
  {
    OptionEntry(DecimalValue(g.num), Strip(g.text))
  }

  function Entries(gs: seq<OptionGroup>): (es: seq<OptionEntry>)
    requires Numbered(gs)
    ensures |es| == |gs| && forall k :: 0 <= k < |gs| ==> es[k] == Entry(gs[k])
  {
    seq(|gs|, k requires 0 <= k < |gs| => Entry(gs[k]))
  }

  /** Each option removed in turn: its number, ')', whitespace, then its stripped text,
      wherever it occurs. */
  function RemoveOptions(t: string, gs: seq<OptionGroup>): string
    decreases |gs|
  {
    if gs == [] then t
    else RemoveOptions(SubAll(OptionLiteral(gs[0].num, Strip(gs[0].text)), t, 0, ""), gs[1..])
  }

  // --------------------------------------------------------------- the images

  /** The mapping walked in order: a placeholder that occurs in the text as it stands
      has every occurrence replaced by the label of its path, and the path is listed. */
  function ApplyImages(t: string, refs: seq<ImageRef>): (string, seq<string>)
    decreases |refs|
  {
    if refs == [] then (t, [])
    else if Contains(t, Key(refs[0])) then
      var rest := ApplyImages(ReplaceAll(t, Key(refs[0]), ImageLabel(refs[0].path)), refs[1..]);
      (rest.0, [refs[0].path] + rest.1)
    else ApplyImages(t, refs[1..])
  }

  function Paths(refs: seq<ImageRef>): (ps: seq<string>)
    ensures |ps| == |refs| && forall k :: 0 <= k < |refs| ==> ps[k] == refs[k].path
  {
    seq(|refs|, k requires 0 <= k < |refs| => refs[k].path)
  }

  /** `xs` is `ys` with some elements left out, the rest kept in order. */
  predicate SubsequenceOf(xs: seq<string>, ys: seq<string>)
    decreases |ys|
  {
    xs == [] || (ys != [] && ((xs[0] == ys[0] && SubsequenceOf(xs[1..], ys[1..])) || SubsequenceOf(xs, ys[1..])))
  }

  // ------------------------------------------------------------ the question

  /** extract_question_data, step by step. */
  function ExtractQuestion(questionText: string, number: nat, refs: seq<ImageRef>): (q: Question)
    ensures q.id == number
    ensures q.hasImage <==> q.images != []
  {
    var headerless := StripHeader(questionText);
    var answer := FindAnswer(headerless);
    var cleaned := RemoveAnswer(headerless, answer);
    var groups := OptionGroups(cleaned);
    var options := Entries(groups);
    var applied := ApplyImages(cleaned, refs);
    var withoutOptions := if options != [] then RemoveOptions(applied.0, groups) else applied.0;
    Question(number, Tidy(withoutOptions), applied.1 != [], applied.1, options, answer)
  }

  /** extract_question_data as the importer runs it, filling in the record field by
      field. */
  method ExtractQuestionData(questionText: string, questionNumber: nat, refs: seq<ImageRef>)
    returns (q: Question)
    ensures q == ExtractQuestion(questionText, questionNumber, refs)
  {
    var cleaned := SubFirst(FullHeaderLine, questionText);
    if cleaned == questionText {
      cleaned := SubFirst(NumberedHeaderLine, questionText);
    }

    var correctAnswer: Option<string> := None;
    var answerMatch := Search(AnswerClause, cleaned, 0);
    if answerMatch.Some? {
      var m := AnswerParts(cleaned, answerMatch.value.start).value;
      var answer := Strip(cleaned[m.groupStart..m.groupEnd]);
      cleaned := SubAll(AnswerClause, cleaned, 0, "");
      correctAnswer := Some(answer);
    }

    var groups := OptionGroups(cleaned);
    var options: seq<OptionEntry> := [];
    if groups != [] {
      options := CollectOptions(groups);
    }

    var withImages, hasImage, images := SubstituteImages(cleaned, refs);

    var withoutOptions := withImages;
    if options != [] {
      withoutOptions := DeleteOptions(withImages, groups);
    }

    q := Question(questionNumber, Tidy(withoutOptions), hasImage, images, options, correctAnswer);
  }

  /** The option records, one per findall pair, in order. */
  method CollectOptions(groups: seq<OptionGroup>) returns (options: seq<OptionEntry>)
    requires Numbered(groups)
    ensures options == Entries(groups)
  {
    options := [];
    for j := 0 to |groups|
      invariant |options| == j && forall k :: 0 <= k < j ==> options[k] == Entry(groups[k])
    {
      options := options + [Entry(groups[j])];
    }
  }

  /** The image loop: the mapping walked in order, the text rewritten and the paths
      listed as ApplyImages says, the flag raised with the first image. */
  method SubstituteImages(text: string, refs: seq<ImageRef>)
    returns (cleaned: string, hasImage: bool, images: seq<string>)
    ensures (cleaned, images) == ApplyImages(text, refs)
    ensures hasImage <==> images != []
  {
    cleaned, hasImage, images := text, false, [];
    for j := 0 to |refs|
      invariant ApplyImages(cleaned, refs[j..]).0 == ApplyImages(text, refs).0
      invariant images + ApplyImages(cleaned, refs[j..]).1 == ApplyImages(text, refs).1
      invariant hasImage <==> images != []
    {
      var placeholder := TextExtraction.Placeholder(refs[j].index);
      assert refs[j..][0] == refs[j] && refs[j..][1..] == refs[j + 1..];
      if Contains(cleaned, placeholder) {
        cleaned := ReplaceAll(cleaned, placeholder, ImageLabel(refs[j].path));
        hasImage := true;
        images := images + [refs[j].path];
      }
    }
    assert refs[|refs|..] == [];
    assert images + [] == images;
  }

  /** The option removal loop. */
  method DeleteOptions(text: string, groups: seq<OptionGroup>) returns (t: string)
    ensures t == RemoveOptions(text, groups)
  {
    t := text;
    for j := 0 to |groups|
      invariant RemoveOptions(t, groups[j..]) == RemoveOptions(text, groups)
    {
      assert groups[j..][1..] == groups[j + 1..];
      var pattern := OptionLiteral(groups[j].num, Strip(groups[j].text));
      t := SubAll(pattern, t, 0, "");
    }
    assert groups[|groups|..] == [];
  }

  // ------------------------------------------------------------------ lemmas

  /** The kept part of a stripped string is a piece of it. */
  lemma StripIsSlice(s: string)
    ensures forall m :: 0 <= m < |Strip(s)| ==> Strip(s)[m] in s
  {
    var a := RunEnd(s, 0, Spaces);
    if a < |s| {
      var b := TrailStart(s, |s|);
      forall m | 0 <= m < |Strip(s)| ensures Strip(s)[m] in s {
        assert Strip(s)[m] == s[a + m];
      }
    }
  }

  /** The options: one per option match, left to right, each numbered by the integer
      its digits write and carrying its stripped text; none when nothing matches. */
  lemma OptionsFromMatches(t: string)
    ensures var ms, es := Matches(OptionMarker, t, 0), Entries(OptionGroups(t));
      |es| == |ms| &&
      (forall k :: 0 <= k < |ms| ==>
        var d := RunEnd(t, ms[k].start, Digits);
        var m := OptionParts(t, ms[k].start).value;
        AllDigits(t[ms[k].start..d]) &&
        es[k] == OptionEntry(DecimalValue(t[ms[k].start..d]), Strip(t[m.groupStart..m.groupEnd])))
    ensures Entries(OptionGroups(t)) == [] <==> forall k :: 0 <= k < |t| ==> MatchAt(OptionMarker, t, k).None?
  {
    var ms, gs := Matches(OptionMarker, t, 0), OptionGroups(t);
    var es := Entries(gs);
    forall k | 0 <= k < |ms|
      ensures var d, m := RunEnd(t, ms[k].start, Digits), OptionParts(t, ms[k].start).value;
        AllDigits(t[ms[k].start..d]) &&
        es[k] == OptionEntry(DecimalValue(t[ms[k].start..d]), Strip(t[m.groupStart..m.groupEnd]))
    {
      var s := ms[k].start;
      assert gs[k] == GroupAt(t, s);
      DigitRun(t, s);
      assert es[k] == Entry(gs[k]);
    }
    MatchesEmpty(OptionMarker, t, 0);
  }

  /** The listed images are paths of the mapping, in its order, each entry used at most
      once; with an empty mapping the text is left as it is. */
  lemma {:induction false} ApplyImagesPaths(t: string, refs: seq<ImageRef>)
    ensures SubsequenceOf(ApplyImages(t, refs).1, Paths(refs))
    ensures |ApplyImages(t, refs).1| <= |refs|
    ensures refs == [] ==> ApplyImages(t, refs) == (t, [])
    decreases |refs|
  {
    if refs != [] {
      var ps := Paths(refs);
      assert ps[1..] == Paths(refs[1..]);
      if Contains(t, Key(refs[0])) {
        var t' := ReplaceAll(t, Key(refs[0]), ImageLabel(refs[0].path));
        ApplyImagesPaths(t', refs[1..]);
        var xs := [refs[0].path] + ApplyImages(t', refs[1..]).1;
        assert xs[0] == ps[0] && xs[1..] == ApplyImages(t', refs[1..]).1;
      } else {
        ApplyImagesPaths(t, refs[1..]);
        SubsequenceDrop(ApplyImages(t, refs[1..]).1, ps);
      }
    }
  }

  lemma SubsequenceDrop(xs: seq<string>, ys: seq<string>)
    requires ys != [] && SubsequenceOf(xs, ys[1..])
    ensures SubsequenceOf(xs, ys)
  {
  }

  /** No placeholder of the mapping in the text: no image, and the text is unchanged. */
  lemma {:induction false} ApplyImagesNone(t: string, refs: seq<ImageRef>)
    requires forall k :: 0 <= k < |refs| ==> !Contains(t, Key(refs[k]))
    ensures ApplyImages(t, refs) == (t, [])
    decreases |refs|
  {
    if refs != [] {
      ApplyImagesNone(t, refs[1..]);
    }
  }

  /** The first entry whose placeholder occurs has every occurrence replaced, left to
      right, and its path listed first. */
  lemma ApplyImagesFirst(t: string, refs: seq<ImageRef>)
    requires refs != [] && Contains(t, Key(refs[0]))
    ensures var i, k := FindFrom(t, Key(refs[0]), 0).value, Key(refs[0]);
      ApplyImages(t, refs) ==
        (ApplyImages(t[..i] + ImageLabel(refs[0].path) + ReplaceAll(t[i + |k|..], k, ImageLabel(refs[0].path)), refs[1..]).0,
         [refs[0].path] + ApplyImages(t[..i] + ImageLabel(refs[0].path) + ReplaceAll(t[i + |k|..], k, ImageLabel(refs[0].path)), refs[1..]).1)
  {
    ReplaceFirstOccurrence(t, Key(refs[0]), ImageLabel(refs[0].path));
  }

  /** Removing the answer clauses changes the text exactly when an answer was found, and
      never lengthens it. */
  lemma RemoveAnswerChanges(t: string)
    ensures RemoveAnswer(t, FindAnswer(t)) == t <==> FindAnswer(t).None?
    ensures |RemoveAnswer(t, FindAnswer(t))| <= |t|
  {
    SubAllDeletes(AnswerClause, t);
    if FindAnswer(t).Some? {
      var sp := Search(AnswerClause, t, 0).value;
      assert MatchAt(AnswerClause, t, sp.start).Some?;
    }
  }

  /** Option removal never lengthens the text. */
  lemma {:induction false} RemoveOptionsShorter(t: string, gs: seq<OptionGroup>)
    ensures |RemoveOptions(t, gs)| <= |t|
    decreases |gs|
  {
    if gs != [] {
      var t' := SubAll(OptionLiteral(gs[0].num, Strip(gs[0].text)), t, 0, "");
      SubAllDeletes(OptionLiteral(gs[0].num, Strip(gs[0].text)), t);
      RemoveOptionsShorter(t', gs[1..]);
    }
  }

  /** The first option is deleted from the text exactly when its literal matches
      somewhere, and the rest are then removed from what is left. */
  lemma RemoveOptionsFirst(t: string, gs: seq<OptionGroup>)
    requires gs != []
    ensures var lit := OptionLiteral(gs[0].num, Strip(gs[0].text));
      var t' := SubAll(lit, t, 0, "");
      RemoveOptions(t, gs) == RemoveOptions(t', gs[1..]) &&
      (t' == t <==> forall k :: 0 <= k < |t| ==> MatchAt(lit, t, k).None?)
  {
    SubAllDeletes(OptionLiteral(gs[0].num, Strip(gs[0].text)), t);
  }

  /** Options whose texts occur nowhere in the text leave it as it is. */
  lemma {:induction false} RemoveOptionsNoText(t: string, gs: seq<OptionGroup>)
    requires forall k :: 0 <= k < |gs| ==> !Contains(t, Strip(gs[k].text))
    ensures RemoveOptions(t, gs) == t
    decreases |gs|
  {
    if gs != [] {
      RemovalNeedsText(gs[0].num, Strip(gs[0].text), t);
      assert forall k :: 0 <= k < |gs| - 1 ==> gs[1..][k] == gs[k + 1];
      RemoveOptionsNoText(t, gs[1..]);
    }
  }

  /** An option text captured with a placeholder in it is not removed from a text that
      no longer holds that placeholder. */
  lemma OptionWithImageStays(t: string, g: OptionGroup, key: string)
    requires Contains(Strip(g.text), key) && !Contains(t, key)
    ensures SubAll(OptionLiteral(g.num, Strip(g.text)), t, 0, "") == t
  {
    if Contains(t, Strip(g.text)) {
      ContainsTrans(t, Strip(g.text), key);
    }
    RemovalNeedsText(g.num, Strip(g.text), t);
  }

  /** The mapping comes from a dictionary keyed by the drawing number: no number twice. */
  predicate DistinctKeys(refs: seq<ImageRef>) {
    forall j, k :: 0 <= j < k < |refs| ==> refs[j].index != refs[k].index
  }

  /** Replacing one placeholder leaves every occurrence of another in place. */
  lemma KeySurvives(t: string, x: nat, y: nat, lab: string)
    requires x != y && Contains(t, TextExtraction.Placeholder(y))
    ensures Contains(ReplaceAll(t, TextExtraction.Placeholder(x), lab), TextExtraction.Placeholder(y))
  {
    var P, Q := TextExtraction.Placeholder(x), TextExtraction.Placeholder(y);
    var b := FindFrom(t, Q, 0).value;
    forall a | 0 <= a < b + |Q| && b < a + |P|
      ensures !StartsAt(t, a, P)
    {
      TextExtraction.PlaceholdersApart(t, a, b, x, y);
    }
    ReplaceKeeps(t, P, lab, Q, b, 0);
  }

  /** An entry whose placeholder occurs in the text has its path listed, whatever the
      entries before it replaced. */
  lemma {:induction false} ApplyImagesListsPresent(t: string, refs: seq<ImageRef>, k: nat)
    requires DistinctKeys(refs) && k < |refs| && Contains(t, Key(refs[k]))
    ensures refs[k].path in ApplyImages(t, refs).1
    decreases k
  {
    if k > 0 {
      assert refs[1..][k - 1] == refs[k];
      assert refs[0].index != refs[k].index;
      if Contains(t, Key(refs[0])) {
        var t' := ReplaceAll(t, Key(refs[0]), ImageLabel(refs[0].path));
        KeySurvives(t, refs[0].index, refs[k].index, ImageLabel(refs[0].path));
        ApplyImagesListsPresent(t', refs[1..], k - 1);
      } else {
        ApplyImagesListsPresent(t, refs[1..], k - 1);
      }
    }
  }

  /** A placeholder that the mapping does not list stays in the text. */
  lemma {:induction false} ApplyImagesKeepsUnmapped(t: string, refs: seq<ImageRef>, n: nat)
    requires forall j :: 0 <= j < |refs| ==> refs[j].index != n
    requires Contains(t, TextExtraction.Placeholder(n))
    ensures Contains(ApplyImages(t, refs).0, TextExtraction.Placeholder(n))
    decreases |refs|
  {
    if refs != [] {
      assert forall j :: 0 <= j < |refs| - 1 ==> refs[1..][j] == refs[j + 1];
      if Contains(t, Key(refs[0])) {
        var t' := ReplaceAll(t, Key(refs[0]), ImageLabel(refs[0].path));
        KeySurvives(t, refs[0].index, n, ImageLabel(refs[0].path));
        ApplyImagesKeepsUnmapped(t', refs[1..], n);
      } else {
        ApplyImagesKeepsUnmapped(t, refs[1..], n);
      }
    }
  }

  /** The answer: None exactly when no answer clause matches after the header strip;
      otherwise the stripped value of the first clause, without a newline, and only then
      are the clauses removed. */
  lemma AnswerOfQuestion(questionText: string, number: nat, refs: seq<ImageRef>)
    ensures var q, h := ExtractQuestion(questionText, number, refs), StripHeader(questionText);
      q.correctAnswer == FindAnswer(h) &&
      (q.correctAnswer.None? <==> Search(AnswerClause, h, 0).None?) &&
      (Search(AnswerClause, h, 0).Some? ==>
        var i := Search(AnswerClause, h, 0).value.start;
        AnswerParts(h, i).Some? &&
        var m := AnswerParts(h, i).value;
        q.correctAnswer == Some(Strip(h[m.groupStart..m.groupEnd]))) &&
      (q.correctAnswer.Some? ==> forall m :: 0 <= m < |q.correctAnswer.value| ==> q.correctAnswer.value[m] != '\n') &&
      (q.correctAnswer.Some? ==> q.correctAnswer.value == Strip(q.correctAnswer.value))
  {
    var h := StripHeader(questionText);
    var a := FindAnswer(h);
    if a.Some? {
      StripStripped(a.value);
      assert MatchAt(AnswerClause, h, Search(AnswerClause, h, 0).value.start).Some?;
    }
  }

  /** Stripping a stretch of the text without a newline gives a string without one. */
  lemma StripNoNewline(t: string, a: nat, b: nat)
    requires a <= b <= |t|
    requires forall m {:trigger IsNewline(t[m])} :: a <= m < b ==> !IsNewline(t[m])
    ensures forall m :: 0 <= m < |Strip(t[a..b])| ==> Strip(t[a..b])[m] != '\n'
  {
    var g := t[a..b];
    StripIsSlice(g);
    forall c | c in g
      ensures c != '\n'
    {
      var j :| 0 <= j < |g| && g[j] == c;
      assert !IsNewline(t[a + j]);
    }
  }

  /** A string that starts and ends with non-whitespace is its own strip. */
  lemma StripStripped(s: string)
    requires s == [] || (!IsSpace(s[0]) && !IsSpace(s[|s| - 1]))
    ensures Strip(s) == s
  {
    StripExactly(s, 0, |s|);
  }

  /** The options are read before the images are substituted: the mapping does not change
      them. */
  lemma OptionsIgnoreImages(questionText: string, number: nat, refs: seq<ImageRef>)
    ensures ExtractQuestion(questionText, number, refs).options == ExtractQuestion(questionText, number, []).options
    ensures ExtractQuestion(questionText, number, []).images == []
  {
  }

  /** The final text is trimmed, holds no two newlines with only whitespace between them,
      and collapsing it again changes nothing. */
  lemma QuestionTextClean(questionText: string, number: nat, refs: seq<ImageRef>)
    ensures var s := ExtractQuestion(questionText, number, refs).text;
      s == Strip(s) && NoBlankLine(s) && Collapse(s) == s
  {
    var q := ExtractQuestion(questionText, number, refs);
    var headerless := StripHeader(questionText);
    var cleaned := RemoveAnswer(headerless, FindAnswer(headerless));
    var applied := ApplyImages(cleaned, refs);
    var groups := OptionGroups(cleaned);
    var w := if Entries(groups) != [] then RemoveOptions(applied.0, groups) else applied.0;
    assert q.text == Tidy(w);
    TidyIsClean(w);
    StripStripped(q.text);
  }
}
