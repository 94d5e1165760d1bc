# Quiz document importer: a verified model

This project models the question importer of `services/parse_docx.py`, which turns a
quiz written in a word-processing document into question records. It does this in three
stages:

1. **`extract_text_with_images`** flattens the paragraphs and runs of the document into
   one text.
   - A run that holds a drawing becomes `[IMAGE_<k>]`, where `k` counts the drawings of
     the whole document from 1.
   - Every paragraph is followed by a newline.
2. **`process_questions`** finds where questions start.
   - It uses a cascade of three header patterns:
     1. `<n>. Тип <n> № [[<n>]`;
     2. `<n>. Тип`, tried only when the first found nothing;
     3. `<n>. Тип <n>`, tried only when the second found nothing.
   - It cuts the text between consecutive starts and strips each piece.
   - It numbers each piece by the first `<n>. Тип` inside it, and falls back to `i + 1`.
   - It builds one record per piece.
   - Without any start the result is the empty dictionary, modelled as `NoQuestions`.
3. **`extract_question_data`** turns one piece into a record, in this order:
   1. The header line is removed: the full header through the end of its line, or else
      the numbered header through the end of its line.
   2. The first `Ответ:` clause gives the correct answer, stripped, and every clause is
      then removed.
   3. The options `<n>) text` are collected with findall.
   4. Each entry of the image mapping whose placeholder occurs in the text has every
      occurrence replaced by `[Изображение: <path>]`, and its path is listed.
   5. Each option, as collected, is removed from the text.
   6. Blank lines are collapsed and the text is trimmed.

The model is organised as follows:
- **Regular expressions.** Each pattern has a hand-written recogniser (module
  `Patterns`). The recogniser answers where the match that Python's backtracking engine
  reports at a position stops. `re.finditer`/`re.findall` (`Matches`), `re.search`
  (`Search`), `re.sub` (`SubAll`) and `re.sub(..., 1)` (`SubFirst`) are defined over the
  recognisers. These scans read a pattern only through its recogniser's answer at each
  position, so they are written once over a table of those answers (`Scan`,
  `ScanFirst`, `ScanSub`) and applied to each pattern's `Table`.
- **Helpers (module `Strings`).** Python's `str.strip`, `int`/`str` on digit strings, `in`
  and `str.replace` are written out there.
- **Stages.** The stages are the imperative methods:
  - `TextExtraction.ExtractTextWithImages` together with `ParagraphWithImages`;
  - `Segmenter.ProcessQuestions`;
  - `Fields.ExtractQuestionData` with its loops `CollectOptions`, `SubstituteImages` and
    `DeleteOptions`.

  Each method is proved equal to a specification function: `DocumentText`,
  `HeaderStarts`/`Record` or `ExtractQuestion`. The lemmas prove the properties of those
  functions.
- **Document.** The document is a sequence of paragraphs, each a sequence of runs
  (`Drawing` or `Text(s)`).
- **Image mapping.** The mapping built by `extract_images` is an input: a sequence of
  `ImageRef(index, path)` in insertion order. The key of an entry is `[IMAGE_<index>]`.

Behaviour of the code worth knowing:
- **Headers are not anchored.** The header patterns are not anchored to line starts, so
  a header is found anywhere in the text, not only at the beginning of a line.
- **Header removal takes the whole line.** The removal at lines 191 and 195 runs through
  the first newline after the header, so question text written on the header line goes
  with it. In the piece `"3. Тип 1 Сколько будет 2+2?\n1) 3\n2) 4"` the question goes
  with the header line, the two options are then removed, and the text is empty.
- **Image placeholders inside options.** Options are read before the images are
  substituted (lemma `Fields.OptionsIgnoreImages`). An option whose text holds a mapped
  placeholder keeps the raw `[IMAGE_<k>]` in the options list. Its removal then looks for
  that raw text in the substituted text, which no longer holds it, and so leaves the
  option in the question text (lemma `Fields.OptionWithImageStays`).
- **Answer without a period.** `$` is not multi-line and `.` does not cross newlines.
  So an answer clause without a period that is not on the last line does not match
  (lemma `Patterns.AnswerValueEndNone`).

## Model

| member | source | states |
|---|---|---|
| TextExtraction.ExtractTextWithImages | services/parse_docx.py:38-52 | the loop over paragraphs with its document-wide image counter builds exactly `DocumentText(doc, 0)` |
| TextExtraction.ParagraphWithImages | services/parse_docx.py:42-50 | the run loop yields the paragraph's text as numbered from the counter it starts with, and leaves the counter raised by the paragraph's number of drawings |
| TextExtraction.RunInParagraph | services/parse_docx.py:43-50 | run `j` of a paragraph contributes its text unchanged, or `[IMAGE_<k>]` for a drawing, where `k - 1` drawings precede it; the runs before and after it are placed around it |
| TextExtraction.ParagraphInDocument | services/parse_docx.py:41-51 | paragraph `i` appears between the text of the paragraphs before and after it, numbered on from every drawing ahead of it (no gap, no reuse), and is followed by a newline |
| TextExtraction.DocumentTextEnds | services/parse_docx.py:51 | the text of a non-empty document ends with a newline: the last paragraph is followed by one too |
| TextExtraction.PlaceholderInjective | services/parse_docx.py:47 | different image numbers give different placeholder tokens |
| TextExtraction.ParagraphTextAppend | services/parse_docx.py:43-50 | the runs of a second part of a paragraph are numbered on from where the first part's drawings stop |
| TextExtraction.DocumentTextAppend | services/parse_docx.py:41-51 | the paragraphs of a second part of a document are numbered on from where the first part's drawings stop |
| TextExtraction.DocumentTextSplit | services/parse_docx.py:41-51 | the text of a document is the text of its first `i` paragraphs followed by the text of the rest, numbered on from them |
| TextExtraction.DocumentTextCons | services/parse_docx.py:41-51 | the text of a non-empty document is its first paragraph, a newline, and the rest numbered on from the first paragraph's drawings |
| TextExtraction.DrawingCountAppend | services/parse_docx.py:45-46 | the number of drawings of two run sequences joined is the sum of their numbers |
| TextExtraction.DocumentDrawingsAppend | services/parse_docx.py:45-46 | the number of drawings of two paragraph sequences joined is the sum of their numbers |
| TextExtraction.DrawingCount | services/parse_docx.py:45-46 | a paragraph has no more drawings than runs |
| TextExtraction.DocumentDrawings | services/parse_docx.py:45-46 | no contract of its own: the drawings of all paragraphs, counted; `DocumentDrawingsAppend` states it |
| TextExtraction.ParagraphSnoc | services/parse_docx.py:43-50 | one more run appends its text, numbered after the drawings before it, and raises the drawing count by one exactly for a drawing |
| TextExtraction.DocumentSnoc | services/parse_docx.py:41-51 | one more paragraph appends its text, numbered after the drawings before it, and a newline |
| TextExtraction.PlaceholderShape | services/parse_docx.py:47 | a placeholder `[IMAGE_<k>]` opens with its only `[` and closes with its only `]` |
| TextExtraction.PlaceholdersApart | services/parse_docx.py:47 | occurrences of two different placeholders never overlap in a text |
| TextExtraction.RunText | services/parse_docx.py:45-50 | no contract of its own: a drawing becomes the placeholder numbered after the drawings before it, any other run its text; `RunInParagraph` states its place |
| TextExtraction.ParagraphText | services/parse_docx.py:42-50 | no contract of its own: the runs of a paragraph in order, numbered on; `ParagraphWithImages`, `ParagraphTextAppend` and `ParagraphSnoc` state it |
| TextExtraction.DocumentText | services/parse_docx.py:38-52 | no contract of its own: every paragraph followed by a newline, numbered on across the document; `ExtractTextWithImages`, `ParagraphInDocument` and `DocumentTextEnds` state it |
| TextExtraction.Placeholder | services/parse_docx.py:47 | no contract of its own: `[IMAGE_<k>]` with `k` written by `str`; `PlaceholderShape` and `PlaceholderInjective` state it |
| Segmenter.ProcessQuestions | services/parse_docx.py:98-164 | `{}` exactly when the cascade finds no start; otherwise the count equals the number of records equals the number of starts, and record `i` is `Record(text, starts, i, refs)` |
| Segmenter.FindQuestionStarts | services/parse_docx.py:110-129 | the starts are those of the cascade, strictly increasing and inside the text |
| Segmenter.HeaderStarts | services/parse_docx.py:110-129 | the starts of the cascade are strictly increasing positions of the text |
| Segmenter.StartsOf | services/parse_docx.py:116 | the starts of the matches of a pattern are strictly increasing positions of the text |
| Segmenter.HeaderCascade | services/parse_docx.py:110-134 | the full headers are used when there is one; otherwise the `<n>. Тип` headers are used; no question at all exactly when `<n>. Тип` matches nowhere |
| Segmenter.TierThreeNeverNeeded | services/parse_docx.py:120-129 | when `<n>. Тип` matches nowhere, neither does `<n>. Тип <n>`: the third tier never finds what the second missed |
| Segmenter.HeaderPrefixes | services/parse_docx.py:110-127 | a full header at `i` contains an `<n>. Тип <n>` at `i`, which contains an `<n>. Тип` at `i` |
| Segmenter.StartHasTypeHeader | services/parse_docx.py:116-128 | at every start there is an `<n>. Тип` that ends before the next start (or the end of the text) |
| Segmenter.RecordOfPiece | services/parse_docx.py:141-156 | record `i` is extracted from `text[start_i:start_{i+1}].strip()`, the last piece running to the end of the text, and is numbered by the digits at its start |
| Segmenter.IdIsHeaderNumber | services/parse_docx.py:144-149 | every piece begins with its header: the search at line 145 succeeds and the id is the integer written at the start, so the fallback `i + 1` is never taken |
| Segmenter.SliceStartsWithHeader | services/parse_docx.py:142-145 | the stripped piece of question `i` begins with the `<n>. Тип` found at its start, digits included |
| Segmenter.PieceStartsWithHeader | services/parse_docx.py:142 | stripping a piece that holds an `<n>. Тип` at its start keeps that header and its digits at the front |
| Segmenter.HeaderSurvivesCut | services/parse_docx.py:142 | cutting the text at a header start and after the header keeps the header and its digit run |
| Segmenter.SliceKeepsHeader | services/parse_docx.py:142 | stripping a piece that starts with a non-space and has a non-space at `h - 1` keeps at least its first `h - s` characters |
| Segmenter.HeaderShape | services/parse_docx.py:121 | an `<n>. Тип` begins with its digits and ends with the last letter of `Тип` |
| Segmenter.PieceEnd | services/parse_docx.py:137-142 | no contract of its own: a piece ends at the next start, the last at the end of the text; `RecordOfPiece` states it |
| Segmenter.QuestionSlice | services/parse_docx.py:142 | no contract of its own: the stripped piece of question `i`; `SliceStartsWithHeader` and `RecordOfPiece` state it |
| Segmenter.QuestionNumber | services/parse_docx.py:144-149 | no contract of its own: the first `<n>. Тип` of the piece gives the number, else `i + 1`; `IdIsHeaderNumber` shows the fallback is never taken |
| Segmenter.Record | services/parse_docx.py:141-156 | no contract of its own: the record of question `i`; `RecordOfPiece` and `ProcessQuestions` state it |
| Fields.ExtractQuestionData | services/parse_docx.py:167-235 | the record built field by field is exactly `ExtractQuestion(questionText, questionNumber, refs)` |
| Fields.ExtractQuestion | services/parse_docx.py:180-235 | its ensures only read back the record it builds (the id is the given number, and `has_image` holds exactly when `images` is non-empty). The meaning of each field is stated elsewhere: the answer by `AnswerOfQuestion`, the options by `OptionsFromMatches`, the text by `QuestionTextClean`, the independence of options from the mapping by `OptionsIgnoreImages`, and the images and `has_image` by `SubstituteImages` and `ApplyImagesPaths` |
| Fields.StripHeaderRemovesOneLine | services/parse_docx.py:191-195 | at most one header line goes: the leftmost full header line, else the leftmost numbered header line, else nothing |
| Fields.HeaderLineThroughNewline | services/parse_docx.py:191 | a removed full header line is the full header, its second `]`, and the rest of its line through the first newline |
| Fields.NumberedLineThroughNewline | services/parse_docx.py:195 | a removed numbered header line is the numbered header and the rest of its line through the first newline |
| Fields.RestOfLineShape | services/parse_docx.py:191-195 | the lazy `.*?\n` ends at the first newline and crosses no other |
| Fields.StripHeader | services/parse_docx.py:190-195 | no contract of its own: the full header line removed, else the numbered one; `StripHeaderRemovesOneLine` states it |
| Fields.FindAnswer | services/parse_docx.py:198-200 | no answer exactly when no clause matches; otherwise the value holds no newline and is trimmed (`FindAnswerLeftmost` says which value it is) |
| Fields.AnswerOfQuestion | services/parse_docx.py:191-203 | `correct_answer` is the answer found in the header-stripped text: None exactly when no clause matches there; otherwise the stripped capture group of the leftmost clause (which `Search` reports), trimmed and without a newline |
| Fields.FindAnswerLeftmost | services/parse_docx.py:198-200 | the answer is the stripped capture group of the leftmost position where an answer clause matches |
| Fields.FindAnswerNone | services/parse_docx.py:198-199 | there is no answer exactly when the answer clause matches at no position |
| Fields.RemoveAnswer | services/parse_docx.py:199-203 | no contract of its own: every clause removed when an answer was found; `RemoveAnswerChanges` states it |
| Fields.RemoveAnswerChanges | services/parse_docx.py:199-203 | removing the clauses changes the text exactly when an answer was found, and never lengthens it |
| Fields.OptionsFromMatches | services/parse_docx.py:206-215 | one option per option match, in left-to-right order, numbered by the integer its digits write (not renumbered), with its text stripped; no option exactly when nothing matches |
| Fields.OptionGroups | services/parse_docx.py:207 | findall yields one pair per match, each with a non-empty digit group |
| Fields.GroupAt | services/parse_docx.py:207 | the first group of an option match is a non-empty run of digits |
| Fields.Entries | services/parse_docx.py:210-214 | its ensures only read back its definition, one `Entry` per pair. `OptionsFromMatches` states what the entries are: one per finditer match, in order, with the `int` of the match's digits and the stripped text of its group |
| Fields.Entry | services/parse_docx.py:211-214 | no contract of its own: the dictionary `{"number": int(option_num), "text": option_text.strip()}`; `OptionsFromMatches` states it |
| Fields.CollectOptions | services/parse_docx.py:209-215 | the option loop appends one record per pair, in order |
| Fields.SubstituteImages | services/parse_docx.py:218-222 | the image loop gives the text and the path list of `ApplyImages`, and raises `has_image` exactly when a path is listed |
| Fields.ApplyImagesPaths | services/parse_docx.py:218-222 | the listed images are mapping paths in mapping order, each entry used at most once, never more than there are entries; an empty mapping leaves the text as it is |
| Fields.SubsequenceDrop | services/parse_docx.py:219-222 | leaving out a skipped entry keeps the listed paths a subsequence of the mapping paths |
| Fields.ImageLabel | services/parse_docx.py:220 | no contract of its own: the label `[Изображение: <path>]` written for a placeholder |
| Fields.Key | services/parse_docx.py:218-219 | no contract of its own: the key of an entry is its placeholder `[IMAGE_<index>]`; `PlaceholderShape` and `PlaceholdersApart` state what the image lemmas use of it |
| Fields.ApplyImagesFirst | services/parse_docx.py:219-222 | an entry whose placeholder occurs has every occurrence replaced by its label, left to right, and its path is listed before the rest |
| Fields.ApplyImagesNone | services/parse_docx.py:218-222 | with no mapped placeholder in the text no image is listed and the text is unchanged |
| Fields.ApplyImages | services/parse_docx.py:218-222 | no contract of its own: the mapping walked in order; `ApplyImagesPaths`, `ApplyImagesListsPresent`, `ApplyImagesKeepsUnmapped`, `ApplyImagesFirst` and `ApplyImagesNone` state it |
| Fields.KeySurvives | services/parse_docx.py:219-220 | replacing every occurrence of one placeholder leaves an occurrence of a different one in the text |
| Fields.ApplyImagesListsPresent | services/parse_docx.py:218-222 | with a mapping keyed by distinct numbers (a dictionary), an entry whose placeholder occurs in the text has its path listed, whatever the entries before it replaced |
| Fields.ApplyImagesKeepsUnmapped | services/parse_docx.py:218-222 | a placeholder that no entry of the mapping names stays in the text, so an image that was not saved keeps its `[IMAGE_<k>]` |
| Fields.Paths | services/parse_docx.py:218 | its ensures only read back its definition: the paths of the mapping, entry by entry. `ApplyImagesPaths` states what they mean for the images list |
| Fields.DeleteOptions | services/parse_docx.py:225-230 | the removal loop deletes the options one after the other, each from what the previous ones left, ending with the text `RemoveOptions` describes |
| Fields.RemoveOptions | services/parse_docx.py:226-230 | no contract of its own: each option literal deleted in turn; the lemmas below state it |
| Fields.RemoveOptionsShorter | services/parse_docx.py:226-230 | removing the options never lengthens the text |
| Fields.RemoveOptionsFirst | services/parse_docx.py:228-230 | the first option changes the text exactly when its literal matches somewhere, and the rest are removed from what it leaves |
| Fields.RemoveOptionsNoText | services/parse_docx.py:228-230 | options whose stripped texts occur nowhere in the text leave it unchanged |
| Fields.OptionWithImageStays | services/parse_docx.py:207-230 | an option text read with a placeholder in it is not removed from a text that no longer holds that placeholder |
| Fields.OptionsIgnoreImages | services/parse_docx.py:207-222 | the mapping does not change the options, since they are read before the substitution; without a mapping no image is listed |
| Fields.QuestionTextClean | services/parse_docx.py:233 | the final text has no leading or trailing whitespace, no two newlines with only whitespace between them, and collapsing it again changes nothing |
| Fields.StripIsSlice | services/parse_docx.py:200 | what strip keeps consists of characters of the string |
| Fields.StripStripped | services/parse_docx.py:200 | a string that already starts and ends with non-whitespace strips to itself |
| Fields.StripNoNewline | services/parse_docx.py:200 | stripping a stretch of the text without a newline gives a string without one |
| Cleanup.TidyIsClean | services/parse_docx.py:233 | collapse-then-strip gives a trimmed text without blank lines, which is its own collapse |
| Cleanup.CollapseLeavesNoBlankLine | services/parse_docx.py:233 | after `re.sub(r'\n\s*\n', '\n', t)` no two newlines have only whitespace between them |
| Cleanup.CollapseKeeps | services/parse_docx.py:233 | a text without blank lines is its own collapse |
| Cleanup.StripKeepsNoBlankLine | services/parse_docx.py:233 | stripping keeps a text free of blank lines |
| Cleanup.NoBlankLineMeans | services/parse_docx.py:233 | in the collapsed text, two newlines always have a non-whitespace character between them |
| Cleanup.BlankLineAt | services/parse_docx.py:233 | `\n\s*\n` matches at `i` exactly when `t[i]` is a newline followed by whitespace that reaches a newline |
| Patterns.SpaceThenNewline | services/parse_docx.py:233 | no contract of its own: `\s*\n` from a position; `Cleanup.SpaceThenNewlineRun` states it as a whitespace run that holds a newline |
| Cleanup.SpaceThenNewlineRun | services/parse_docx.py:233 | `\s*\n` holds at `k` exactly when the whitespace run from `k` holds a newline |
| Cleanup.CollapseFrom | services/parse_docx.py:233 | the collapse leaves no blank line, from any position on |
| Cleanup.NoNewlineAhead | services/parse_docx.py:233 | after whitespace without a newline, the collapsed rest does not begin with `\s*\n` |
| Cleanup.NoBlankLineCons | services/parse_docx.py:233 | one character in front of a text without blank lines leaves none, unless it is a newline followed by `\s*\n` |
| Cleanup.NewlineInRange | services/parse_docx.py:233 | a newline inside a range makes the search for the last newline there succeed |
| Cleanup.LastNewlineSkipFirst | services/parse_docx.py:233 | a range that starts with a non-newline has the same last newline without that character |
| Cleanup.SpaceThenNewlineShift | services/parse_docx.py:233 | `\s*\n` read after a prefix is `\s*\n` read in the rest |
| Cleanup.SpaceThenNewlineSlice | services/parse_docx.py:233 | `\s*\n` in a slice holds at the same place in the whole text |
| Cleanup.SpacesReachNewline | services/parse_docx.py:233 | whitespace up to a newline is `\s*\n` |
| Cleanup.Collapse | services/parse_docx.py:233 | no contract of its own: `re.sub(r'\n\s*\n', '\n', t)`; `CollapseLeavesNoBlankLine` and `CollapseKeeps` state it |
| Cleanup.Tidy | services/parse_docx.py:233 | no contract of its own: collapse, then strip; `TidyIsClean` states it |
| Patterns.Sound | services/parse_docx.py:116 | no contract of its own: every match in a table of per-position answers is non-empty and stops inside the text; `Table` states it of every pattern |
| Patterns.Table | services/parse_docx.py:116 | the answer of a pattern's recogniser at every position of the text, each match in it non-empty and inside the text |
| Patterns.Scan | services/parse_docx.py:116 | finditer over a table: every span is a match of the table at its start, inside the text from `pos`, and the spans are in order without overlap |
| Patterns.ScanFirst | services/parse_docx.py:145 | search over a table: the reported span is a match at its start and nothing matches before it; None only when nothing matches from `pos` on |
| Patterns.ScanSub | services/parse_docx.py:202 | no contract of its own: sub over a table, each match replaced and every other character kept; `ScanSplices` and `ScanBalanced` state it |
| Patterns.ScanHere | services/parse_docx.py:116 | a match at `pos` is the first span of the scan and of search, sub writes the replacement for it, and each goes on from where it stops |
| Patterns.ScanSkip | services/parse_docx.py:116 | without a match at `pos`, the scan and search go on at `pos + 1`, and sub keeps the character there |
| Patterns.ScanEmpty | services/parse_docx.py:120 | the scan finds nothing exactly when the table has no match from `pos` on |
| Patterns.ScanFirstIsFirst | services/parse_docx.py:145 | search reports the first span of the scan |
| Patterns.ScanComplete | services/parse_docx.py:116 | the scan misses no match: a position where the table has a match lies inside a reported span |
| Patterns.ScanTail | services/parse_docx.py:202 | after its first span, the scan goes on from that span's stop |
| Patterns.ScanSplices | services/parse_docx.py:202 | from every position on, the scan's spans are in order and sub is their splice |
| Patterns.ScanBalanced | services/parse_docx.py:202 | from every position on, sub loses what the spans cover and writes one replacement per span |
| Patterns.ScanSubNoMatch | services/parse_docx.py:233 | sub keeps a stretch in which the table has no match as it is |
| Patterns.Matches | services/parse_docx.py:116 | finditer: every match lies in the text from `pos`, is a match of the pattern at its start, and the matches do not overlap and are in order |
| Patterns.MatchesComplete | services/parse_docx.py:116 | finditer misses no match: every position where the pattern matches lies inside a reported span |
| Patterns.InSpan | services/parse_docx.py:116 | no contract of its own: a position inside one of the spans; `MatchesComplete` states it of finditer |
| Patterns.InSpanCons | services/parse_docx.py:116 | a position inside the first span, or inside one of the rest, is inside one of all the spans |
| Patterns.Search | services/parse_docx.py:145 | search: the reported span is a match at its start, and nothing matches before it; None only when nothing matches at all |
| Patterns.SearchIsFirstMatch | services/parse_docx.py:145 | search reports the first match finditer reports |
| Patterns.MatchesEmpty | services/parse_docx.py:120 | finditer finds nothing exactly when the pattern matches at no position |
| Patterns.MatchHere | services/parse_docx.py:116 | a match at `pos` is the first of finditer and the one search reports |
| Patterns.SubFirstChanges | services/parse_docx.py:191-194 | removing the first match changes the text exactly when there is a match: the test at line 194 detects that the strict header matched nowhere |
| Patterns.SubAllNoMatch | services/parse_docx.py:233 | sub leaves a text in which nothing matches as it is |
| Patterns.SubAllDeletes | services/parse_docx.py:202 | deleting every match changes the text exactly when the pattern matches somewhere, and never lengthens it |
| Patterns.CoveredPositive | services/parse_docx.py:202 | the reported spans cover at least one character each |
| Patterns.OptionLiteralHoldsText | services/parse_docx.py:229 | the option literal `<n>\)\s+<text>` matches only where its text occurs |
| Patterns.RemovalNeedsText | services/parse_docx.py:229-230 | an option literal whose text occurs nowhere removes nothing |
| Patterns.SubAll | services/parse_docx.py:202 | no contract of its own: every finditer match replaced; `SubAllSplices`, `SubAllFirstMatch`, `SubAllLength`, `SubAllDeletes` and `SubAllNoMatch` state it |
| Patterns.SubFirst | services/parse_docx.py:191-195 | no contract of its own: the leftmost match removed; `SubFirstChanges` states it |
| Patterns.SubAllLength | services/parse_docx.py:202 | the length balance of sub: the text loses as many characters as the matches cover, and gains one replacement per match |
| Patterns.InOrder | services/parse_docx.py:202 | no contract of its own: spans lying one after the other inside the text; `SubAllSplices` states it of finditer |
| Patterns.Spliced | services/parse_docx.py:202 | no contract of its own: the text with each span cut out and the replacement written in its place, the stretches between spans kept; `SubAllSplices` states it of sub |
| Patterns.SplicedKeeps | services/parse_docx.py:202 | a character before the first span is kept by the splice, in front of the rest |
| Patterns.SplicedCut | services/parse_docx.py:202 | a first span is cut out of the splice and replaced, the splice going on from its stop |
| Patterns.Splices | services/parse_docx.py:202 | no contract of its own: from a position on, the scan's spans are in order and sub is their splice; `ScanSplices` states it |
| Patterns.Balanced | services/parse_docx.py:202 | no contract of its own: from a position on, sub loses what the scan covers and writes one replacement per span; `ScanBalanced` states it |
| Patterns.SubAllSplices | services/parse_docx.py:202 | finditer's spans lie one after the other inside the text, and sub cuts out exactly those spans, writes the replacement for each, and keeps every other character in order |
| Patterns.SubAllFirstMatch | services/parse_docx.py:202 | sub keeps the text up to the first match, writes the replacement, and goes on from where the match stops |
| Patterns.MatchesTail | services/parse_docx.py:202 | after its first span, finditer goes on from that span's stop |
| Patterns.SubAllHere | services/parse_docx.py:202 | a match at `pos` is the first span of finditer and is replaced, both going on where it stops |
| Patterns.SubAllSkip | services/parse_docx.py:202 | without a match at `pos`, finditer and search go on at `pos + 1` and sub keeps the character there |
| Patterns.GainedCount | services/parse_docx.py:202 | one replacement per match |
| Patterns.GainStep | services/parse_docx.py:202 | a match adds its length to what is removed and one replacement to what is written |
| Patterns.MatchAt | services/parse_docx.py:110-233 | every match of every pattern of the importer is non-empty and inside the text |
| Patterns.MatchSeq | services/parse_docx.py:110 | a sequence of elements matched in turn stops no earlier than it starts |
| Patterns.MatchAtom | services/parse_docx.py:110 | a run, a non-empty literal or the rest of a line consume at least one character |
| Patterns.MatchSeqAppend | services/parse_docx.py:110-127 | matching joined element sequences is matching the first, then the second where it stopped |
| Patterns.MatchSeqLocal | services/parse_docx.py:142-145 | a sequence matched inside `t[..hi]` matches the same way in the slice `t[lo..hi]` |
| Patterns.MatchAtomLocal | services/parse_docx.py:142-145 | an element matched inside `t[..hi]` matches the same way in the slice `t[lo..hi]` |
| Patterns.MatchSeqUnfold | services/parse_docx.py:110 | a sequence whose first element matches continues with the rest from there |
| Patterns.MatchSeqShift | services/parse_docx.py:142-145 | a sequence matches shifted in another text when its first element and its rest do |
| Patterns.Run1 | services/parse_docx.py:110 | its ensures only read back its definition in terms of `RunEnd`; `Run1Means` states its meaning |
| Patterns.Run1Means | services/parse_docx.py:110 | `\d+` / `\s+` match at `i` exactly when the character at `i` is of the class, and then take the longest run: all characters up to the stop are of the class, the one at the stop is not |
| Patterns.Literal | services/parse_docx.py:110 | its ensures only read back its definition in terms of `StartsAt`; `LiteralMeans` states its meaning |
| Patterns.LiteralMeans | services/parse_docx.py:110 | a literal matches at `i` exactly when the characters from `i` on spell it, and the match consumes exactly those characters |
| Patterns.ThroughNewline | services/parse_docx.py:191 | `.*?\n` stops right after the first newline and fails only when there is none |
| Patterns.AnswerParts | services/parse_docx.py:198 | the answer clause is `Ответ:`, whitespace, then a value that starts after at least one whitespace character, holds no newline and ends at a `.` (consumed) or at `$` |
| Patterns.AnswerFrom | services/parse_docx.py:198 | the whitespace gives back characters one at a time; a value found begins in `(s, p]`, is newline-free and ends at `.` (consumed) or at `$` |
| Patterns.AnswerValueEnd | services/parse_docx.py:198 | the lazy value ends at a `.` (consumed) or where `$` holds, and takes no newline before it |
| Patterns.AtEnd | services/parse_docx.py:198 | no contract of its own: `$` without MULTILINE holds at the end of the text, or just before a newline that ends it; `AnswerValueEnd` and `OptionTextEnd` use it |
| Patterns.ValueStops | services/parse_docx.py:198 | no contract of its own: where the group after the value can end it: at a `.` or where `$` holds; `AnswerValueEndFirst` states that the value stops at the first such place |
| Patterns.NewlineFirst | services/parse_docx.py:198 | no contract of its own: a newline comes before any place the value could stop; `AnswerValueEndNone` states that the value fails exactly then |
| Patterns.ValueAt | services/parse_docx.py:198 | no contract of its own: `(.+?)` can begin at `p`, with one non-newline character and then a lazy value that stops; `AnswerFromChoice` states that the value begins at the largest such place |
| Patterns.AnswerValueEndFirst | services/parse_docx.py:198 | the lazy value ends at the first position holding a `.` or satisfying `$` |
| Patterns.AnswerFromChoice | services/parse_docx.py:198 | the value begins at the largest position from `p` down to `s + 1` that can begin one, and ends where its lazy scan from there stops; none exactly when no position in that range can begin a value |
| Patterns.AnswerValueEndNone | services/parse_docx.py:198 | the value fails exactly when a newline comes before any position where it could stop |
| Patterns.NewlineFirstStep | services/parse_docx.py:198 | a character that is neither a newline nor a stopping place does not change whether a newline comes first |
| Patterns.AnswerPartsChoice | services/parse_docx.py:198 | the value begins at the largest position of the whitespace run (after its first character) that can begin one, and ends where its lazy scan stops; no clause exactly when no such position exists |
| Patterns.OptionParts | services/parse_docx.py:207 | an option is digits, `)`, whitespace, then a text that ends at the first position where the lookahead holds |
| Patterns.OptionTextEnd | services/parse_docx.py:207 | the lazy option text ends at the first position where the next option, the end, a blank line or the answer is ahead |
| Patterns.NextOptionAhead | services/parse_docx.py:207 | no contract of its own: the lookahead branch `\n\d+\)`; `OptionTextEnd` states where it stops the text |
| Patterns.BlankLineAhead | services/parse_docx.py:207 | no contract of its own: the lookahead branch `\n\s*\n`; `OptionTextEnd` states where it stops the text |
| Patterns.AnswerAhead | services/parse_docx.py:207 | no contract of its own: the lookahead branch `\n*Ответ:`, with newlines taken whole; `OptionTextEnd` states where it stops the text |
| Patterns.OptionTextStops | services/parse_docx.py:207 | no contract of its own: the whole lookahead, any of its four branches, `$` among them; `OptionTextEnd` states that the text stops at the first place it holds |
| Patterns.OptionLiteralAtoms | services/parse_docx.py:229 | no contract of its own: the pattern built from the option number, `\)`, `\s+` and the escaped stripped text; `OptionLiteralHoldsText` and `RemovalNeedsText` state what it matches |
| Patterns.LastNewline | services/parse_docx.py:233 | the last newline of a range, or None when the range has none |
| Patterns.BlankLineEnd | services/parse_docx.py:233 | a blank-line match is non-empty and inside the text |
| Patterns.Starts | services/parse_docx.py:116 | its ensures only read back its definition: the start of every span. `Segmenter.StartsOf` (strictly ascending starts inside the text), `Segmenter.HeaderCascade` and `Patterns.MatchesComplete` state what the starts mean |
| Strings.Strip | services/parse_docx.py:142 | strip gives a string no longer than its input that starts and ends with non-whitespace (or is empty) |
| Strings.StripExactly | services/parse_docx.py:142 | strip removes exactly the leading and the trailing whitespace |
| Strings.IsSpace | services/parse_docx.py:142 | no contract of its own: the characters `\s` matches and `str.strip` removes, those `str.isspace` accepts; `StripExactly` and `Run1Means` state what it means for strip and for `\s+` |
| Strings.IsDigit | services/parse_docx.py:110 | no contract of its own: the characters `\d` matches, restricted to ASCII digits; `DigitRun` and `DecimalRoundTrip` state it |
| Strings.InClass | services/parse_docx.py:110 | no contract of its own: `\s`, `\d`, the newline, and `.` without DOTALL (anything but a newline); `Strings.RunEnd` and `Patterns.Run1Means` state runs of them |
| Strings.StartsAt | services/parse_docx.py:110 | no contract of its own: a literal in the text at a position; `Patterns.LiteralMeans` states it character by character |
| Strings.RunEnd | services/parse_docx.py:110 | the end of the longest run of a character class |
| Strings.RunIn | services/parse_docx.py:110 | every character of a run is of its class |
| Strings.RunEndLocal | services/parse_docx.py:142 | a run that ends inside a slice is the same run in the slice |
| Strings.StartsAtLocal | services/parse_docx.py:142 | a literal inside a slice is found at the same place in the whole text |
| Strings.TrailStart | services/parse_docx.py:142 | the trailing whitespace of a string starts right after its last non-whitespace character |
| Strings.DigitRun | services/parse_docx.py:147 | the run of digits at a position is all digits |
| Strings.Decimal | services/parse_docx.py:47 | `str()` of a number is a non-empty digit string with no leading zero |
| Strings.DecimalRoundTrip | services/parse_docx.py:47 | `int(str(n)) == n` |
| Strings.DigitValue | services/parse_docx.py:147 | a digit's value is below ten |
| Strings.DigitChar | services/parse_docx.py:47 | the digit written for a value below ten has that value |
| Strings.FindFrom | services/parse_docx.py:219 | the first occurrence of a substring at or after a position, or None when there is none |
| Strings.Contains | services/parse_docx.py:219 | no contract of its own: Python's `in` on strings, an occurrence anywhere; `OccursContains`, `ApplyImagesListsPresent` and `RemovalNeedsText` state it |
| Strings.ReplaceFirstOccurrence | services/parse_docx.py:220 | `replace` cuts at the first occurrence, writes the replacement and carries on after the occurrence |
| Strings.ReplaceFromSkips | services/parse_docx.py:220 | a stretch without an occurrence is copied unchanged |
| Strings.ReplaceFromSuffix | services/parse_docx.py:220 | replacing from a position depends only on the text from some earlier point on |
| Strings.ReplaceFrom | services/parse_docx.py:220 | no contract of its own: `str.replace` from a position; `ReplaceFromSkips`, `ReplaceKeeps` and `ReplaceFirstOccurrence` state it |
| Strings.ReplaceAll | services/parse_docx.py:220 | no contract of its own: `str.replace` from the start; the same lemmas state it |
| Strings.ReplaceKeeps | services/parse_docx.py:220 | an occurrence of a string that no occurrence of the replaced key overlaps survives the replacement |
| Strings.OccursContains | services/parse_docx.py:219 | a string that starts at some position is contained in the text |
| Strings.ContainsShift | services/parse_docx.py:219 | what a text contains, the text with anything in front still contains |
| Strings.ContainsTrans | services/parse_docx.py:219 | containment is transitive |
| Strings.DecimalValue | services/parse_docx.py:147 | no contract of its own: `int()` of an ASCII digit string; `DecimalRoundTrip` states it |
| Segmenter.PrefixSnoc | services/parse_docx.py:156 | appending the next record extends the list of records built so far by exactly that record |

## Left out

- `extract_images` (services/parse_docx.py:55-95) writes PNG files into a directory and
  walks the document's relationships. This is file I/O and library traversal.
  - Its result is an input of the model: a sequence of `ImageRef(index, path)` in
    insertion order.
  - Its counter goes up (line 80) before the write (line 86). So an image that fails to
    save leaves a gap in the numbering, and its placeholder stays in the text. Lemma
    `Fields.ApplyImagesKeepsUnmapped` covers that case: a placeholder no entry names
    stays in the text.
- Loading the document, and the `PackageNotFoundError` path that returns `{}` in
  `extract_test_data` (services/parse_docx.py:21-25): this is the python-docx library.
  - The document is given as paragraphs of runs.
  - The test of a run for `.//w:drawing` is the `Drawing` constructor.
- `save_to_json` and `parse_file` (services/parse_docx.py:238-263): JSON file output.
- The `print` calls (lines 113, 117, 123, 129, 133, 152): logging only.
- The FastAPI routers, the SQLAlchemy services, models and database setup, and `main.py`:
  persistence and transport with no logic of their own.
- General Python `re` semantics: there is no regex engine.
  - Each pattern has its own recogniser. Their agreement with Python's engine is argued
    in the comments of `Patterns`, not proved.
  - `\s` and `str.strip` are the characters `str.isspace` accepts, written out in
    `Strings.IsSpace`: the ASCII controls U+0009 to U+000D and U+001C to U+001F, space,
    and the Unicode spaces and separators.
  - `\d` is the ASCII digits. Python also matches other Unicode decimal digits with `\d`
    and `int()` reads them; the model does not.
- The result dictionaries are records: `ParseResult` and `Question`. Their JSON key names
  are not modelled.
- Fields.RemoveAnswer: "every answer clause is removed" holds only as the semantics of
  `re.sub`. Removing clauses can join the text around them into a new clause, so no
  lemma says that none is left afterwards.
- Fields.ApplyImagesFirst: "every occurrence is replaced" holds only as the semantics of
  `str.replace` (left to right, without overlap). An image path may itself contain a
  placeholder, so no lemma says that no placeholder is left.
- Strings.DecimalValue: it has no length limit. CPython 3.11 and later raise `ValueError`
  from `int()` on a digit string longer than 4300 digits (lines 147 and 212), so an
  absurdly long header or option number would abort the import. The model never fails
  there.
- Fields.ApplyImagesListsPresent: it speaks of mappings with distinct drawing numbers.
  The mapping is a dictionary keyed by its placeholders, so that always holds for it.
