/**
 * The text of a document with image placeholders (extract_text_with_images): the runs
 * of every paragraph in reading order, a drawing run replaced by `[IMAGE_<k>]` where `k`
 * counts the drawings of the whole document from 1, and a newline after every paragraph.
 */
module TextExtraction {
  import opened Strings

  /** A run of a paragraph: one that holds a drawing, or one with its text. */
  datatype Run = Drawing | Text(text: string)

  type Paragraph = seq<Run>

  type Document = seq<Paragraph>

  /** The token that stands for the `k`-th image: `[IMAGE_<k>]`. */
  function Placeholder(k: nat): string {
    "[IMAGE_" + Decimal(k) + "]"
  }

  /** A placeholder opens with its only `[` and closes with its only `]`. */
  lemma PlaceholderShape(k: nat)
    ensures var p := Placeholder(k);
      |p| > 8 && p[0] == '[' && p[|p| - 1] == ']' &&
      (forall m :: 0 < m < |p| ==> p[m] != '[') &&
      (forall m :: 0 <= m < |p| - 1 ==> p[m] != ']')
  {
    var d, p := Decimal(k), Placeholder(k);
    assert forall m :: 7 <= m < |p| - 1 ==> p[m] == d[m - 7];
  }

  /** Different image numbers give different placeholders. */
  lemma PlaceholderInjective(a: nat, b: nat)
    requires Placeholder(a) == Placeholder(b)
    ensures a == b
  {
    var pa, pb := Placeholder(a), Placeholder(b);
    assert pa[7..|pa| - 1] == Decimal(a);
    assert pb[7..|pb| - 1] == Decimal(b);
    DecimalRoundTrip(a);
    DecimalRoundTrip(b);
  }

  /** Two different placeholders never overlap in a text: `[` opens a placeholder and
      occurs nowhere else in it, `]` closes it and occurs nowhere else in it. */
  lemma PlaceholdersApart(s: string, a: nat, b: nat, x: nat, y: nat)
    requires x != y && StartsAt(s, b, Placeholder(y))
    requires a < b + |Placeholder(y)| && b < a + |Placeholder(x)|
    ensures !StartsAt(s, a, Placeholder(x))
  {
    var P, Q := Placeholder(x), Placeholder(y);
    PlaceholderShape(x);
    PlaceholderShape(y);
    if a + |P| <= |s| {
      var u := s[a..a + |P|];
      assert s[b..b + |Q|] == Q;
      if a < b {
        assert u[b - a] == s[b] == Q[0] == '[' != P[b - a];
      } else if b < a {
        assert u[0] == s[a] == Q[a - b] != '[' == P[0];
      } else if |P| < |Q| {
        assert u[|P| - 1] == Q[|P| - 1] != ']' == P[|P| - 1];
      } else if |Q| < |P| {
        assert u[|Q| - 1] == Q[|Q| - 1] == ']' != P[|Q| - 1];
      } else {
        if P == Q {
          PlaceholderInjective(x, y);
        }
        assert u == Q;
      }
    }
  }

  function Advance(r: Run): nat {
    if r.Drawing? then 1 else 0
  }

  /** The number of drawing runs of a paragraph. */
  function DrawingCount(p: Paragraph): (n: nat)
    ensures n <= |p|
  {
    if p == [] then 0 else Advance(p[0]) + DrawingCount(p[1..])
  }

  /** The number of drawing runs of a document. */
  function DocumentDrawings(doc: Document): nat {
    if doc == [] then 0 else DrawingCount(doc[0]) + DocumentDrawings(doc[1..])
  }

  /** What run `r` contributes when `before` drawings precede it in the document. */
  function RunText(r: Run, before: nat): string {
    match r
    case Drawing => Placeholder(before + 1)
    case Text(s) => s
  }

  /** The text of a paragraph whose first run has `before` drawings ahead of it. */
  function ParagraphText(p: Paragraph, before: nat): string
    decreases |p|
  {
    if p == [] then "" else RunText(p[0], before) + ParagraphText(p[1..], before + Advance(p[0]))
  }

  /** The text of the paragraphs `doc`, the first having `before` drawings ahead of it;
      every paragraph is followed by a newline. */
  function DocumentText(doc: Document, before: nat): string
    decreases |doc|
  {
    if doc == [] then ""
    else ParagraphText(doc[0], before) + "\n" + DocumentText(doc[1..], before + DrawingCount(doc[0]))
  }

  /** extract_text_with_images, with its document-wide image counter. */
  method ExtractTextWithImages(doc: Document) returns (fullText: string)
    ensures fullText == DocumentText(doc, 0)
  {
    fullText := "";
    var imageIndex := 0;
    for i := 0 to |doc|
      invariant fullText == DocumentText(doc[..i], 0)
      invariant imageIndex == DocumentDrawings(doc[..i])
    {
      var pText;
      pText, imageIndex := ParagraphWithImages(doc[i], imageIndex);
      DocumentSnoc(doc, i);
      fullText := fullText + pText + "\n";
    }
    assert doc[..|doc|] == doc;
  }

  /** The inner loop of extract_text_with_images: the runs of one paragraph, the counter
      going up by one at each drawing. */
  method ParagraphWithImages(paragraph: Paragraph, first: nat) returns (pText: string, imageIndex: nat)
    ensures pText == ParagraphText(paragraph, first)
    ensures imageIndex == first + DrawingCount(paragraph)
  {
    pText := "";
    imageIndex := first;
    for j := 0 to |paragraph|
      invariant pText == ParagraphText(paragraph[..j], first)
      invariant imageIndex == first + DrawingCount(paragraph[..j])
    {
      var run := paragraph[j];
      ParagraphSnoc(paragraph, j, first);
      if run.Drawing? {
        imageIndex := imageIndex + 1;
        var placeholder := Placeholder(imageIndex);
        pText := pText + placeholder;
      } else {
        pText := pText + run.text;
      }
    }
    assert paragraph[..|paragraph|] == paragraph;
  }

  lemma ParagraphSnoc(p: Paragraph, j: nat, before: nat)
    requires j < |p|
    ensures ParagraphText(p[..j + 1], before)
         == ParagraphText(p[..j], before) + RunText(p[j], before + DrawingCount(p[..j]))
    ensures DrawingCount(p[..j + 1]) == DrawingCount(p[..j]) + Advance(p[j])
  {
    assert p[..j + 1] == p[..j] + [p[j]];
    ParagraphTextAppend(p[..j], [p[j]], before);
    DrawingCountAppend(p[..j], [p[j]]);
    assert [p[j]][1..] == [];
  }

  lemma DocumentSnoc(doc: Document, i: nat)
    requires i < |doc|
    ensures DocumentText(doc[..i + 1], 0)
         == DocumentText(doc[..i], 0) + ParagraphText(doc[i], DocumentDrawings(doc[..i])) + "\n"
    ensures DocumentDrawings(doc[..i + 1]) == DocumentDrawings(doc[..i]) + DrawingCount(doc[i])
  {
    assert doc[..i + 1] == doc[..i] + [doc[i]];
    DocumentTextAppend(doc[..i], [doc[i]], 0);
    DocumentDrawingsAppend(doc[..i], [doc[i]]);
    assert [doc[i]][1..] == [];
  }

  // -------------------------------------------------------------------- lemmas

  lemma {:induction false} DrawingCountAppend(p: Paragraph, q: Paragraph)
    ensures DrawingCount(p + q) == DrawingCount(p) + DrawingCount(q)
    decreases |p|
  {
    if p != [] {
      assert (p + q)[1..] == p[1..] + q;
      DrawingCountAppend(p[1..], q);
    } else {
      assert p + q == q;
    }
  }

  /** The runs of `q` are numbered on from where the runs of `p` stop: no gap, no reuse. */
  lemma {:induction false} ParagraphTextAppend(p: Paragraph, q: Paragraph, before: nat)
    ensures ParagraphText(p + q, before) == ParagraphText(p, before) + ParagraphText(q, before + DrawingCount(p))
    decreases |p|
  {
    if p != [] {
      var b1 := before + Advance(p[0]);
      assert (p + q)[0] == p[0] && (p + q)[1..] == p[1..] + q;
      var a, b, c := RunText(p[0], before), ParagraphText(p[1..], b1), ParagraphText(q, b1 + DrawingCount(p[1..]));
      assert ParagraphText(p + q, before) == a + ParagraphText(p[1..] + q, b1);
      ParagraphTextAppend(p[1..], q, b1);
      assert a + (b + c) == (a + b) + c;
    } else {
      assert p + q == q;
    }
  }

  lemma {:induction false} DocumentDrawingsAppend(d: Document, e: Document)
    ensures DocumentDrawings(d + e) == DocumentDrawings(d) + DocumentDrawings(e)
    decreases |d|
  {
    if d != [] {
      assert (d + e)[1..] == d[1..] + e;
      DocumentDrawingsAppend(d[1..], e);
    } else {
      assert d + e == e;
    }
  }

  /** The paragraphs of `e` are numbered on from where those of `d` stop. */
  lemma {:induction false} DocumentTextAppend(d: Document, e: Document, before: nat)
    ensures DocumentText(d + e, before) == DocumentText(d, before) + DocumentText(e, before + DocumentDrawings(d))
    decreases |d|
  {
    if d != [] {
      var b1 := before + DrawingCount(d[0]);
      assert (d + e)[0] == d[0] && (d + e)[1..] == d[1..] + e;
      var a, b, c := ParagraphText(d[0], before) + "\n", DocumentText(d[1..], b1), DocumentText(e, b1 + DocumentDrawings(d[1..]));
      assert DocumentText(d + e, before) == a + DocumentText(d[1..] + e, b1);
      DocumentTextAppend(d[1..], e, b1);
      assert a + (b + c) == (a + b) + c;
    } else {
      assert d + e == e;
    }
  }

  /** The text of a non-empty document: its first paragraph, a newline, then the rest. */
  lemma DocumentTextCons(doc: Document, before: nat)
    requires doc != []
    ensures DocumentText(doc, before)
         == ParagraphText(doc[0], before) + "\n" + DocumentText(doc[1..], before + DrawingCount(doc[0]))
  {
  }

  /** Paragraph `i` sits in the text between the text of the paragraphs before it and
      that of the paragraphs after it, numbered on from the drawings ahead of it, and is
      followed by a newline. */
  lemma ParagraphInDocument(doc: Document, i: nat, before: nat)
    requires i < |doc|
    ensures var d := before + DocumentDrawings(doc[..i]);
      DocumentText(doc, before) ==
        DocumentText(doc[..i], before)
        + (ParagraphText(doc[i], d) + "\n" + DocumentText(doc[i + 1..], d + DrawingCount(doc[i])))
  {
    var d := before + DocumentDrawings(doc[..i]);
    var tail := doc[i..];
    DocumentTextSplit(doc, i, before);
    DocumentTextCons(tail, d);
    assert tail[0] == doc[i] && tail[1..] == doc[i + 1..];
  }

  /** The text of a document is the text of its first `i` paragraphs, then that of the
      rest numbered on from them. */
  lemma DocumentTextSplit(doc: Document, i: nat, before: nat)
    requires i <= |doc|
    ensures DocumentText(doc, before)
         == DocumentText(doc[..i], before) + DocumentText(doc[i..], before + DocumentDrawings(doc[..i]))
  {
    assert doc == doc[..i] + doc[i..];
    DocumentTextAppend(doc[..i], doc[i..], before);
  }

  /** Run `j` sits in the text of its paragraph between the runs before it and the runs
      after it; a drawing reads `[IMAGE_<k>]` where `k - 1` drawings precede it. */
  lemma RunInParagraph(p: Paragraph, j: nat, before: nat)
    requires j < |p|
    ensures var k := before + DrawingCount(p[..j]);
      ParagraphText(p, before) ==
        ParagraphText(p[..j], before)
        + (RunText(p[j], k) + ParagraphText(p[j + 1..], k + Advance(p[j])))
  {
    var k := before + DrawingCount(p[..j]);
    var tail := p[j..];
    assert p == p[..j] + tail;
    ParagraphTextAppend(p[..j], tail, before);
    assert tail[0] == p[j] && tail[1..] == p[j + 1..];
    assert ParagraphText(tail, k) == RunText(p[j], k) + ParagraphText(p[j + 1..], k + Advance(p[j]));
  }

  /** The last paragraph, like every other, is followed by a newline: the text of a
      non-empty document ends with one. */
  lemma {:induction false} DocumentTextEnds(doc: Document, before: nat)
    requires doc != []
    ensures var s := DocumentText(doc, before); |s| > 0 && s[|s| - 1] == '\n'
    decreases |doc|
  {
    if |doc| > 1 {
      DocumentTextEnds(doc[1..], before + DrawingCount(doc[0]));
    }
  }
}
