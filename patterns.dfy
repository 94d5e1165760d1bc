/**
 * Hand-written recognisers for the regular expressions of the importer, and Python's
 * `re.finditer` / `re.findall`, `re.search` and `re.sub` over them.
 *
 * A recogniser answers, for a text `t` and a position `i`, where the match that Python's
 * backtracking engine reports at `i` stops (None when there is none). Runs of `\d`, `\s`
 * and `\n` are taken whole wherever the character after the run cannot continue the
 * pattern any other way; the two places where the engine gives characters back (the
 * whitespace before an answer value, and the whitespace inside a blank line) are written
 * out as the engine tries them.
 */
module Patterns {
  import opened Wrappers
  import opened Strings

  const TypeWord: string := "Тип"
  const NumberSign: string := "№"
  const AnswerWord: string := "Ответ:"

  /** Where a match starts and stops. */
  datatype Span = Span(start: nat, stop: nat)

  /** Where the capture group of a match starts and ends, and where the match stops. */
  datatype Parts = Parts(groupStart: nat, groupEnd: nat, stop: nat)

  /** The patterns of the importer, each a regular expression of parse_docx.py. */
  datatype Pattern =
    | FullHeader           // number, '.', spaces, "Тип", spaces, number, spaces, '№', spaces, "[[", number, ']'
    | TypeHeader           // number, '.', spaces, "Тип"
    | NumberedTypeHeader   // number, '.', spaces, "Тип", spaces, number
    | FullHeaderLine       // FullHeader, a second ']', the rest of the line and its newline
    | NumberedHeaderLine   // NumberedTypeHeader, the rest of the line and its newline
    | AnswerClause         // "Ответ:", spaces, a value up to the first '.' or the end
    | OptionMarker         // number, ')', spaces, a text up to the next option, blank line, answer or end
    | OptionLiteral(num: string, text: string)  // `num`, ')', spaces, then `text` literally
    | BlankLine            // a newline, whitespace, a newline

  // ------------------------------------------------------------ building blocks

  /** The newline character. */
  predicate IsNewline(c: char) {
    c == '\n'
  }

  /** One or more characters of class `k`, taken whole. */
  function Run1(t: string, i: nat, k: CharClass): (r: Option<nat>)
    requires i <= |t|
    ensures r.Some? <==> RunEnd(t, i, k) > i
    ensures r.Some? ==> r.value == RunEnd(t, i, k)
  {
    var j := RunEnd(t, i, k);
    if j > i then Some(j) else None
  }

  /** The literal `lit` at `i`. */
  function Literal(t: string, i: nat, lit: string): (r: Option<nat>)
    requires i <= |t|
    ensures r.Some? <==> StartsAt(t, i, lit)
    ensures r.Some? ==> r.value == i + |lit| <= |t|
  {
    if StartsAt(t, i, lit) then Some(i + |lit|) else None
  }

  /** `\d+` / `\s+` at `i` matches exactly when the character at `i` is of the class, and
      then takes the longest run: every character up to the stop is of the class, and the
      one at the stop, if any, is not. */
  lemma Run1Means(t: string, i: nat, k: CharClass)
    requires i <= |t|
    ensures Run1(t, i, k).Some? <==> i < |t| && InClass(t[i], k)
    ensures Run1(t, i, k).Some? ==> var j := Run1(t, i, k).value;
      (forall m :: i <= m < j ==> InClass(t[m], k)) && (j == |t| || !InClass(t[j], k))
  {
    RunIn(t, i, k);
    if i < |t| && InClass(t[i], k) {
      assert RunEnd(t, i, k) != i;
    }
  }

  /** A literal matches at `i` exactly when the characters from `i` on spell it, and the
      match consumes exactly those characters. */
  lemma LiteralMeans(t: string, i: nat, lit: string)
    requires i <= |t|
    ensures Literal(t, i, lit).Some? <==> i + |lit| <= |t| && forall m :: 0 <= m < |lit| ==> t[i + m] == lit[m]
    ensures Literal(t, i, lit).Some? ==> t[i..Literal(t, i, lit).value] == lit
  {
    if i + |lit| <= |t| && forall m :: 0 <= m < |lit| ==> t[i + m] == lit[m] {
      assert t[i..i + |lit|] == lit;
    }
  }

  /** Any characters but a newline, as few as possible, then a newline. */
  function ThroughNewline(t: string, i: nat): (r: Option<nat>)
    requires i <= |t|
    ensures r.Some? ==> i < r.value <= |t| && t[r.value - 1] == '\n'
    ensures r.Some? ==> forall m {:trigger IsNewline(t[m])} :: i <= m < r.value - 1 ==> !IsNewline(t[m])
    ensures r.None? ==> forall m {:trigger IsNewline(t[m])} :: i <= m < |t| ==> !IsNewline(t[m])
  {
    var n := RunEnd(t, i, LineChars);
    RunIn(t, i, LineChars);
    if n < |t| then Some(n + 1) else None
  }

  /** `$` without MULTILINE: the end of the text, or just before a newline that ends it. */
  predicate AtEnd(t: string, q: nat)
    requires q <= |t|
  {
    q == |t| || (q == |t| - 1 && t[q] == '\n')
  }

  /** From `k` on, whitespace that reaches a newline (`\s*\n`). */
  predicate SpaceThenNewline(t: string, k: nat)
    requires k <= |t|
    decreases |t| - k
  {
    k < |t| && IsSpace(t[k]) && (t[k] == '\n' || SpaceThenNewline(t, k + 1))
  }

  // ------------------------------------------------------------- the headers

  /** One element of a pattern that is a plain sequence of elements. */
  datatype Atom =
    | Some1(k: CharClass)   // one or more characters of the class, taken whole
    | Lit(s: string)        // the literal text
    | RestOfLine            // any characters but a newline, as few as possible, then a newline

  function MatchAtom(a: Atom, t: string, i: nat): (r: Option<nat>)
    requires i <= |t|
    ensures r.Some? ==> i <= r.value <= |t|
    ensures r.Some? && (a.Some1? || a.RestOfLine? || |a.s| > 0) ==> i < r.value
  {
    match a
    case Some1(k) => Run1(t, i, k)
    case Lit(s) => Literal(t, i, s)
    case RestOfLine => ThroughNewline(t, i)
  }

  /** The elements one after the other. */
  function MatchSeq(atoms: seq<Atom>, t: string, i: nat): (r: Option<nat>)
    requires i <= |t|
    ensures r.Some? ==> i <= r.value <= |t|
    ensures r.Some? && atoms != [] && (atoms[0].Some1? || atoms[0].RestOfLine? || |atoms[0].s| > 0) ==> i < r.value
    decreases |atoms|
  {
    if atoms == [] then Some(i)
    else match MatchAtom(atoms[0], t, i)
      case Some(j) => MatchSeq(atoms[1..], t, j)
      case None => None
  }

  /** A number, '.', whitespace and "Тип". */
  const TypeHeaderAtoms: seq<Atom> := [Some1(Digits), Lit("."), Some1(Spaces), Lit(TypeWord)]
  /** ... then whitespace and a number. */
  const NumberedTypeHeaderAtoms: seq<Atom> := TypeHeaderAtoms + [Some1(Spaces), Some1(Digits)]
  /** ... then whitespace, '№', whitespace, "[[", a number and ']'. */
  const FullHeaderAtoms: seq<Atom> :=
    NumberedTypeHeaderAtoms + [Some1(Spaces), Lit(NumberSign), Some1(Spaces), Lit("[["), Some1(Digits), Lit("]")]
  /** The full header, a second ']', and the rest of its line with the newline. */
  const FullHeaderLineAtoms: seq<Atom> := FullHeaderAtoms + [Lit("]"), RestOfLine]
  /** The numbered header and the rest of its line with the newline. */
  const NumberedHeaderLineAtoms: seq<Atom> := NumberedTypeHeaderAtoms + [RestOfLine]

  /** Matching `a + b` is matching `a`, then `b` from where `a` stopped. */
  lemma {:induction false} MatchSeqAppend(a: seq<Atom>, b: seq<Atom>, t: string, i: nat)
    requires i <= |t|
    ensures MatchSeq(a + b, t, i) == match MatchSeq(a, t, i) case Some(j) => MatchSeq(b, t, j) case None => None
    decreases |a|
  {
    if a != [] {
      assert (a + b)[0] == a[0] && (a + b)[1..] == a[1..] + b;
      match MatchAtom(a[0], t, i)
      case Some(j) => MatchSeqAppend(a[1..], b, t, j);
      case None =>
    } else {
      assert a + b == b;
    }
  }

  /** An element matched within `t[..hi]` matches the same way in the slice `t[lo..hi]`. */
  lemma MatchAtomLocal(a: Atom, t: string, lo: nat, hi: nat, i: nat)
    requires lo <= i <= hi <= |t|
    requires MatchAtom(a, t, i).Some? && MatchAtom(a, t, i).value <= hi
    ensures MatchAtom(a, t[lo..hi], i - lo) == Some(MatchAtom(a, t, i).value - lo)
  {
    match a
    case Some1(k) => RunEndLocal(t, lo, hi, i, k);
    case Lit(s) => StartsAtLocal(t, lo, hi, i, s);
    case RestOfLine =>
      var n := RunEnd(t, i, LineChars);
      RunEndLocal(t, lo, hi, i, LineChars);
      assert t[lo..hi][n - lo] == t[n];
  }

  /** A sequence matched within `t[..hi]` matches the same way in the slice `t[lo..hi]`. */
  lemma {:induction false} MatchSeqLocal(atoms: seq<Atom>, t: string, lo: nat, hi: nat, i: nat)
    requires lo <= i <= hi <= |t|
    requires MatchSeq(atoms, t, i).Some? && MatchSeq(atoms, t, i).value <= hi
    ensures MatchSeq(atoms, t[lo..hi], i - lo) == Some(MatchSeq(atoms, t, i).value - lo)
    decreases |atoms|
  {
    if atoms != [] {
      var j := MatchAtom(atoms[0], t, i).value;
      MatchSeqUnfold(atoms, t, i);
      MatchAtomLocal(atoms[0], t, lo, hi, i);
      MatchSeqLocal(atoms[1..], t, lo, hi, j);
      MatchSeqShift(atoms, t, t[lo..hi], i, lo);
    }
  }

  /** A sequence whose first element matches goes on with the rest from there. */
  lemma MatchSeqUnfold(atoms: seq<Atom>, t: string, i: nat)
    requires i <= |t| && atoms != [] && MatchAtom(atoms[0], t, i).Some?
    ensures MatchSeq(atoms, t, i) == MatchSeq(atoms[1..], t, MatchAtom(atoms[0], t, i).value)
  {
  }

  /** When the first element matches in `u` at `i - lo` as it does in `t` at `i`, shifted
      by `lo`, and so does the rest, the whole sequence does. */
  lemma MatchSeqShift(atoms: seq<Atom>, t: string, u: string, i: nat, lo: nat)
    requires lo <= i <= |t| && i - lo <= |u| && atoms != []
    requires MatchAtom(atoms[0], t, i).Some? && MatchAtom(atoms[0], t, i).value >= lo
    requires MatchAtom(atoms[0], u, i - lo) == Some(MatchAtom(atoms[0], t, i).value - lo)
    requires MatchSeq(atoms[1..], t, MatchAtom(atoms[0], t, i).value).Some?
    requires MatchSeq(atoms[1..], u, MatchAtom(atoms[0], t, i).value - lo)
          == Some(MatchSeq(atoms[1..], t, MatchAtom(atoms[0], t, i).value).value - lo)
    ensures MatchSeq(atoms, u, i - lo) == Some(MatchSeq(atoms, t, i).value - lo)
  {
    MatchSeqUnfold(atoms, t, i);
    MatchSeqUnfold(atoms, u, i - lo);
  }

  // -------------------------------------------------------- the answer clause

  /** Where the lazy value may stop: at a '.', which it then consumes, or where `$`
      holds. */
  predicate ValueStops(t: string, m: nat)
    requires m <= |t|
  {
    (m < |t| && t[m] == '.') || AtEnd(t, m)
  }

  /** After at least one value character, up to position `q`: the lazy value stops at the
      first position where it may, and cannot take a newline before it. Gives where the
      value ends and where the match stops. */
  function AnswerValueEnd(t: string, q: nat): (r: Option<(nat, nat)>)
    requires q <= |t|
    ensures r.Some? ==> q <= r.value.0 <= r.value.1 <= |t|
    ensures r.Some? ==> forall m {:trigger IsNewline(t[m])} :: q <= m < r.value.0 ==> !IsNewline(t[m])
    ensures r.Some? ==> (r.value.0 < |t| && t[r.value.0] == '.' && r.value.1 == r.value.0 + 1)
                        || (AtEnd(t, r.value.0) && r.value.1 == r.value.0)
    decreases |t| - q
  {
    if q < |t| && t[q] == '.' then Some((q, q + 1))
    else if AtEnd(t, q) then Some((q, q))
    else if t[q] == '\n' then None
    else AnswerValueEnd(t, q + 1)
  }

  /** A newline comes before any place the value could stop. */
  predicate NewlineFirst(t: string, q: nat)
    requires q <= |t|
  {
    exists n :: q <= n < |t| && t[n] == '\n' && forall m :: q <= m <= n ==> !ValueStops(t, m)
  }

  /** The value fails exactly when it reaches a newline before any place it could stop. */
  lemma {:induction false} AnswerValueEndNone(t: string, q: nat)
    requires q <= |t|
    ensures AnswerValueEnd(t, q).None? <==> NewlineFirst(t, q)
    decreases |t| - q
  {
    if !ValueStops(t, q) && q < |t| && t[q] != '\n' {
      AnswerValueEndNone(t, q + 1);
      NewlineFirstStep(t, q);
    } else if !ValueStops(t, q) {
      assert q < |t| && t[q] == '\n';
    } else {
      assert ValueStops(t, q);
    }
  }

  lemma NewlineFirstStep(t: string, q: nat)
    requires q < |t| && t[q] != '\n' && !ValueStops(t, q)
    ensures NewlineFirst(t, q) <==> NewlineFirst(t, q + 1)
  {
    if NewlineFirst(t, q) {
      var n :| q <= n < |t| && t[n] == '\n' && forall m :: q <= m <= n ==> !ValueStops(t, m);
      assert q + 1 <= n;
    }
    if NewlineFirst(t, q + 1) {
      var n :| q + 1 <= n < |t| && t[n] == '\n' && forall m :: q + 1 <= m <= n ==> !ValueStops(t, m);
      assert forall m :: q <= m <= n ==> !ValueStops(t, m);
    }
  }

  /** The value can begin at `p`: a character other than a newline, then a lazy value that
      stops before any newline. */
  predicate ValueAt(t: string, p: nat)
    requires p <= |t|
  {
    p < |t| && t[p] != '\n' && AnswerValueEnd(t, p + 1).Some?
  }

  /** The value tried from `p` down to `s + 1`: the whitespace before it gives back one
      character at a time, so the value begins at the largest position that can begin
      one. */
  function AnswerFrom(t: string, s: nat, p: nat): (r: Option<Parts>)
    requires s < p <= |t|
    ensures r.Some? ==> s < r.value.groupStart <= p && r.value.groupStart < r.value.groupEnd
    ensures r.Some? ==> r.value.groupEnd <= r.value.stop <= |t|
    ensures r.Some? ==> forall m {:trigger IsNewline(t[m])} :: r.value.groupStart <= m < r.value.groupEnd ==> !IsNewline(t[m])
    ensures r.Some? ==> (r.value.groupEnd < |t| && t[r.value.groupEnd] == '.' && r.value.stop == r.value.groupEnd + 1)
                        || (AtEnd(t, r.value.groupEnd) && r.value.stop == r.value.groupEnd)
    decreases p
  {
    var v := if p < |t| && t[p] != '\n' then AnswerValueEnd(t, p + 1) else None;
    match v
    case Some((g, e)) => Some(Parts(p, g, e))
    case None => if p - 1 > s then AnswerFrom(t, s, p - 1) else None
  }

  /** The value begins at the largest position from `p` down to `s + 1` that can begin
      one, and ends where its lazy scan stops; there is none exactly when no position in
      that range can begin a value. */
  lemma {:induction false} AnswerFromChoice(t: string, s: nat, p: nat)
    requires s < p <= |t|
    ensures var r := AnswerFrom(t, s, p);
      r.Some? ==> ValueAt(t, r.value.groupStart)
                  && AnswerValueEnd(t, r.value.groupStart + 1) == Some((r.value.groupEnd, r.value.stop))
    ensures var r := AnswerFrom(t, s, p);
      r.Some? ==> forall p' :: r.value.groupStart < p' <= p ==> !ValueAt(t, p')
    ensures AnswerFrom(t, s, p).None? ==> forall p' :: s < p' <= p ==> !ValueAt(t, p')
    decreases p
  {
    if !ValueAt(t, p) && p - 1 > s {
      AnswerFromChoice(t, s, p - 1);
    }
  }

  /** The lazy value ends at the first position where it may stop. */
  lemma {:induction false} AnswerValueEndFirst(t: string, q: nat)
    requires q <= |t| && AnswerValueEnd(t, q).Some?
    ensures forall m :: q <= m < AnswerValueEnd(t, q).value.0 ==> !ValueStops(t, m)
    decreases |t| - q
  {
    if !ValueStops(t, q) {
      AnswerValueEndFirst(t, q + 1);
    }
  }

  /** "Ответ:", whitespace, and the value (the capture group): the value begins at the
      last position of the whitespace run, or after it, that can begin one. */
  function AnswerParts(t: string, i: nat): (r: Option<Parts>)
    requires i <= |t|
    ensures r.Some? ==> StartsAt(t, i, AnswerWord)
    ensures r.Some? ==> i + |AnswerWord| < r.value.groupStart < r.value.groupEnd <= r.value.stop <= |t|
    ensures r.Some? ==> forall m :: i + |AnswerWord| <= m < r.value.groupStart ==> IsSpace(t[m])
    ensures r.Some? ==> forall m {:trigger IsNewline(t[m])} :: r.value.groupStart <= m < r.value.groupEnd ==> !IsNewline(t[m])
    ensures r.Some? ==> (r.value.groupEnd < |t| && t[r.value.groupEnd] == '.' && r.value.stop == r.value.groupEnd + 1)
                        || (AtEnd(t, r.value.groupEnd) && r.value.stop == r.value.groupEnd)
  {
    var s :- Literal(t, i, AnswerWord);
    var w :- Run1(t, s, Spaces);
    RunIn(t, s, Spaces);
    AnswerFrom(t, s, w)
  }

  /** Which value the clause captures: the whitespace run after "Ответ:" gives back
      characters until the value can begin, so the value begins at the last position in
      the run, or just after it, that can begin one, and ends where its lazy scan stops;
      there is no clause exactly when no such position exists. */
  lemma AnswerPartsChoice(t: string, i: nat)
    requires i <= |t|
    ensures var r := AnswerParts(t, i);
      r.Some? ==> ValueAt(t, r.value.groupStart)
                  && AnswerValueEnd(t, r.value.groupStart + 1) == Some((r.value.groupEnd, r.value.stop))
    ensures var r := AnswerParts(t, i);
      r.Some? ==> forall p' :: r.value.groupStart < p' <= RunEnd(t, i + |AnswerWord|, Spaces) ==> !ValueAt(t, p')
    ensures AnswerParts(t, i).None? <==>
      !StartsAt(t, i, AnswerWord)
      || forall p' :: i + |AnswerWord| < p' <= RunEnd(t, i + |AnswerWord|, Spaces) ==> !ValueAt(t, p')
  {
    if StartsAt(t, i, AnswerWord) && RunEnd(t, i + |AnswerWord|, Spaces) > i + |AnswerWord| {
      var s, w := i + |AnswerWord|, RunEnd(t, i + |AnswerWord|, Spaces);
      AnswerFromChoice(t, s, w);
      assert AnswerParts(t, i) == AnswerFrom(t, s, w);
    }
  }

  // ---------------------------------------------------------------- the options

  /** Looking at a newline, a number and ')'. */
  predicate NextOptionAhead(t: string, q: nat)
    requires q <= |t|
  {
    q < |t| && t[q] == '\n' && var d := RunEnd(t, q + 1, Digits); q + 1 < d < |t| && t[d] == ')'
  }

  /** Looking at a newline, whitespace and a newline. */
  predicate BlankLineAhead(t: string, q: nat)
    requires q <= |t|
  {
    q < |t| && t[q] == '\n' && SpaceThenNewline(t, q + 1)
  }

  /** Looking at newlines (possibly none) and "Ответ:". */
  predicate AnswerAhead(t: string, q: nat)
    requires q <= |t|
  {
    StartsAt(t, RunEnd(t, q, Newlines), AnswerWord)
  }

  /** Where the lazy text of an option may stop. */
  predicate OptionTextStops(t: string, q: nat)
    requires q <= |t|
  {
    NextOptionAhead(t, q) || AtEnd(t, q) || BlankLineAhead(t, q) || AnswerAhead(t, q)
  }

  /** The lazy option text (which may cross newlines) from `q`: it stops at the first
      position where it may. */
  function OptionTextEnd(t: string, q: nat): (r: nat)
    requires q <= |t|
    ensures q <= r <= |t| && OptionTextStops(t, r)
    ensures forall m :: q <= m < r ==> !OptionTextStops(t, m)
    decreases |t| - q
  {
    if OptionTextStops(t, q) then q else OptionTextEnd(t, q + 1)
  }

  /** A number, ')', whitespace and the option text (the second capture group). */
  function OptionParts(t: string, i: nat): (r: Option<Parts>)
    requires i <= |t|
    ensures r.Some? ==> i < RunEnd(t, i, Digits) && StartsAt(t, RunEnd(t, i, Digits), ")")
    ensures r.Some? ==> RunEnd(t, i, Digits) + 1 < r.value.groupStart <= r.value.groupEnd == r.value.stop <= |t|
    ensures r.Some? ==> r.value.groupStart == RunEnd(t, RunEnd(t, i, Digits) + 1, Spaces)
    ensures r.Some? ==> OptionTextStops(t, r.value.groupEnd)
    ensures r.Some? ==> forall m :: r.value.groupStart <= m < r.value.groupEnd ==> !OptionTextStops(t, m)
  {
    var a :- Run1(t, i, Digits);
    var b :- Literal(t, a, ")");
    var w :- Run1(t, b, Spaces);
    var q := OptionTextEnd(t, w);
    Some(Parts(w, q, q))
  }

  /** `num`, ')', whitespace and `x` literally. When `x` is empty or starts with a
      non-whitespace character (as a stripped option text does), taking the whitespace
      whole is what the engine does. */
  function OptionLiteralAtoms(num: string, x: string): seq<Atom> {
    [Lit(num + ")"), Some1(Spaces), Lit(x)]
  }

  // ------------------------------------------------------------- blank lines

  /** The last newline in `t[lo..hi]`. */
  function LastNewline(t: string, lo: nat, hi: nat): (r: Option<nat>)
    requires lo <= hi <= |t|
    ensures r.Some? ==> lo <= r.value < hi && t[r.value] == '\n'
    ensures r.Some? ==> forall m {:trigger IsNewline(t[m])} :: r.value < m < hi ==> !IsNewline(t[m])
    ensures r.None? ==> forall m {:trigger IsNewline(t[m])} :: lo <= m < hi ==> !IsNewline(t[m])
    decreases hi
  {
    if hi <= lo then None
    else if t[hi - 1] == '\n' then Some(hi - 1)
    else LastNewline(t, lo, hi - 1)
  }

  /** A newline, then the whitespace after it up to and including its last newline: the
      greedy `\s*` gives back what follows that newline. */
  function BlankLineEnd(t: string, i: nat): (r: Option<nat>)
    requires i <= |t|
    ensures r.Some? ==> i < r.value <= |t|
  {
    if i < |t| && t[i] == '\n' then
      match LastNewline(t, i + 1, RunEnd(t, i + 1, Spaces))
      case Some(n) => Some(n + 1)
      case None => None
    else None
  }

  // ------------------------------------------------------------------ dispatch

  /** Where the match of `p` that starts at `i` stops. */
  function MatchAt(p: Pattern, t: string, i: nat): (r: Option<nat>)
    requires i <= |t|
    ensures r.Some? ==> i < r.value <= |t|
  {
    match p
    case FullHeader => MatchSeq(FullHeaderAtoms, t, i)
    case TypeHeader => MatchSeq(TypeHeaderAtoms, t, i)
    case NumberedTypeHeader => MatchSeq(NumberedTypeHeaderAtoms, t, i)
    case FullHeaderLine => MatchSeq(FullHeaderLineAtoms, t, i)
    case NumberedHeaderLine => MatchSeq(NumberedHeaderLineAtoms, t, i)
    case AnswerClause => (match AnswerParts(t, i) case Some(m) => Some(m.stop) case None => None)
    case OptionMarker => (match OptionParts(t, i) case Some(m) => Some(m.stop) case None => None)
    case OptionLiteral(num, x) => MatchSeq(OptionLiteralAtoms(num, x), t, i)
    case BlankLine => BlankLineEnd(t, i)
  }

  // --------------------------------------------------- finditer, search, sub

  /* Python's scans read a pattern only through the question "does it match at this
     position, and where does the match stop". They are written over a table of those
     answers, one entry per position of the text, and then applied to the table of each
     pattern. */

  /** Every match in the table is non-empty and stops inside the text. */
  predicate Sound(tb: seq<Option<nat>>) {
    forall i :: 0 <= i < |tb| && tb[i].Some? ==> i < tb[i].value <= |tb|
  }

  /** The answer of the recogniser of `p` at every position of `t`. */
  function Table(p: Pattern, t: string): (tb: seq<Option<nat>>)
    ensures |tb| == |t| && Sound(tb)
    ensures forall i :: 0 <= i < |t| ==> tb[i] == MatchAt(p, t, i)
  {
    seq(|t|, i requires 0 <= i < |t| => MatchAt(p, t, i))
  }

  /** finditer from `pos`: matches left to right, each search resuming where the previous
      match stopped. */
  function Scan(tb: seq<Option<nat>>, pos: nat): (ms: seq<Span>)
    requires Sound(tb) && pos <= |tb|
    ensures forall k :: 0 <= k < |ms| ==> pos <= ms[k].start < ms[k].stop <= |tb|
    ensures forall k :: 0 <= k < |ms| ==> tb[ms[k].start] == Some(ms[k].stop)
    ensures forall k, l :: 0 <= k < l < |ms| ==> ms[k].stop <= ms[l].start
    decreases |tb| - pos
  {
    if pos == |tb| then []
    else match tb[pos]
      case Some(e) =>
        var rest := Scan(tb, e);
        var ms := [Span(pos, e)] + rest;
        assert forall k :: 1 <= k < |ms| ==> ms[k] == rest[k - 1];
        ms
      case None => Scan(tb, pos + 1)
  }

  /** search from `pos`: the leftmost match. */
  function ScanFirst(tb: seq<Option<nat>>, pos: nat): (r: Option<Span>)
    requires Sound(tb) && pos <= |tb|
    ensures r.Some? ==> pos <= r.value.start < r.value.stop <= |tb| && tb[r.value.start] == Some(r.value.stop)
    ensures r.Some? ==> forall k :: pos <= k < r.value.start ==> tb[k].None?
    ensures r.None? ==> forall k :: pos <= k < |tb| ==> tb[k].None?
    decreases |tb| - pos
  {
    if pos == |tb| then None
    else match tb[pos]
      case Some(e) => Some(Span(pos, e))
      case None => ScanFirst(tb, pos + 1)
  }

  /** sub from `pos`: every match of the scan replaced by `rep`, every other character
      kept. */
  function ScanSub(tb: seq<Option<nat>>, t: string, pos: nat, rep: string): string
    requires Sound(tb) && |tb| == |t| && pos <= |t|
    decreases |t| - pos
  {
    if pos == |t| then []
    else match tb[pos]
      case Some(e) => rep + ScanSub(tb, t, e, rep)
      case None => [t[pos]] + ScanSub(tb, t, pos + 1, rep)
  }

  /** A match at `pos` is the first of the scan and of search, and sub writes `rep` for it;
      each goes on from where it stops. */
  lemma ScanHere(tb: seq<Option<nat>>, t: string, pos: nat, rep: string)
    requires Sound(tb) && |tb| == |t| && pos < |tb| && tb[pos].Some?
    ensures Scan(tb, pos) == [Span(pos, tb[pos].value)] + Scan(tb, tb[pos].value)
    ensures ScanFirst(tb, pos) == Some(Span(pos, tb[pos].value))
    ensures ScanSub(tb, t, pos, rep) == rep + ScanSub(tb, t, tb[pos].value, rep)
  {
  }

  /** Without a match at `pos`, the scan and search move on to `pos + 1`, and sub keeps
      the character there. */
  lemma ScanSkip(tb: seq<Option<nat>>, t: string, pos: nat, rep: string)
    requires Sound(tb) && |tb| == |t| && pos < |tb| && tb[pos].None?
    ensures Scan(tb, pos) == Scan(tb, pos + 1)
    ensures ScanFirst(tb, pos) == ScanFirst(tb, pos + 1)
    ensures ScanSub(tb, t, pos, rep) == [t[pos]] + ScanSub(tb, t, pos + 1, rep)
  {
  }

  /** The scan finds nothing exactly when nothing matches from `pos` on. */
  lemma {:induction false} ScanEmpty(tb: seq<Option<nat>>, pos: nat)
    requires Sound(tb) && pos <= |tb|
    ensures Scan(tb, pos) == [] <==> forall k :: pos <= k < |tb| ==> tb[k].None?
    decreases |tb| - pos
  {
    if pos < |tb| && tb[pos].None? {
      ScanEmpty(tb, pos + 1);
    }
  }

  /** search reports the first span of the scan. */
  lemma {:induction false} ScanFirstIsFirst(tb: seq<Option<nat>>, pos: nat)
    requires Sound(tb) && pos <= |tb|
    ensures ScanFirst(tb, pos) == if Scan(tb, pos) == [] then None else Some(Scan(tb, pos)[0])
    decreases |tb| - pos
  {
    if pos < |tb| && tb[pos].None? {
      ScanFirstIsFirst(tb, pos + 1);
    }
  }

  /** Position `k` lies inside one of the spans `ms`. */
  predicate InSpan(ms: seq<Span>, k: nat) {
    exists j :: 0 <= j < |ms| && ms[j].start <= k < ms[j].stop
  }

  lemma InSpanCons(x: Span, rest: seq<Span>, k: nat)
    requires x.start <= k < x.stop || InSpan(rest, k)
    ensures InSpan([x] + rest, k)
  {
    var ms := [x] + rest;
    if !(x.start <= k < x.stop) {
      var j :| 0 <= j < |rest| && rest[j].start <= k < rest[j].stop;
      assert ms[j + 1] == rest[j];
    } else {
      assert ms[0] == x;
    }
  }

  /** The scan misses no match: a position where the table has a match lies inside one of
      the spans (the one starting there, or an earlier one overlapping it). */
  lemma {:induction false} ScanComplete(tb: seq<Option<nat>>, pos: nat, k: nat)
    requires Sound(tb) && pos <= k < |tb| && tb[k].Some?
    ensures InSpan(Scan(tb, pos), k)
    decreases |tb| - pos
  {
    match tb[pos]
    case Some(e) =>
      if e <= k {
        ScanComplete(tb, e, k);
      }
      InSpanCons(Span(pos, e), Scan(tb, e), k);
    case None =>
      ScanComplete(tb, pos + 1, k);
  }

  /** After its first span, the scan goes on from that span's stop. */
  lemma {:induction false} ScanTail(tb: seq<Option<nat>>, pos: nat)
    requires Sound(tb) && pos <= |tb| && Scan(tb, pos) != []
    ensures Scan(tb, pos)[1..] == Scan(tb, Scan(tb, pos)[0].stop)
    decreases |tb| - pos
  {
    if tb[pos].None? {
      ScanTail(tb, pos + 1);
    }
  }

  /** Total length of the matched spans. */
  function Covered(ms: seq<Span>): int {
    if ms == [] then 0 else (ms[0].stop - ms[0].start) + Covered(ms[1..])
  }

  /** What sub writes in place of the matches `ms`: one `rep` each. */
  function Gained(ms: seq<Span>, rep: string): nat {
    if ms == [] then 0 else |rep| + Gained(ms[1..], rep)
  }

  /** Spans that lie one after the other from `pos` on, inside a text of length `n`. */
  predicate InOrder(ms: seq<Span>, pos: nat, n: nat)
    decreases |ms|
  {
    if ms == [] then pos <= n
    else pos <= ms[0].start <= ms[0].stop <= n && InOrder(ms[1..], ms[0].stop, n)
  }

  /** The text from `pos` with each span of `ms` cut out and `rep` written in its place:
      the stretches between the spans are kept as they are. */
  function Spliced(t: string, pos: nat, ms: seq<Span>, rep: string): string
    requires InOrder(ms, pos, |t|)
    decreases |ms|
  {
    if ms == [] then t[pos..] else t[pos..ms[0].start] + rep + Spliced(t, ms[0].stop, ms[1..], rep)
  }

  /** From `pos` on, the scan's spans are in order and sub is their splice. */
  predicate Splices(tb: seq<Option<nat>>, t: string, pos: nat, rep: string)
    requires Sound(tb) && |tb| == |t| && pos <= |t|
  {
    InOrder(Scan(tb, pos), pos, |t|) && ScanSub(tb, t, pos, rep) == Spliced(t, pos, Scan(tb, pos), rep)
  }

  /** sub cuts out exactly the spans the scan reports and writes `rep` for each; every
      other character is kept, in order. */
  lemma {:induction false} ScanSplices(tb: seq<Option<nat>>, t: string, pos: nat, rep: string)
    requires Sound(tb) && |tb| == |t| && pos <= |t|
    ensures Splices(tb, t, pos, rep)
    decreases |t| - pos
  {
    if pos < |t| {
      match tb[pos]
      case Some(e) =>
        ScanSplices(tb, t, e, rep);
        ScanHere(tb, t, pos, rep);
        SplicedCut(t, Span(pos, e), Scan(tb, e), rep);
      case None =>
        ScanSplices(tb, t, pos + 1, rep);
        ScanSkip(tb, t, pos, rep);
        SplicedKeeps(t, pos, Scan(tb, pos + 1), rep);
    }
  }

  /** A first span is cut out in front of the splice of the rest. */
  lemma SplicedCut(t: string, x: Span, rest: seq<Span>, rep: string)
    requires x.start <= x.stop <= |t| && InOrder(rest, x.stop, |t|)
    ensures InOrder([x] + rest, x.start, |t|)
    ensures Spliced(t, x.start, [x] + rest, rep) == rep + Spliced(t, x.stop, rest, rep)
  {
    var ms := [x] + rest;
    assert ms[0] == x && ms[1..] == rest;
    assert t[x.start..x.start] == [];
  }

  /** A character before the first span is kept by the splice. */
  lemma SplicedKeeps(t: string, pos: nat, ms: seq<Span>, rep: string)
    requires pos < |t| && InOrder(ms, pos + 1, |t|)
    ensures InOrder(ms, pos, |t|) && Spliced(t, pos, ms, rep) == [t[pos]] + Spliced(t, pos + 1, ms, rep)
  {
    if ms == [] {
      assert t[pos..] == [t[pos]] + t[pos + 1..];
    } else {
      var r := Spliced(t, ms[0].stop, ms[1..], rep);
      assert t[pos..ms[0].start] == [t[pos]] + t[pos + 1..ms[0].start];
      assert [t[pos]] + t[pos + 1..ms[0].start] + rep + r == [t[pos]] + (t[pos + 1..ms[0].start] + rep + r);
    }
  }

  /** sub from `pos` loses what the scan covers and writes one `rep` per span. */
  predicate Balanced(tb: seq<Option<nat>>, t: string, pos: nat, rep: string)
    requires Sound(tb) && |tb| == |t| && pos <= |t|
  {
    |ScanSub(tb, t, pos, rep)| + Covered(Scan(tb, pos)) == |t| - pos + Gained(Scan(tb, pos), rep)
  }

  lemma {:induction false} ScanBalanced(tb: seq<Option<nat>>, t: string, pos: nat, rep: string)
    requires Sound(tb) && |tb| == |t| && pos <= |t|
    ensures Balanced(tb, t, pos, rep)
    decreases |t| - pos
  {
    if pos < |t| {
      match tb[pos]
      case Some(e) =>
        ScanBalanced(tb, t, e, rep);
        ScanHere(tb, t, pos, rep);
        GainStep(Scan(tb, pos), Scan(tb, e), pos, e, rep);
      case None =>
        ScanBalanced(tb, t, pos + 1, rep);
        ScanSkip(tb, t, pos, rep);
    }
  }

  lemma GainStep(ms: seq<Span>, rest: seq<Span>, pos: nat, e: nat, rep: string)
    requires ms == [Span(pos, e)] + rest
    ensures Covered(ms) == (e - pos) + Covered(rest)
    ensures Gained(ms, rep) == |rep| + Gained(rest, rep)
  {
    assert ms[0] == Span(pos, e) && ms[1..] == rest;
  }

  lemma {:induction false} GainedCount(ms: seq<Span>, rep: string)
    ensures Gained(ms, rep) == |rep| * |ms|
  {
    if ms != [] {
      GainedCount(ms[1..], rep);
      MulSucc(|rep|, |ms| - 1);
    }
  }

  lemma MulSucc(a: nat, n: nat)
    ensures a * (n + 1) == a + a * n
  {
  }

  /** sub keeps a stretch in which nothing matches as it is. */
  lemma {:induction false} ScanSubNoMatch(tb: seq<Option<nat>>, t: string, pos: nat, rep: string)
    requires Sound(tb) && |tb| == |t| && pos <= |t|
    requires forall k :: pos <= k < |t| ==> tb[k].None?
    ensures ScanSub(tb, t, pos, rep) == t[pos..]
    decreases |t| - pos
  {
    if pos < |t| {
      ScanSubNoMatch(tb, t, pos + 1, rep);
      assert t[pos..] == [t[pos]] + t[pos + 1..];
    }
  }

  /** Every span of a scan is at least one character long. */
  lemma {:induction false} CoveredPositive(ms: seq<Span>)
    requires forall k :: 0 <= k < |ms| ==> ms[k].start < ms[k].stop
    ensures Covered(ms) >= |ms|
    decreases |ms|
  {
    if ms != [] {
      CoveredPositive(ms[1..]);
    }
  }

  // ------------------------------------------------- the scans of a pattern

  /** `re.finditer(p, t[pos:])`. */
  function Matches(p: Pattern, t: string, pos: nat): (ms: seq<Span>)
    requires pos <= |t|
    ensures forall k :: 0 <= k < |ms| ==> pos <= ms[k].start < ms[k].stop <= |t|
    ensures forall k :: 0 <= k < |ms| ==> MatchAt(p, t, ms[k].start) == Some(ms[k].stop)
    ensures forall k, l :: 0 <= k < l < |ms| ==> ms[k].stop <= ms[l].start
  {
    Scan(Table(p, t), pos)
  }

  /** The start of every match, in order. */
  function Starts(ms: seq<Span>): (r: seq<nat>)
    ensures |r| == |ms| && forall k :: 0 <= k < |ms| ==> r[k] == ms[k].start
  {
    seq(|ms|, k requires 0 <= k < |ms| => ms[k].start)
  }

  /** `re.search(p, t[pos:])`: the leftmost match. */
  function Search(p: Pattern, t: string, pos: nat): (r: Option<Span>)
    requires pos <= |t|
    ensures r.Some? ==> pos <= r.value.start < r.value.stop <= |t|
    ensures r.Some? ==> MatchAt(p, t, r.value.start) == Some(r.value.stop)
    ensures r.Some? ==> forall k :: pos <= k < r.value.start ==> MatchAt(p, t, k).None?
    ensures r.None? ==> forall k :: pos <= k <= |t| ==> MatchAt(p, t, k).None?
  {
    ScanFirst(Table(p, t), pos)
  }

  /** `re.sub(p, rep, t[pos:])`: every match of Matches replaced by `rep`. */
  function SubAll(p: Pattern, t: string, pos: nat, rep: string): string
    requires pos <= |t|
  {
    ScanSub(Table(p, t), t, pos, rep)
  }

  /** `re.sub(p, "", t, 1)`: the leftmost match removed. */
  function SubFirst(p: Pattern, t: string): string {
    match Search(p, t, 0)
    case Some(sp) => t[..sp.start] + t[sp.stop..]
    case None => t
  }

  /** finditer finds nothing exactly when the pattern matches at no position. */
  lemma MatchesEmpty(p: Pattern, t: string, pos: nat)
    requires pos <= |t|
    ensures Matches(p, t, pos) == [] <==> forall k :: pos <= k < |t| ==> MatchAt(p, t, k).None?
  {
    ScanEmpty(Table(p, t), pos);
  }

  /** search reports the first match finditer reports. */
  lemma SearchIsFirstMatch(p: Pattern, t: string, pos: nat)
    requires pos <= |t|
    ensures Search(p, t, pos) == if Matches(p, t, pos) == [] then None else Some(Matches(p, t, pos)[0])
  {
    ScanFirstIsFirst(Table(p, t), pos);
  }

  /** A match at `pos` is both the first of finditer and the one search reports. */
  lemma MatchHere(p: Pattern, t: string, pos: nat)
    requires pos < |t| && MatchAt(p, t, pos).Some?
    ensures Matches(p, t, pos) != [] && Matches(p, t, pos)[0] == Span(pos, MatchAt(p, t, pos).value)
    ensures Search(p, t, pos) == Some(Span(pos, MatchAt(p, t, pos).value))
  {
    ScanHere(Table(p, t), t, pos, "");
  }

  /** finditer misses no match: a position where the pattern matches is inside one of the
      spans it reports (the one starting there, or an earlier one overlapping it). */
  lemma MatchesComplete(p: Pattern, t: string, pos: nat, k: nat)
    requires pos <= k < |t| && MatchAt(p, t, k).Some?
    ensures InSpan(Matches(p, t, pos), k)
  {
    ScanComplete(Table(p, t), pos, k);
  }

  /** A match at `pos` is the first of finditer, which resumes where it stops, and sub
      writes `rep` for it. */
  lemma SubAllHere(p: Pattern, t: string, pos: nat, rep: string)
    requires pos < |t| && MatchAt(p, t, pos).Some?
    ensures var e := MatchAt(p, t, pos).value;
      Matches(p, t, pos) == [Span(pos, e)] + Matches(p, t, e) &&
      SubAll(p, t, pos, rep) == rep + SubAll(p, t, e, rep)
  {
    ScanHere(Table(p, t), t, pos, rep);
  }

  /** Without a match at `pos`, finditer and search move on to `pos + 1`, and sub keeps
      the character there. */
  lemma SubAllSkip(p: Pattern, t: string, pos: nat, rep: string)
    requires pos < |t| && MatchAt(p, t, pos).None?
    ensures Matches(p, t, pos) == Matches(p, t, pos + 1)
    ensures Search(p, t, pos) == Search(p, t, pos + 1)
    ensures SubAll(p, t, pos, rep) == [t[pos]] + SubAll(p, t, pos + 1, rep)
  {
    ScanSkip(Table(p, t), t, pos, rep);
  }

  /** After its first span, finditer goes on from that span's stop. */
  lemma MatchesTail(p: Pattern, t: string, pos: nat)
    requires pos <= |t| && Matches(p, t, pos) != []
    ensures Matches(p, t, pos)[1..] == Matches(p, t, Matches(p, t, pos)[0].stop)
  {
    ScanTail(Table(p, t), pos);
  }

  /** sub cuts out exactly the spans finditer reports and writes `rep` for each; every
      character outside them is kept, in order. */
  lemma SubAllSplices(p: Pattern, t: string, pos: nat, rep: string)
    requires pos <= |t|
    ensures InOrder(Matches(p, t, pos), pos, |t|)
    ensures SubAll(p, t, pos, rep) == Spliced(t, pos, Matches(p, t, pos), rep)
  {
    ScanSplices(Table(p, t), t, pos, rep);
  }

  /** sub keeps the text up to the first match, writes `rep` for it, and goes on from where
      it stops. */
  lemma SubAllFirstMatch(p: Pattern, t: string, pos: nat, rep: string)
    requires pos <= |t| && Matches(p, t, pos) != []
    ensures var ms := Matches(p, t, pos);
      ms[0].stop <= |t| &&
      SubAll(p, t, pos, rep) == t[pos..ms[0].start] + rep + SubAll(p, t, ms[0].stop, rep)
  {
    var ms := Matches(p, t, pos);
    SubAllSplices(p, t, pos, rep);
    MatchesTail(p, t, pos);
    SubAllSplices(p, t, ms[0].stop, rep);
  }

  /** The length balance of sub: the text loses as many characters as the matches cover
      and gains one `rep` per match. */
  lemma SubAllLength(p: Pattern, t: string, pos: nat, rep: string)
    requires pos <= |t|
    ensures |SubAll(p, t, pos, rep)| + Covered(Matches(p, t, pos)) == |t| - pos + |rep| * |Matches(p, t, pos)|
  {
    ScanBalanced(Table(p, t), t, pos, rep);
    GainedCount(Matches(p, t, pos), rep);
  }

  /** sub leaves a text in which nothing matches as it is. */
  lemma SubAllNoMatch(p: Pattern, t: string, pos: nat, rep: string)
    requires pos <= |t|
    requires forall k :: pos <= k < |t| ==> MatchAt(p, t, k).None?
    ensures SubAll(p, t, pos, rep) == t[pos..]
  {
    ScanSubNoMatch(Table(p, t), t, pos, rep);
  }

  /** Deleting every match changes the text exactly when something matches, and never
      lengthens it. */
  lemma SubAllDeletes(p: Pattern, t: string)
    ensures SubAll(p, t, 0, "") == t <==> forall k :: 0 <= k < |t| ==> MatchAt(p, t, k).None?
    ensures |SubAll(p, t, 0, "")| <= |t|
  {
    var ms := Matches(p, t, 0);
    SubAllLength(p, t, 0, "");
    CoveredPositive(ms);
    MatchesEmpty(p, t, 0);
    if ms == [] {
      SubAllNoMatch(p, t, 0, "");
    } else {
      assert |SubAll(p, t, 0, "")| < |t|;
    }
  }

  /** Removing the first match changes the text exactly when there is a match. */
  lemma SubFirstChanges(p: Pattern, t: string)
    ensures SubFirst(p, t) == t <==> Search(p, t, 0).None?
  {
    match Search(p, t, 0)
    case Some(sp) =>
      assert |SubFirst(p, t)| == |t| - (sp.stop - sp.start);
    case None =>
  }

  /** An option literal matches only where its text occurs. */
  lemma OptionLiteralHoldsText(num: string, x: string, t: string, i: nat)
    requires i <= |t| && MatchAt(OptionLiteral(num, x), t, i).Some?
    ensures Contains(t, x)
  {
    var atoms := OptionLiteralAtoms(num, x);
    var j1 := MatchAtom(atoms[0], t, i).value;
    MatchSeqUnfold(atoms, t, i);
    assert atoms[1..][0] == Some1(Spaces) && atoms[1..][1..] == [Lit(x)];
    var j2 := MatchAtom(Some1(Spaces), t, j1).value;
    MatchSeqUnfold(atoms[1..], t, j1);
    MatchSeqUnfold([Lit(x)], t, j2);
    assert StartsAt(t, j2, x);
    OccursContains(t, x, j2);
  }

  /** An option literal whose text does not occur removes nothing. */
  lemma RemovalNeedsText(num: string, x: string, t: string)
    requires !Contains(t, x)
    ensures SubAll(OptionLiteral(num, x), t, 0, "") == t
  {
    forall k | 0 <= k < |t|
      ensures MatchAt(OptionLiteral(num, x), t, k).None?
    {
      if MatchAt(OptionLiteral(num, x), t, k).Some? {
        OptionLiteralHoldsText(num, x, t, k);
      }
    }
    SubAllDeletes(OptionLiteral(num, x), t);
  }

}
