/**
 * Character classes, runs, Python's `str.strip`, `int`/`str` on decimal digit strings,
 * and the `in` / `str.replace` operations on strings, as the importer uses them.
 */
module Strings {
  import opened Wrappers

  /** The characters `\s` matches and `str.strip` removes: those `str.isspace` accepts.
      They are tab, newline, vertical tab, form feed and carriage return, the separators
      U+001C to U+001F, space, U+0085, U+00A0, U+1680, U+2000 to U+200A, U+2028, U+2029,
      U+202F, U+205F and U+3000. */
  predicate IsSpace(c: char) {
    ('\t' <= c <= '\r') || ('\U{001C}' <= c <= ' ') || c == '\U{0085}' || c == '\U{00A0}'
    || c == '\U{1680}' || ('\U{2000}' <= c <= '\U{200A}') || c == '\U{2028}' || c == '\U{2029}'
    || c == '\U{202F}' || c == '\U{205F}' || c == '\U{3000}'
  }

  /** The characters `\d` matches, restricted to ASCII. */
  predicate IsDigit(c: char) {
    '0' <= c <= '9'
  }

  /** Spaces: `\s`; Digits: `\d`; Newlines: the newline alone; LineChars: every character
      but a newline (`.` without DOTALL). */
  datatype CharClass = Spaces | Digits | Newlines | LineChars

  predicate InClass(c: char, k: CharClass) {
    match k
    case Spaces => IsSpace(c)
    case Digits => IsDigit(c)
    case Newlines => c == '\n'
    case LineChars => c != '\n'
  }

  /** End of the longest run of characters of class `k` that starts at `i`. */
  function RunEnd(t: string, i: nat, k: CharClass): (j: nat)
    requires i <= |t|
    ensures i <= j <= |t|
    ensures forall m {:trigger InClass(t[m], k)} :: i <= m < j ==> InClass(t[m], k)
    ensures j == |t| || !InClass(t[j], k)
    decreases |t| - i
  {
    if i < |t| && InClass(t[i], k) then RunEnd(t, i + 1, k) else i
  }

  /** Every character of the run is of its class (for any index of `t`). */
  lemma RunIn(t: string, i: nat, k: CharClass)
    requires i <= |t|
    ensures forall m :: i <= m < RunEnd(t, i, k) ==> InClass(t[m], k)
  {
  }

  /** A run that ends by `hi` is the same run in the slice `t[lo..hi]`. */
  lemma RunEndLocal(t: string, lo: nat, hi: nat, i: nat, k: CharClass)
    requires lo <= i <= hi <= |t|
    requires RunEnd(t, i, k) <= hi
    ensures RunEnd(t[lo..hi], i - lo, k) == RunEnd(t, i, k) - lo
  {
    var u := t[lo..hi];
    assert forall m :: i - lo <= m < |u| ==> u[m] == t[m + lo];
  }

  /** `t` holds `lit` starting at position `i`. */
  predicate StartsAt(t: string, i: nat, lit: string) {
    i + |lit| <= |t| && t[i..i + |lit|] == lit
  }

  lemma StartsAtLocal(t: string, lo: nat, hi: nat, i: nat, lit: string)
    requires lo <= i && i + |lit| <= hi <= |t|
    ensures StartsAt(t[lo..hi], i - lo, lit) == StartsAt(t, i, lit)
  {
    var u := t[lo..hi];
    var v, w := u[i - lo..i - lo + |lit|], t[i..i + |lit|];
    assert |v| == |w|;
    forall m | 0 <= m < |v| ensures v[m] == w[m] {
      assert v[m] == u[i - lo + m] == t[i + m];
    }
    assert v == w;
  }

  // ---------------------------------------------------------------- strip

  /** Start of the trailing whitespace of `s[..hi]`. */
  function TrailStart(s: string, hi: nat): (b: nat)
    requires hi <= |s|
    ensures b <= hi
    ensures forall m {:trigger IsSpace(s[m])} :: b <= m < hi ==> IsSpace(s[m])
    ensures b == 0 || !IsSpace(s[b - 1])
    decreases hi
  {
    if hi > 0 && IsSpace(s[hi - 1]) then TrailStart(s, hi - 1) else hi
  }

  /** Python's `str.strip()`: drop leading and trailing whitespace. */
  function Strip(s: string): (r: string)
    ensures |r| <= |s|
    ensures r == [] || (!IsSpace(r[0]) && !IsSpace(r[|r| - 1]))
  {
    var a := RunEnd(s, 0, Spaces);
    if a == |s| then [] else s[a..TrailStart(s, |s|)]
  }

  /** Strip removes exactly the leading and the trailing whitespace: any cut of `s` into
      whitespace, a part that starts and ends with non-whitespace (or is empty), and
      whitespace, is what Strip keeps. */
  lemma StripExactly(s: string, a: nat, b: nat)
    requires a <= b <= |s|
    requires forall m :: 0 <= m < a ==> IsSpace(s[m])
    requires forall m :: b <= m < |s| ==> IsSpace(s[m])
    requires a < b ==> !IsSpace(s[a]) && !IsSpace(s[b - 1])
    ensures Strip(s) == s[a..b]
  {
    var a' := RunEnd(s, 0, Spaces);
    var b' := TrailStart(s, |s|);
    assert a < a' ==> InClass(s[a], Spaces);
  }

  // ------------------------------------------------------- decimal digits

  predicate AllDigits(s: string) {
    forall m :: 0 <= m < |s| ==> IsDigit(s[m])
  }

  /** The run of digits at `i` is all digits. */
  lemma DigitRun(t: string, i: nat)
    requires i <= |t|
    ensures AllDigits(t[i..RunEnd(t, i, Digits)])
  {
    var u := t[i..RunEnd(t, i, Digits)];
    forall m | 0 <= m < |u| ensures IsDigit(u[m]) {
      assert u[m] == t[i + m] && InClass(t[i + m], Digits);
    }
  }

  function DigitValue(c: char): (d: nat)
    requires IsDigit(c)
    ensures d < 10
  {
    (c as int) - ('0' as int)
  }

  function DigitChar(d: nat): (c: char)
    requires d < 10
    ensures IsDigit(c) && DigitValue(c) == d
  {
    (('0' as int) + d) as char
  }

  /** Python's `int()` on a string of ASCII digits (leading zeros allowed). */
  function DecimalValue(s: string): nat
    requires AllDigits(s)
    decreases |s|
  {
    if s == [] then 0 else 10 * DecimalValue(s[..|s| - 1]) + DigitValue(s[|s| - 1])
  }

  /** Python's `str()` on a non-negative integer. */
  function Decimal(n: nat): (s: string)
    ensures |s| > 0 && AllDigits(s)
    ensures s[0] == '0' ==> s == "0"
    decreases n
  {
    if n < 10 then [DigitChar(n)] else Decimal(n / 10) + [DigitChar(n % 10)]
  }

  /** `int(str(n)) == n`. */
  lemma {:induction false} DecimalRoundTrip(n: nat)
    ensures DecimalValue(Decimal(n)) == n
    decreases n
  {
    if n >= 10 {
      DecimalRoundTrip(n / 10);
      var s := Decimal(n);
      assert s[..|s| - 1] == Decimal(n / 10);
    }
  }

  // ------------------------------------------------- substring search, replace

  /** First position at or after `from` where `k` occurs in `s`. */
  function FindFrom(s: string, k: string, from: nat): (r: Option<nat>)
    requires from <= |s|
    ensures r.Some? ==> from <= r.value && StartsAt(s, r.value, k)
    ensures r.Some? ==> forall m :: from <= m < r.value ==> !StartsAt(s, m, k)
    ensures r.None? ==> forall m :: from <= m <= |s| ==> !StartsAt(s, m, k)
    decreases |s| - from
  {
    if StartsAt(s, from, k) then Some(from)
    else if from == |s| then None
    else FindFrom(s, k, from + 1)
  }

  /** Python's `k in s`. */
  predicate Contains(s: string, k: string) {
    FindFrom(s, k, 0).Some?
  }

  function ReplaceFrom(s: string, k: string, r: string, pos: nat): string
    requires |k| > 0 && pos <= |s|
    decreases |s| - pos
  {
    if pos == |s| then []
    else if StartsAt(s, pos, k) then r + ReplaceFrom(s, k, r, pos + |k|)
    else [s[pos]] + ReplaceFrom(s, k, r, pos + 1)
  }

  /** Python's `s.replace(k, r)` for a non-empty `k`: every occurrence, left to right,
      without overlaps. */
  function ReplaceAll(s: string, k: string, r: string): string
    requires |k| > 0
  {
    ReplaceFrom(s, k, r, 0)
  }

  lemma {:induction false} ReplaceFromSkips(s: string, k: string, r: string, m: nat, i: nat)
    requires |k| > 0 && m <= i <= |s|
    requires forall j :: m <= j < i ==> !StartsAt(s, j, k)
    ensures ReplaceFrom(s, k, r, m) == s[m..i] + ReplaceFrom(s, k, r, i)
    decreases i - m
  {
    if m < i {
      ReplaceFromSkips(s, k, r, m + 1, i);
      var rest := ReplaceFrom(s, k, r, i);
      calc {
        ReplaceFrom(s, k, r, m);
        [s[m]] + ReplaceFrom(s, k, r, m + 1);
        [s[m]] + (s[m + 1..i] + rest);
        ([s[m]] + s[m + 1..i]) + rest;
        { assert s[m..i] == [s[m]] + s[m + 1..i]; }
        s[m..i] + rest;
      }
    }
  }

  lemma {:induction false} ReplaceFromSuffix(s: string, k: string, r: string, j: nat, pos: nat)
    requires |k| > 0 && j <= pos <= |s|
    ensures ReplaceFrom(s, k, r, pos) == ReplaceFrom(s[j..], k, r, pos - j)
    decreases |s| - pos
  {
    var u := s[j..];
    if pos < |s| {
      if pos + |k| <= |s| {
        StartsAtLocal(s, j, |s|, pos, k);
        assert s[j..|s|] == u;
      }
      assert StartsAt(s, pos, k) == StartsAt(u, pos - j, k);
      assert u[pos - j] == s[pos];
      if StartsAt(s, pos, k) {
        ReplaceFromSuffix(s, k, r, j, pos + |k|);
        calc {
          ReplaceFrom(s, k, r, pos);
          r + ReplaceFrom(s, k, r, pos + |k|);
          r + ReplaceFrom(u, k, r, pos - j + |k|);
          ReplaceFrom(u, k, r, pos - j);
        }
      } else {
        ReplaceFromSuffix(s, k, r, j, pos + 1);
        calc {
          ReplaceFrom(s, k, r, pos);
          [s[pos]] + ReplaceFrom(s, k, r, pos + 1);
          [u[pos - j]] + ReplaceFrom(u, k, r, pos - j + 1);
          ReplaceFrom(u, k, r, pos - j);
        }
      }
    }
  }

  /** Replacement cuts at the first occurrence, puts `r` in its place and carries on
      with what follows the occurrence. */
  lemma ReplaceFirstOccurrence(s: string, k: string, r: string)
    requires |k| > 0 && Contains(s, k)
    ensures var i := FindFrom(s, k, 0).value;
      ReplaceAll(s, k, r) == s[..i] + r + ReplaceAll(s[i + |k|..], k, r)
  {
    var i := FindFrom(s, k, 0).value;
    ReplaceFromSkips(s, k, r, 0, i);
    ReplaceFromSuffix(s, k, r, i + |k|, i + |k|);
  }

  /** An occurrence at any position makes `in` hold. */
  lemma OccursContains(s: string, w: string, m: nat)
    requires StartsAt(s, m, w)
    ensures Contains(s, w)
  {
  }

  /** What occurs in a string occurs in it with anything put in front. */
  lemma ContainsShift(a: string, s: string, w: string)
    requires Contains(s, w)
    ensures Contains(a + s, w)
  {
    var m := FindFrom(s, w, 0).value;
    assert (a + s)[|a| + m..|a| + m + |w|] == s[m..m + |w|];
    OccursContains(a + s, w, |a| + m);
  }

  /** A part of a part of `t` is a part of `t`. */
  lemma ContainsTrans(t: string, x: string, w: string)
    requires Contains(t, x) && Contains(x, w)
    ensures Contains(t, w)
  {
    var i := FindFrom(t, x, 0).value;
    var j := FindFrom(x, w, 0).value;
    var u, v := t[i + j..i + j + |w|], x[j..j + |w|];
    forall m | 0 <= m < |w| ensures u[m] == v[m] {
      assert t[i..i + |x|][j + m] == x[j + m];
    }
    assert u == v;
    OccursContains(t, w, i + j);
  }

  /** An occurrence of `w` at `b` that no occurrence of `k` overlaps is still there once
      every `k` from `pos` on is replaced. */
  lemma {:induction false} ReplaceKeeps(s: string, k: string, r: string, w: string, b: nat, pos: nat)
    requires |k| > 0 && pos <= b && StartsAt(s, b, w)
    requires forall a :: pos <= a < b + |w| && b < a + |k| ==> !StartsAt(s, a, k)
    ensures Contains(ReplaceFrom(s, k, r, pos), w)
    decreases b - pos
  {
    if pos == b {
      ReplaceFromSkips(s, k, r, b, b + |w|);
      var rest := ReplaceFrom(s, k, r, b + |w|);
      assert (s[b..b + |w|] + rest)[0..|w|] == w;
      OccursContains(s[b..b + |w|] + rest, w, 0);
    } else if StartsAt(s, pos, k) {
      ReplaceKeeps(s, k, r, w, b, pos + |k|);
      ContainsShift(r, ReplaceFrom(s, k, r, pos + |k|), w);
    } else {
      ReplaceKeeps(s, k, r, w, b, pos + 1);
      ContainsShift([s[pos]], ReplaceFrom(s, k, r, pos + 1), w);
    }
  }
}
