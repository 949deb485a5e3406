/**
 * String primitives of the Python runtime that the segmenter and the
 * annotator rely on: whitespace tokenisation (`str.split()` with no
 * argument), `' '.join`, `str.lower`, `str.title`, substring containment
 * and slicing with Python's index clamping.
 */
module Text {

  /** The characters Python's `str.isspace()` accepts; `str.split()` and the
      regular expression `\s` separate tokens on exactly these. */
  predicate IsSpace(c: char) {
    || c == ' '
    || ('\t' <= c <= '\r')
    || ('\U{1C}' <= c <= '\U{1F}')
    || c == '\U{85}' || c == '\U{A0}' || c == '\U{1680}'
    || ('\U{2000}' <= c <= '\U{200A}')
    || c == '\U{2028}' || c == '\U{2029}' || c == '\U{202F}' || c == '\U{205F}' || c == '\U{3000}'
  }

  /** A token of whitespace tokenisation: non-empty and free of whitespace. */
  predicate IsWord(w: string) {
    |w| > 0 && forall i :: 0 <= i < |w| ==> !IsSpace(w[i])
  }

  predicate AllSpace(s: string) {
    forall i :: 0 <= i < |s| ==> IsSpace(s[i])
  }

  /* ---------------------------------------------------------------- case */

  predicate IsUpper(c: char) { 'A' <= c <= 'Z' }
  predicate IsLower(c: char) { 'a' <= c <= 'z' }

  /** A cased character in the sense of `str.title()` (ASCII letters here). */
  predicate IsCased(c: char) { IsUpper(c) || IsLower(c) }

  function LowerChar(c: char): char {
    if IsUpper(c) then (c as int + 32) as char else c
  }

  function UpperChar(c: char): char {
    if IsLower(c) then (c as int - 32) as char else c
  }

  /** `str.lower()`, character by character. */
  function Lower(s: string): (r: string)
    ensures |r| == |s|
  {
    seq(|s|, i requires 0 <= i < |s| => LowerChar(s[i]))
  }

  /** `str.title()`: a cased character is upper-cased when it starts the
      string or follows an uncased character, and lower-cased otherwise. */
  function Title(s: string): (r: string)
    ensures |r| == |s|
  {
    seq(|s|, i requires 0 <= i < |s| =>
      if i == 0 || !IsCased(s[i - 1]) then UpperChar(s[i]) else LowerChar(s[i]))
  }

  /** A word of lower-case letters is title-cased by capitalising its
      first letter. */
  lemma TitleWord(s: string)
    requires |s| > 0 && forall i :: 0 <= i < |s| ==> IsLower(s[i])
    ensures Title(s) == [UpperChar(s[0])] + s[1..]
  {
    var t := [UpperChar(s[0])] + s[1..];
    forall i | 0 <= i < |s| ensures Title(s)[i] == t[i] {
      if i > 0 {
        assert IsCased(s[i - 1]) && t[i] == s[i];
      }
    }
  }

  /** A slash is uncased, so the words on either side are title-cased on
      their own. */
  lemma TitleSlash(a: string, b: string)
    requires |a| > 0 && forall i :: 0 <= i < |a| ==> IsLower(a[i])
    ensures Title(a + "/" + b) == Title(a) + "/" + Title(b)
  {
    var s := a + "/" + b;
    var t := Title(a) + "/" + Title(b);
    forall i | 0 <= i < |s| ensures Title(s)[i] == t[i] {
      if i < |a| {
        assert s[i] == a[i];
        if i > 0 {
          assert s[i - 1] == a[i - 1];
        }
      } else if i == |a| {
        assert s[i] == '/' && IsCased(s[i - 1]);
      } else {
        assert s[i] == b[i - |a| - 1];
        if i == |a| + 1 {
          assert s[i - 1] == '/';
        } else {
          assert s[i - 1] == b[i - |a| - 2];
        }
      }
    }
  }

  lemma LowerKeepsSpace(c: char)
    ensures IsSpace(LowerChar(c)) == IsSpace(c)
  {
  }

  /* --------------------------------------------------------- tokenising */

  /** Length of the run of non-whitespace characters that starts `s`. */
  function WordLen(s: string): (n: nat)
    ensures n <= |s|
    ensures forall i :: 0 <= i < n ==> !IsSpace(s[i])
    ensures n < |s| ==> IsSpace(s[n])
    decreases |s|
  {
    if |s| == 0 || IsSpace(s[0]) then 0 else 1 + WordLen(s[1..])
  }

  /** `str.split()` with no separator: the maximal runs of non-whitespace
      characters, in order. */
  function Split(s: string): seq<string>
    decreases |s|
  {
    if |s| == 0 then []
    else if IsSpace(s[0]) then Split(s[1..])
    else
      var n := WordLen(s);
      [s[..n]] + Split(s[n..])
  }

  /** `' '.join(ws)`. */
  function Join(ws: seq<string>): string {
    if |ws| == 0 then ""
    else if |ws| == 1 then ws[0]
    else ws[0] + " " + Join(ws[1..])
  }

  /** Every word lower-cased. */
  function LowerAll(ws: seq<string>): (r: seq<string>)
    ensures |r| == |ws|
  {
    seq(|ws|, i requires 0 <= i < |ws| => Lower(ws[i]))
  }

  /* ------------------------------------------------------- substrings */

  /** Python's `sub in s` on strings. */
  predicate Contains(s: string, sub: string) {
    exists i :: 0 <= i <= |s| && OccursAt(s, sub, i)
  }

  /** `sub` occurs in `s` starting at position `i`. */
  predicate OccursAt(s: string, sub: string, i: int) {
    0 <= i && i + |sub| <= |s| && s[i..i + |sub|] == sub
  }

  /** Python's normalisation of one slice bound against a length `n`. */
  function SliceBound(i: int, n: nat): (r: nat)
    ensures r <= n
    ensures 0 <= i <= n ==> r == i
  {
    if i < 0 then (if i + n < 0 then 0 else i + n)
    else if i > n then n
    else i
  }

  /** Python's `s[a:b]`: negative bounds count from the end, out-of-range
      bounds are clamped, and an inverted range is empty. */
  function PySlice(s: string, a: int, b: int): (r: string)
    ensures |r| <= |s|
    ensures 0 <= a <= b <= |s| ==> r == s[a..b]
    ensures 0 <= b <= a ==> r == ""
  {
    var lo := SliceBound(a, |s|);
    var hi := SliceBound(b, |s|);
    if lo < hi then s[lo..hi] else ""
  }

  /* ------------------------------------------------------------ lemmas */

  /** Every token of `str.split()` is a non-empty run of non-whitespace. */
  lemma {:induction false} SplitWords(s: string)
    ensures forall k :: 0 <= k < |Split(s)| ==> IsWord(Split(s)[k])
    decreases |s|
  {
    if |s| == 0 {
    } else if IsSpace(s[0]) {
      SplitWords(s[1..]);
    } else {
      SplitWords(s[WordLen(s)..]);
    }
  }

  /** Text yields no tokens exactly when it is empty or whitespace only. */
  lemma {:induction false} SplitEmpty(s: string)
    ensures Split(s) == [] <==> AllSpace(s)
    decreases |s|
  {
    if |s| == 0 {
    } else if IsSpace(s[0]) {
      SplitEmpty(s[1..]);
      if AllSpace(s[1..]) {
        forall i | 0 <= i < |s| ensures IsSpace(s[i]) {
          if i > 0 { assert s[i] == s[1..][i - 1]; }
        }
      }
    }
  }

  /** A word followed by nothing or by whitespace is split off whole. */
  lemma {:induction false} SplitLeadingWord(w: string, rest: string)
    requires IsWord(w)
    requires |rest| == 0 || IsSpace(rest[0])
    ensures Split(w + rest) == [w] + Split(rest)
  {
    var s := w + rest;
    var n := WordLen(s);
    assert forall i :: 0 <= i < |w| ==> s[i] == w[i];
    assert |w| < |s| ==> s[|w|] == rest[0];
    assert n == |w|;
    assert s[..n] == w;
    assert s[n..] == rest;
  }

  /** Splitting the single-space join of words gives the words back. */
  lemma {:induction false} SplitJoin(ws: seq<string>)
    requires forall k :: 0 <= k < |ws| ==> IsWord(ws[k])
    ensures Split(Join(ws)) == ws
    decreases |ws|
  {
    if |ws| == 0 {
    } else if |ws| == 1 {
      SplitLeadingWord(ws[0], "");
      assert ws[0] + "" == ws[0];
    } else {
      var tail := " " + Join(ws[1..]);
      assert Join(ws) == ws[0] + tail;
      SplitLeadingWord(ws[0], tail);
      assert tail[1..] == Join(ws[1..]);
      SplitJoin(ws[1..]);
      assert ws == [ws[0]] + ws[1..];
    }
  }

  lemma LowerSlice(s: string, i: nat, j: nat)
    requires i <= j <= |s|
    ensures Lower(s)[i..j] == Lower(s[i..j])
  {
  }

  lemma LowerWordLen(s: string)
    ensures WordLen(Lower(s)) == WordLen(s)
  {
    var l := Lower(s);
    forall i | 0 <= i < |s| ensures IsSpace(l[i]) == IsSpace(s[i]) {
      LowerKeepsSpace(s[i]);
    }
  }

  lemma LowerAllCons(w: string, ws: seq<string>)
    ensures LowerAll([w] + ws) == [Lower(w)] + LowerAll(ws)
  {
  }

  /** Lower-casing never turns whitespace into a word character or back,
      so it commutes with whitespace tokenisation. */
  lemma {:induction false} SplitLower(s: string)
    ensures Split(Lower(s)) == LowerAll(Split(s))
    decreases |s|
  {
    var l := Lower(s);
    if |s| == 0 {
    } else if IsSpace(s[0]) {
      LowerKeepsSpace(s[0]);
      assert IsSpace(l[0]);
      LowerSlice(s, 1, |s|);
      assert l[1..] == Lower(s[1..]);
      SplitLower(s[1..]);
    } else {
      LowerKeepsSpace(s[0]);
      var n := WordLen(s);
      assert !IsSpace(l[0]);
      LowerWordLen(s);
      LowerSlice(s, 0, n);
      assert l[..n] == Lower(s[..n]);
      LowerSlice(s, n, |s|);
      assert l[n..] == Lower(s[n..]);
      assert Split(l) == [l[..n]] + Split(l[n..]);
      SplitLower(s[n..]);
      LowerAllCons(s[..n], Split(s[n..]));
    }
  }
}
