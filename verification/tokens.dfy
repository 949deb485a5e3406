/**
 * Character spans of whitespace tokens: the model of
 * `WhitespaceTokenizer().span_tokenize(text)`, which yields one
 * `(start, end)` pair per maximal run of non-whitespace characters.
 */
module Tokens {
  import opened Text

  /** A half-open character range `[start, end)` into some text. */
  datatype Span = Span(start: int, end: int)

  /** The span lies inside a text of length `n`. */
  predicate SpanIn(sp: Span, n: int) {
    0 <= sp.start <= sp.end <= n
  }

  /** Spans are non-empty, non-negative and in text order without overlap. */
  predicate Ordered(spans: seq<Span>) {
    && (forall k :: 0 <= k < |spans| ==> 0 <= spans[k].start < spans[k].end)
    && (forall i, j :: 0 <= i < j < |spans| ==> spans[i].end <= spans[j].start)
  }

  /** Each span selects exactly the token of the same index from `text`. */
  predicate Covers(text: string, tokens: seq<string>, spans: seq<Span>) {
    && |tokens| == |spans|
    && forall k :: 0 <= k < |spans| ==>
         SpanIn(spans[k], |text|) && text[spans[k].start..spans[k].end] == tokens[k]
  }

  /** Spans of the tokens of `s`, which itself starts at offset `off`. */
  function SpansFrom(s: string, off: nat): seq<Span>
    decreases |s|
  {
    if |s| == 0 then []
    else if IsSpace(s[0]) then SpansFrom(s[1..], off + 1)
    else
      var n := WordLen(s);
      [Span(off, off + n)] + SpansFrom(s[n..], off + n)
  }

  /** `WhitespaceTokenizer().span_tokenize(text)`, as a list. */
  function TextSpans(text: string): seq<Span> {
    SpansFrom(text, 0)
  }

  /** Every span found in `s` lies at or after `off` and inside `s`. */
  lemma {:induction false} SpansFromBounds(s: string, off: nat)
    ensures |SpansFrom(s, off)| == |Split(s)|
    ensures forall k :: 0 <= k < |SpansFrom(s, off)| ==>
              off <= SpansFrom(s, off)[k].start < SpansFrom(s, off)[k].end <= off + |s|
    decreases |s|
  {
    if |s| == 0 {
    } else if IsSpace(s[0]) {
      SpansFromBounds(s[1..], off + 1);
    } else {
      SpansFromBounds(s[WordLen(s)..], off + WordLen(s));
    }
  }

  lemma OrderedCons(h: Span, tail: seq<Span>)
    requires Ordered(tail)
    requires 0 <= h.start < h.end
    requires forall k :: 0 <= k < |tail| ==> h.end <= tail[k].start
    ensures Ordered([h] + tail)
  {
    var sp := [h] + tail;
    forall i, j | 0 <= i < j < |sp| ensures sp[i].end <= sp[j].start {
      assert sp[j] == tail[j - 1];
      if i > 0 {
        assert sp[i] == tail[i - 1];
      }
    }
  }

  /** Spans found in `s` are ordered. */
  lemma {:induction false} SpansFromOrdered(s: string, off: nat)
    ensures Ordered(SpansFrom(s, off))
    decreases |s|
  {
    if |s| == 0 {
    } else if IsSpace(s[0]) {
      SpansFromOrdered(s[1..], off + 1);
    } else {
      var n := WordLen(s);
      SpansFromOrdered(s[n..], off + n);
      SpansFromBounds(s[n..], off + n);
      OrderedCons(Span(off, off + n), SpansFrom(s[n..], off + n));
    }
  }

  /** `spans` select `tokens` from `s`, a text that starts at offset `off`. */
  predicate CoversAt(s: string, off: int, tokens: seq<string>, spans: seq<Span>) {
    && |tokens| == |spans|
    && forall k :: 0 <= k < |spans| ==>
         && off <= spans[k].start <= spans[k].end <= off + |s|
         && s[spans[k].start - off..spans[k].end - off] == tokens[k]
  }

  lemma CoversAtDrop(s: string, d: nat, off: int, tokens: seq<string>, spans: seq<Span>)
    requires d <= |s|
    requires CoversAt(s[d..], off + d, tokens, spans)
    ensures CoversAt(s, off, tokens, spans)
  {
    forall k | 0 <= k < |spans|
      ensures s[spans[k].start - off..spans[k].end - off] == tokens[k]
    {
      assert s[d..][spans[k].start - off - d..spans[k].end - off - d]
          == s[spans[k].start - off..spans[k].end - off];
    }
  }

  lemma CoversAtCons(s: string, n: nat, off: int, tokens: seq<string>, spans: seq<Span>)
    requires n <= |s|
    requires CoversAt(s, off, tokens, spans)
    ensures CoversAt(s, off, [s[..n]] + tokens, [Span(off, off + n)] + spans)
  {
    var ts := [s[..n]] + tokens;
    var ss := [Span(off, off + n)] + spans;
    forall k | 0 <= k < |ss|
      ensures off <= ss[k].start <= ss[k].end <= off + |s|
      ensures s[ss[k].start - off..ss[k].end - off] == ts[k]
    {
      if k > 0 {
        assert ss[k] == spans[k - 1] && ts[k] == tokens[k - 1];
      }
    }
  }

  /** Span `k` of `s` selects token `k` of `s.split()`. */
  lemma {:induction false} SpansFromCover(s: string, off: nat)
    ensures CoversAt(s, off, Split(s), SpansFrom(s, off))
    decreases |s|
  {
    if |s| == 0 {
    } else if IsSpace(s[0]) {
      assert Split(s) == Split(s[1..]);
      assert SpansFrom(s, off) == SpansFrom(s[1..], off + 1);
      SpansFromCover(s[1..], off + 1);
      CoversAtDrop(s, 1, off, Split(s[1..]), SpansFrom(s[1..], off + 1));
    } else {
      var n := WordLen(s);
      SpansFromCover(s[n..], off + n);
      CoversAtDrop(s, n, off, Split(s[n..]), SpansFrom(s[n..], off + n));
      CoversAtCons(s, n, off, Split(s[n..]), SpansFrom(s[n..], off + n));
      assert Split(s) == [s[..n]] + Split(s[n..]);
      assert SpansFrom(s, off) == [Span(off, off + n)] + SpansFrom(s[n..], off + n);
    }
  }

  /** The tokenizer's spans are ordered, and each selects from `text` the
      token of the same index in `text.split()`. */
  lemma TextSpansCover(text: string)
    ensures Covers(text, Split(text), TextSpans(text))
    ensures Ordered(TextSpans(text))
  {
    SpansFromCover(text, 0);
    SpansFromOrdered(text, 0);
    var sp := TextSpans(text);
    forall k | 0 <= k < |sp| ensures text[sp[k].start..sp[k].end] == Split(text)[k] {
      assert text[sp[k].start - 0..sp[k].end - 0] == Split(text)[k];
    }
  }
}
