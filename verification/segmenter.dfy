/**
 * The document segmenter: `ClinicalTextDocument.preprocess` and
 * `ClinicalTextDocument.split_sentences`. Sentence boundaries are found on
 * the normalised (lower-cased, single-spaced) text, while each sentence
 * keeps the spans its words had in the original text.
 */
module Segmenter {
  import opened Text
  import opened Tokens

  /** One sentence: its index, its text, its words and their spans in the
      original text, and the span from its first word to its last. */
  datatype Sentence = Sentence(idx: nat, text: string, words: seq<string>, wordSpans: seq<Span>, span: Span)

  /** Characters that end a sentence when they end a word. */
  const TerminationPoints: string := ".!?"

  /** Titles and abbreviations that never end a sentence. */
  const ExceptionWords: seq<string> := ["dr.", "m.d", "mr.", "ms.", "mrs."]

  /** A word closes a sentence iff its last character is a termination
      point and the word is not an exception word. */
  predicate ClosesSentence(w: string)
    requires |w| > 0
  {
    w[|w| - 1] in TerminationPoints && w !in ExceptionWords
  }

  /** The record a sentence's words and spans are gathered into. */
  predicate WellFormed(s: Sentence) {
    && |s.words| > 0
    && |s.wordSpans| == |s.words|
    && s.span == Span(s.wordSpans[0].start, s.wordSpans[|s.wordSpans| - 1].end)
    && s.text == Join(s.words)
  }

  /** No word of the sentence but its last one closes a sentence. */
  predicate OpenUntilLast(s: Sentence) {
    forall j :: 0 <= j < |s.words| - 1 ==> |s.words[j]| > 0 && !ClosesSentence(s.words[j])
  }

  /** The sentence's last word closes it. */
  predicate EndsClosed(s: Sentence) {
    |s.words| > 0 && |s.words[|s.words| - 1]| > 0 && ClosesSentence(s.words[|s.words| - 1])
  }

  /** Sentence indices run consecutively from `idx`. */
  predicate NumberedFrom(ss: seq<Sentence>, idx: nat) {
    forall k :: 0 <= k < |ss| ==> ss[k].idx == idx + k
  }

  /** Every sentence is well formed and only its last word may close it. */
  predicate AllWellFormed(ss: seq<Sentence>) {
    forall k :: 0 <= k < |ss| ==> WellFormed(ss[k]) && OpenUntilLast(ss[k])
  }

  /** Every sentence but the last ends with a closing word. */
  predicate ClosedButLast(ss: seq<Sentence>) {
    forall k :: 0 <= k < |ss| - 1 ==> EndsClosed(ss[k])
  }

  /** The words of all sentences, in order. */
  function AllWords(ss: seq<Sentence>): seq<string> {
    if |ss| == 0 then [] else ss[0].words + AllWords(ss[1..])
  }

  /** The word spans of all sentences, in order. */
  function AllSpans(ss: seq<Sentence>): seq<Span> {
    if |ss| == 0 then [] else ss[0].wordSpans + AllSpans(ss[1..])
  }

  /** `preprocess`: the lower-cased whitespace tokens joined by single
      spaces, so that tokens keep their number and order. */
  function Preprocess(text: string): (r: string)
    ensures r == Join(LowerAll(Split(text)))
    ensures Split(r) == LowerAll(Split(text))
    ensures |Split(r)| == |Split(text)|
  {
    SplitLower(text);
    SplitWords(Lower(text));
    SplitJoin(Split(Lower(text)));
    Join(Split(Lower(text)))
  }

  /** Emits the buffered words as one sentence. */
  function MakeSentence(words: seq<string>, spans: seq<Span>, idx: nat): (s: Sentence)
    requires |words| > 0 && |spans| == |words|
  {
    Sentence(idx, Join(words), words, spans, Span(spans[0].start, spans[|spans| - 1].end))
  }

  /** What the loop of `split_sentences` keeps true: words and spans are
      paired one to one, words are non-empty, and no buffered word closes. */
  predicate CanSegment(words: seq<string>, spans: seq<Span>, curWords: seq<string>, curSpans: seq<Span>) {
    && |words| == |spans| && |curWords| == |curSpans|
    && (forall k :: 0 <= k < |words| ==> |words[k]| > 0)
    && (forall k :: 0 <= k < |curWords| ==> |curWords[k]| > 0 && !ClosesSentence(curWords[k]))
  }

  /** The loop of `split_sentences`, from the current word on: `curWords`
      and `curSpans` are the buffered sentence, `idx` the next index. */
  function Segment(words: seq<string>, spans: seq<Span>, curWords: seq<string>, curSpans: seq<Span>, idx: nat)
    : (r: seq<Sentence>)
    requires CanSegment(words, spans, curWords, curSpans)
    ensures AllWords(r) == curWords + words
    ensures AllSpans(r) == curSpans + spans
    ensures r == [] <==> curWords + words == []
    decreases |words|
  {
    if |words| == 0 then
      if |curWords| > 0 then [MakeSentence(curWords, curSpans, idx)] else []
    else
      var w := words[0];
      var cw := curWords + [w];
      var cs := curSpans + [spans[0]];
      if ClosesSentence(w) then
        var rest := Segment(words[1..], spans[1..], [], [], idx + 1);
        var r := [MakeSentence(cw, cs, idx)] + rest;
        assert r[1..] == rest;
        assert cw + words[1..] == curWords + words;
        assert cs + spans[1..] == curSpans + spans;
        r
      else
        var r := Segment(words[1..], spans[1..], cw, cs, idx);
        assert cw + words[1..] == curWords + words;
        assert cs + spans[1..] == curSpans + spans;
        r
  }

  /** Sentences are numbered consecutively from `idx` in emission order. */
  lemma {:induction false} SegmentIndices(words: seq<string>, spans: seq<Span>, curWords: seq<string>, curSpans: seq<Span>, idx: nat)
    requires CanSegment(words, spans, curWords, curSpans)
    ensures NumberedFrom(Segment(words, spans, curWords, curSpans, idx), idx)
    decreases |words|
  {
    if |words| > 0 {
      var w := words[0];
      var cw := curWords + [w];
      var cs := curSpans + [spans[0]];
      if ClosesSentence(w) {
        SegmentIndices(words[1..], spans[1..], [], [], idx + 1);
        var rest := Segment(words[1..], spans[1..], [], [], idx + 1);
        var r := Segment(words, spans, curWords, curSpans, idx);
        assert r == [MakeSentence(cw, cs, idx)] + rest;
        forall k | 0 <= k < |r| ensures r[k].idx == idx + k {
          if k > 0 {
            assert r[k] == rest[k - 1];
          }
        }
      } else {
        assert Segment(words, spans, curWords, curSpans, idx) == Segment(words[1..], spans[1..], cw, cs, idx);
        SegmentIndices(words[1..], spans[1..], cw, cs, idx);
      }
    }
  }

  /** Every emitted sentence is a well-formed record in which only the last
      word may close a sentence. */
  lemma {:induction false} SegmentWellFormed(words: seq<string>, spans: seq<Span>, curWords: seq<string>, curSpans: seq<Span>, idx: nat)
    requires CanSegment(words, spans, curWords, curSpans)
    ensures AllWellFormed(Segment(words, spans, curWords, curSpans, idx))
    decreases |words|
  {
    if |words| > 0 {
      var w := words[0];
      var cw := curWords + [w];
      var cs := curSpans + [spans[0]];
      if ClosesSentence(w) {
        SegmentWellFormed(words[1..], spans[1..], [], [], idx + 1);
        var rest := Segment(words[1..], spans[1..], [], [], idx + 1);
        var r := Segment(words, spans, curWords, curSpans, idx);
        var s := MakeSentence(cw, cs, idx);
        assert r == [s] + rest;
        assert OpenUntilLast(s) by {
          forall j | 0 <= j < |cw| - 1 ensures |cw[j]| > 0 && !ClosesSentence(cw[j]) {
            assert cw[j] == curWords[j];
          }
        }
        forall k | 0 <= k < |r| ensures WellFormed(r[k]) && OpenUntilLast(r[k]) {
          if k > 0 {
            assert r[k] == rest[k - 1];
          }
        }
      } else {
        assert Segment(words, spans, curWords, curSpans, idx) == Segment(words[1..], spans[1..], cw, cs, idx);
        SegmentWellFormed(words[1..], spans[1..], cw, cs, idx);
      }
    }
  }

  /** Every sentence but the last ends with a word that closes it. */
  lemma {:induction false} SegmentClosed(words: seq<string>, spans: seq<Span>, curWords: seq<string>, curSpans: seq<Span>, idx: nat)
    requires CanSegment(words, spans, curWords, curSpans)
    ensures ClosedButLast(Segment(words, spans, curWords, curSpans, idx))
    decreases |words|
  {
    if |words| > 0 {
      var w := words[0];
      var cw := curWords + [w];
      var cs := curSpans + [spans[0]];
      if ClosesSentence(w) {
        SegmentClosed(words[1..], spans[1..], [], [], idx + 1);
        var rest := Segment(words[1..], spans[1..], [], [], idx + 1);
        var r := Segment(words, spans, curWords, curSpans, idx);
        assert r == [MakeSentence(cw, cs, idx)] + rest;
        forall k | 0 <= k < |r| - 1 ensures EndsClosed(r[k]) {
          if k > 0 {
            assert r[k] == rest[k - 1];
          }
        }
      } else {
        assert Segment(words, spans, curWords, curSpans, idx) == Segment(words[1..], spans[1..], cw, cs, idx);
        SegmentClosed(words[1..], spans[1..], cw, cs, idx);
      }
    }
  }

  /** `split_sentences(text, spans)`: `zip` pairs the words of `text` with
      the spans and stops at the shorter of the two. */
  function SplitSentences(text: string, spans: seq<Span>): (r: seq<Sentence>)
    ensures var n := if |Split(text)| < |spans| then |Split(text)| else |spans|;
            && AllWords(r) == Split(text)[..n]
            && AllSpans(r) == spans[..n]
    ensures NumberedFrom(r, 0)
    ensures AllWellFormed(r)
    ensures ClosedButLast(r)
    ensures r == [] <==> AllSpace(text) || spans == []
  {
    var words := Split(text);
    var n := if |words| < |spans| then |words| else |spans|;
    SplitWords(text);
    SplitEmpty(text);
    SegmentIndices(words[..n], spans[..n], [], [], 0);
    SegmentWellFormed(words[..n], spans[..n], [], [], 0);
    SegmentClosed(words[..n], spans[..n], [], [], 0);
    Segment(words[..n], spans[..n], [], [], 0)
  }

  /** "dr." does not end the first sentence; "came." does. */
  lemma TitleDoesNotSplit()
    ensures var r := Segment(["dr.", "lee", "came.", "ok"],
                             [Span(0, 3), Span(4, 7), Span(8, 13), Span(14, 16)], [], [], 0);
            && |r| == 2
            && r[0].words == ["dr.", "lee", "came."] && r[0].span == Span(0, 13)
            && r[1].words == ["ok"] && r[1].span == Span(14, 16) && r[1].idx == 1
  {
    assert "dr." in ExceptionWords;
    assert !ClosesSentence("lee") && ClosesSentence("came.") && !ClosesSentence("ok");
  }
}
