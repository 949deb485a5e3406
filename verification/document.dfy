/**
 * A clinical text document: the constructor pipeline of
 * `ClinicalTextDocument` (token spans, preprocessing, sentence splitting)
 * and the `annotate` pass that turns every marked target of every sentence
 * into an annotation.
 */
module ClinicalDocument {
  import opened Wrappers
  import opened Text
  import opened Tokens
  import opened Segmenter
  import opened Annotations

  /** A document: its raw text and report id, the token spans of the raw
      text, the preprocessed text, its sentences, and what `annotate` has
      appended so far. */
  datatype Document = Document(
    rawText: string,
    rptId: string,
    originalSpans: seq<Span>,
    preprocessedText: string,
    sentences: seq<Sentence>,
    annotations: seq<Annotation>,
    sentencesWithAnnotations: seq<nat>)

  /* ------------------------------------------------------ construction */

  /** Each span of `spans` selects from `text` a token whose lower-cased
      form is the word of the same index. */
  predicate LowerCovers(text: string, words: seq<string>, spans: seq<Span>) {
    && |words| == |spans|
    && forall k :: 0 <= k < |spans| ==>
         SpanIn(spans[k], |text|) && Lower(text[spans[k].start..spans[k].end]) == words[k]
  }

  /** A sentence's words come from the raw text at their spans, and its
      span lies in the raw text. */
  predicate SentenceAligned(text: string, s: Sentence) {
    && LowerCovers(text, s.words, s.wordSpans)
    && SpanIn(s.span, |text|)
  }

  lemma LowerCoversSplit(text: string, w1: seq<string>, w2: seq<string>, s1: seq<Span>, s2: seq<Span>)
    requires |w1| == |s1|
    requires LowerCovers(text, w1 + w2, s1 + s2)
    ensures LowerCovers(text, w1, s1) && LowerCovers(text, w2, s2)
  {
    forall k | 0 <= k < |s1|
      ensures SpanIn(s1[k], |text|) && Lower(text[s1[k].start..s1[k].end]) == w1[k]
    {
      assert (s1 + s2)[k] == s1[k] && (w1 + w2)[k] == w1[k];
    }
    forall k | 0 <= k < |s2|
      ensures SpanIn(s2[k], |text|) && Lower(text[s2[k].start..s2[k].end]) == w2[k]
    {
      assert (s1 + s2)[|s1| + k] == s2[k] && (w1 + w2)[|w1| + k] == w2[k];
    }
  }

  lemma OrderedSplit(s1: seq<Span>, s2: seq<Span>)
    requires Ordered(s1 + s2)
    ensures Ordered(s1) && Ordered(s2)
  {
    var s := s1 + s2;
    forall i, j | 0 <= i < j < |s1| ensures s1[i].end <= s1[j].start {
      assert s[i] == s1[i] && s[j] == s1[j];
    }
    forall k | 0 <= k < |s1| ensures 0 <= s1[k].start < s1[k].end {
      assert s[k] == s1[k];
    }
    forall i, j | 0 <= i < j < |s2| ensures s2[i].end <= s2[j].start {
      assert s[|s1| + i] == s2[i] && s[|s1| + j] == s2[j];
    }
    forall k | 0 <= k < |s2| ensures 0 <= s2[k].start < s2[k].end {
      assert s[|s1| + k] == s2[k];
    }
  }

  /** A well-formed sentence whose word spans are ordered and lie in the
      text has its sentence span in the text too. */
  lemma SentenceSpanIn(text: string, s: Sentence)
    requires WellFormed(s)
    requires LowerCovers(text, s.words, s.wordSpans)
    requires Ordered(s.wordSpans)
    ensures SpanIn(s.span, |text|)
  {
    var n := |s.wordSpans|;
    if n > 1 {
      assert s.wordSpans[0].end <= s.wordSpans[n - 1].start;
    }
  }

  /** Sentences cut from aligned, ordered words and spans are aligned. */
  lemma {:induction false} SentencesAligned(text: string, ss: seq<Sentence>)
    requires AllWellFormed(ss)
    requires LowerCovers(text, AllWords(ss), AllSpans(ss))
    requires Ordered(AllSpans(ss))
    ensures forall k :: 0 <= k < |ss| ==> SentenceAligned(text, ss[k])
  {
    if |ss| > 0 {
      var s := ss[0];
      assert AllWellFormed(ss[1..]) by {
        forall k | 0 <= k < |ss[1..]| ensures WellFormed(ss[1..][k]) && OpenUntilLast(ss[1..][k]) {
          assert ss[1..][k] == ss[k + 1];
        }
      }
      LowerCoversSplit(text, s.words, AllWords(ss[1..]), s.wordSpans, AllSpans(ss[1..]));
      OrderedSplit(s.wordSpans, AllSpans(ss[1..]));
      SentenceSpanIn(text, s);
      SentencesAligned(text, ss[1..]);
      forall k | 0 <= k < |ss| ensures SentenceAligned(text, ss[k]) {
        if k > 0 {
          assert ss[k] == ss[1..][k - 1];
        }
      }
    }
  }

  /** The raw token spans select tokens whose lower-cased forms are the
      words of the preprocessed text. */
  lemma TextSpansLowerCover(text: string)
    ensures LowerCovers(text, LowerAll(Split(text)), TextSpans(text))
    ensures Ordered(TextSpans(text))
  {
    TextSpansCover(text);
  }

  /** `ClinicalTextDocument(text, rpt_id)`: spans of the raw text, the
      preprocessed text, and its sentences carrying raw-text spans. */
  function NewDocument(text: string, rptId: string): (d: Document)
    ensures d.rawText == text && d.rptId == rptId
    ensures d.annotations == [] && d.sentencesWithAnnotations == [] && NamesSentences(d)
    ensures Covers(text, Split(text), d.originalSpans) && Ordered(d.originalSpans)
    ensures d.preprocessedText == Join(LowerAll(Split(text)))
    ensures Split(d.preprocessedText) == LowerAll(Split(text))
    ensures AllWords(d.sentences) == LowerAll(Split(text))
    ensures AllSpans(d.sentences) == d.originalSpans
    ensures NumberedFrom(d.sentences, 0) && AllWellFormed(d.sentences) && ClosedButLast(d.sentences)
    ensures forall k :: 0 <= k < |d.sentences| ==> SentenceAligned(text, d.sentences[k])
    ensures d.sentences == [] <==> AllSpace(text)
  {
    var spans := TextSpans(text);
    var pre := Preprocess(text);
    var sentences := SplitSentences(pre, spans);
    TextSpansLowerCover(text);
    TextSpansCover(text);
    assert Split(pre)[..|spans|] == Split(pre);
    assert spans[..|spans|] == spans;
    SplitEmpty(text);
    SplitEmpty(pre);
    SentencesAligned(text, sentences);
    Document(text, rptId, spans, pre, sentences, [], [])
  }

  /* ---------------------------------------------------------- annotate */

  /** What one run of the annotation loop appended, and the error that
      stopped it, if any. */
  datatype Outcome = Outcome(added: seq<Annotation>, error: Option<AnnotationError>)

  /** The result of `annotate`: the document afterwards and the error it
      raised, if any. */
  datatype Annotated = Annotated(doc: Document, raised: Option<AnnotationError>)

  /** `o` is what processing `built` in order yields when the first
      failure stops the pass: every success up to the first failure, and
      that failure's error. */
  predicate Replays(built: seq<Result<Annotation, AnnotationError>>, o: Outcome) {
    && |o.added| <= |built|
    && (forall i :: 0 <= i < |o.added| ==> built[i] == Success(o.added[i]))
    && (o.error.None? ==> |o.added| == |built|)
    && (o.error.Some? ==> |o.added| < |built| && built[|o.added|] == Failure(o.error.value))
  }

  lemma ReplaysAfterSuccess(a: Annotation, rest: seq<Result<Annotation, AnnotationError>>, o: Outcome)
    requires Replays(rest, o)
    ensures Replays([Success(a)] + rest, Outcome([a] + o.added, o.error))
  {
    var built := [Success(a)] + rest;
    var added := [a] + o.added;
    forall i | 0 <= i < |added| ensures built[i] == Success(added[i]) {
      if i > 0 {
        assert built[i] == rest[i - 1] && added[i] == o.added[i - 1];
      }
    }
    if o.error.Some? {
      assert built[|added|] == rest[|o.added|];
    }
  }

  lemma ReplaysAppend(b1: seq<Result<Annotation, AnnotationError>>, o1: Outcome,
                      b2: seq<Result<Annotation, AnnotationError>>, o2: Outcome)
    requires Replays(b1, o1)
    requires o1.error.None? ==> Replays(b2, o2)
    ensures o1.error.None? ==> Replays(b1 + b2, Outcome(o1.added + o2.added, o2.error))
    ensures o1.error.Some? ==> Replays(b1 + b2, o1)
  {
    var built := b1 + b2;
    if o1.error.None? {
      var added := o1.added + o2.added;
      forall i | 0 <= i < |added| ensures built[i] == Success(added[i]) {
        if i < |o1.added| {
          assert built[i] == b1[i] && added[i] == o1.added[i];
        } else {
          assert built[i] == b2[i - |b1|] && added[i] == o2.added[i - |o1.added|];
        }
      }
      if o2.error.Some? {
        assert built[|added|] == b2[|o2.added|];
      }
    } else {
      forall i | 0 <= i < |o1.added| ensures built[i] == Success(o1.added[i]) {
        assert built[i] == b1[i];
      }
      assert built[|o1.added|] == b1[|o1.added|];
    }
  }

  /** The outcome of `from_markup` with the sentence number recorded on
      success. */
  function Tag(r: Result<Annotation, AnnotationError>, k: nat): (t: Result<Annotation, AnnotationError>)
    ensures t.Success? <==> r.Success?
    ensures t.Success? ==> t.value == r.value.(sentenceNum := Some(k))
    ensures t.Failure? ==> t.error == r.error
  {
    match r
    case Success(a) => Success(a.(sentenceNum := Some(k)))
    case Failure(e) => Failure(e)
  }

  /** What `from_markup` makes of each target of sentence `k`. */
  function BuildAll(ss: seq<Sentence>, k: nat, targets: seq<Target>): seq<Result<Annotation, AnnotationError>>
    requires k < |ss|
  {
    if |targets| == 0 then []
    else [BuildOne(ss, (k, targets[0]))] + BuildAll(ss, k, targets[1..])
  }

  /** What `from_markup` makes of every target the engine marks, sentence
      by sentence from `k`. */
  function BuildFrom(ss: seq<Sentence>, engine: string -> Markup, k: nat): seq<Result<Annotation, AnnotationError>>
    decreases |ss| - k
  {
    if k >= |ss| then []
    else BuildAll(ss, k, engine(ss[k].text).targets) + BuildFrom(ss, engine, k + 1)
  }

  /** The inner loop of `annotate` over the targets of one sentence,
      stopping at the first target `from_markup` rejects. */
  function AnnotateTargets(ss: seq<Sentence>, k: nat, targets: seq<Target>): (o: Outcome)
    requires k < |ss|
    ensures Replays(BuildAll(ss, k, targets), o)
    decreases |targets|
  {
    if |targets| == 0 then Outcome([], None)
    else
      match FromMarkup(targets[0], ss[k].text, ss[k].span)
      case Failure(e) => Outcome([], Some(e))
      case Success(a) =>
        var rest := AnnotateTargets(ss, k, targets[1..]);
        ReplaysAfterSuccess(a.(sentenceNum := Some(k)), BuildAll(ss, k, targets[1..]), rest);
        Outcome([a.(sentenceNum := Some(k))] + rest.added, rest.error)
  }

  /** The outer loop of `annotate` from sentence `k` on: the sentence's
      text goes to the engine, its marked targets become annotations, and
      the first rejected target ends the whole pass. */
  function AnnotateFrom(ss: seq<Sentence>, engine: string -> Markup, k: nat): (o: Outcome)
    ensures Replays(BuildFrom(ss, engine, k), o)
    decreases |ss| - k
  {
    if k >= |ss| then Outcome([], None)
    else
      var here := AnnotateTargets(ss, k, engine(ss[k].text).targets);
      if here.error.Some? then
        ReplaysAppend(BuildAll(ss, k, engine(ss[k].text).targets), here,
                      BuildFrom(ss, engine, k + 1), Outcome([], None));
        here
      else
        var rest := AnnotateFrom(ss, engine, k + 1);
        ReplaysAppend(BuildAll(ss, k, engine(ss[k].text).targets), here,
                      BuildFrom(ss, engine, k + 1), rest);
        Outcome(here.added + rest.added, rest.error)
  }

  /** Sentence numbers of annotations that carry one. */
  function SentenceNums(anns: seq<Annotation>): (r: seq<nat>)
    requires forall i :: 0 <= i < |anns| ==> anns[i].sentenceNum.Some?
    ensures |r| == |anns|
    ensures forall i :: 0 <= i < |anns| ==> anns[i].sentenceNum == Some(r[i])
  {
    seq(|anns|, i requires 0 <= i < |anns| => anns[i].sentenceNum.value)
  }

  /** Every annotation the pass builds carries a sentence number. */
  lemma {:induction false} BuildAllNumbered(ss: seq<Sentence>, k: nat, targets: seq<Target>)
    requires k < |ss|
    ensures forall i :: 0 <= i < |BuildAll(ss, k, targets)| && BuildAll(ss, k, targets)[i].Success? ==>
              BuildAll(ss, k, targets)[i].value.sentenceNum == Some(k)
  {
    if |targets| > 0 {
      BuildAllNumbered(ss, k, targets[1..]);
    }
  }

  lemma {:induction false} BuildFromNumbered(ss: seq<Sentence>, engine: string -> Markup, k: nat)
    ensures forall i :: 0 <= i < |BuildFrom(ss, engine, k)| && BuildFrom(ss, engine, k)[i].Success? ==>
              exists n :: k <= n < |ss| && BuildFrom(ss, engine, k)[i].value.sentenceNum == Some(n)
    decreases |ss| - k
  {
    if k < |ss| {
      var here := BuildAll(ss, k, engine(ss[k].text).targets);
      BuildAllNumbered(ss, k, engine(ss[k].text).targets);
      BuildFromNumbered(ss, engine, k + 1);
      var b := BuildFrom(ss, engine, k);
      forall i | 0 <= i < |b| && b[i].Success?
        ensures exists n :: k <= n < |ss| && b[i].value.sentenceNum == Some(n)
      {
        if i < |here| {
          assert b[i] == here[i];
          assert k <= k < |ss| && b[i].value.sentenceNum == Some(k);
        } else {
          assert b[i] == BuildFrom(ss, engine, k + 1)[i - |here|];
        }
      }
    }
  }

  /** `annotate(model)`: appends one annotation, and its sentence number,
      per marked target in sentence order; an unrecognised or missing
      category raises, leaving what was appended before it in place. */
  function Annotate(d: Document, engine: string -> Markup): (r: Annotated)
    ensures r.doc == d.(annotations := r.doc.annotations,
                        sentencesWithAnnotations := r.doc.sentencesWithAnnotations)
    ensures |d.annotations| <= |r.doc.annotations|
    ensures r.doc.annotations[..|d.annotations|] == d.annotations
    ensures Replays(BuildFrom(d.sentences, engine, 0),
                    Outcome(r.doc.annotations[|d.annotations|..], r.raised))
    ensures |r.doc.sentencesWithAnnotations| - |d.sentencesWithAnnotations|
            == |r.doc.annotations| - |d.annotations|
    ensures r.doc.sentencesWithAnnotations[..|d.sentencesWithAnnotations|] == d.sentencesWithAnnotations
    ensures forall i :: |d.annotations| <= i < |r.doc.annotations| ==>
              r.doc.annotations[i].sentenceNum
                == Some(r.doc.sentencesWithAnnotations[i - |d.annotations| + |d.sentencesWithAnnotations|])
  {
    var o := AnnotateFrom(d.sentences, engine, 0);
    BuildFromNumbered(d.sentences, engine, 0);
    var nums := SentenceNums(o.added);
    var annotations := d.annotations + o.added;
    var withAnnotations := d.sentencesWithAnnotations + nums;
    assert annotations[|d.annotations|..] == o.added;
    assert annotations[..|d.annotations|] == d.annotations;
    assert withAnnotations[..|d.sentencesWithAnnotations|] == d.sentencesWithAnnotations;
    Annotated(d.(annotations := annotations, sentencesWithAnnotations := withAnnotations), o.error)
  }

  /* ---------------------------------------------- properties of annotate */

  /** The targets of sentence `k`, each paired with `k`. */
  function Pairs(k: nat, targets: seq<Target>): (r: seq<(nat, Target)>)
    ensures |r| == |targets|
    ensures forall i :: 0 <= i < |targets| ==> r[i] == (k, targets[i])
  {
    seq(|targets|, i requires 0 <= i < |targets| => (k, targets[i]))
  }

  /** Reference enumeration: every marked target, paired with the number
      of its sentence, sentence by sentence from `k` and in the engine's
      order within a sentence. */
  function MarkedTargets(ss: seq<Sentence>, engine: string -> Markup, k: nat): seq<(nat, Target)>
    decreases |ss| - k
  {
    if k >= |ss| then []
    else Pairs(k, engine(ss[k].text).targets) + MarkedTargets(ss, engine, k + 1)
  }

  /** What `from_markup` makes of target `p.1` in sentence `p.0`. */
  function BuildOne(ss: seq<Sentence>, p: (nat, Target)): Result<Annotation, AnnotationError>
    requires p.0 < |ss|
  {
    Tag(FromMarkup(p.1, ss[p.0].text, ss[p.0].span), p.0)
  }

  /** `b` is what `from_markup` makes of target `p.1` in sentence `p.0`. */
  predicate BuiltFrom(ss: seq<Sentence>, p: (nat, Target), b: Result<Annotation, AnnotationError>) {
    p.0 < |ss| && b == BuildOne(ss, p)
  }

  /** `built` holds, position by position, what `from_markup` makes of
      the pairs. */
  predicate Matches(ss: seq<Sentence>, pairs: seq<(nat, Target)>, built: seq<Result<Annotation, AnnotationError>>) {
    |pairs| == |built| && forall i :: 0 <= i < |pairs| ==> BuiltFrom(ss, pairs[i], built[i])
  }

  lemma MatchesAppend(ss: seq<Sentence>, p1: seq<(nat, Target)>, b1: seq<Result<Annotation, AnnotationError>>,
                      p2: seq<(nat, Target)>, b2: seq<Result<Annotation, AnnotationError>>)
    requires Matches(ss, p1, b1) && Matches(ss, p2, b2)
    ensures Matches(ss, p1 + p2, b1 + b2)
  {
    var p := p1 + p2;
    var b := b1 + b2;
    forall i | 0 <= i < |p| ensures BuiltFrom(ss, p[i], b[i]) {
      if i < |p1| {
        assert p[i] == p1[i] && b[i] == b1[i];
      } else {
        assert p[i] == p2[i - |p1|] && b[i] == b2[i - |p1|];
      }
    }
  }

  lemma {:induction false} BuildAllPairs(ss: seq<Sentence>, k: nat, targets: seq<Target>)
    requires k < |ss|
    ensures Matches(ss, Pairs(k, targets), BuildAll(ss, k, targets))
  {
    if |targets| > 0 {
      BuildAllPairs(ss, k, targets[1..]);
      assert Pairs(k, targets) == [(k, targets[0])] + Pairs(k, targets[1..]);
      MatchesAppend(ss, [(k, targets[0])], [BuildOne(ss, (k, targets[0]))],
                    Pairs(k, targets[1..]), BuildAll(ss, k, targets[1..]));
    } else {
      assert Pairs(k, targets) == [];
    }
  }

  /** The pass handles exactly the marked targets, one result each, in
      sentence order and then in the engine's order. */
  lemma {:induction false} BuildFromPairs(ss: seq<Sentence>, engine: string -> Markup, k: nat)
    ensures Matches(ss, MarkedTargets(ss, engine, k), BuildFrom(ss, engine, k))
    decreases |ss| - k
  {
    if k < |ss| {
      var targets := engine(ss[k].text).targets;
      BuildAllPairs(ss, k, targets);
      BuildFromPairs(ss, engine, k + 1);
      MatchesAppend(ss, Pairs(k, targets), BuildAll(ss, k, targets),
                    MarkedTargets(ss, engine, k + 1), BuildFrom(ss, engine, k + 1));
    }
  }

  /** Some result in `built` is a rejection. */
  predicate AnyRejected(built: seq<Result<Annotation, AnnotationError>>) {
    exists i :: 0 <= i < |built| && built[i].Failure?
  }

  /** A pass that replays `built` stops with an error exactly when
      `built` holds a rejection, and then at the first one. */
  lemma ReplaysStopsAtFirstRejection(built: seq<Result<Annotation, AnnotationError>>, o: Outcome)
    requires Replays(built, o)
    ensures o.error.Some? <==> AnyRejected(built)
    ensures forall i :: 0 <= i < |o.added| ==> built[i].Success?
  {
    if o.error.None? {
      forall i | 0 <= i < |built| ensures built[i].Success? {
        assert built[i] == Success(o.added[i]);
      }
    } else {
      assert built[|o.added|].Failure?;
    }
  }

  /** `annotate` raises exactly when some marked target has a category
      `from_markup` rejects. */
  lemma AnnotateRaisesIffRejected(d: Document, engine: string -> Markup)
    ensures Annotate(d, engine).raised.Some? <==> AnyRejected(BuildFrom(d.sentences, engine, 0))
  {
    var r := Annotate(d, engine);
    ReplaysStopsAtFirstRejection(BuildFrom(d.sentences, engine, 0),
                                 Outcome(r.doc.annotations[|d.annotations|..], r.raised));
  }

  /** Every annotation of `d` carries a sentence number, the entry of
      `sentences_with_annotations` at the same position is that number,
      and it names the sentence whose index it is. */
  predicate NamesSentences(d: Document) {
    && |d.annotations| == |d.sentencesWithAnnotations|
    && forall i :: 0 <= i < |d.annotations| ==>
         var n := d.sentencesWithAnnotations[i];
         && n < |d.sentences| && d.sentences[n].idx == n
         && d.annotations[i].sentenceNum == Some(n)
  }

  /** `annotate` keeps annotations and `sentences_with_annotations` in
      step with the sentences they name. */
  lemma AnnotateKeepsSentenceNames(d: Document, engine: string -> Markup)
    requires NumberedFrom(d.sentences, 0)
    requires NamesSentences(d)
    ensures NamesSentences(Annotate(d, engine).doc)
  {
    var r := Annotate(d, engine);
    var b := BuildFrom(d.sentences, engine, 0);
    var m := |d.annotations|;
    BuildFromNumbered(d.sentences, engine, 0);
    forall i | 0 <= i < |r.doc.annotations|
      ensures var n := r.doc.sentencesWithAnnotations[i];
              n < |d.sentences| && d.sentences[n].idx == n && r.doc.annotations[i].sentenceNum == Some(n)
    {
      if i < m {
        assert r.doc.annotations[i] == d.annotations[i];
        assert r.doc.sentencesWithAnnotations[i] == d.sentencesWithAnnotations[i];
      } else {
        assert b[i - m] == Success(r.doc.annotations[m..][i - m]);
      }
    }
  }

  /** When no marked target is rejected, `annotate` appends exactly one
      annotation per marked target, in order, each the one `from_markup`
      builds from that target and numbered with its sentence. */
  lemma AnnotateOnePerTarget(d: Document, engine: string -> Markup)
    requires !AnyRejected(BuildFrom(d.sentences, engine, 0))
    ensures var r := Annotate(d, engine);
            var pairs := MarkedTargets(d.sentences, engine, 0);
            && r.raised.None?
            && |r.doc.annotations| == |d.annotations| + |pairs|
            && forall i :: 0 <= i < |pairs| ==>
                 BuiltFrom(d.sentences, pairs[i], Success(r.doc.annotations[|d.annotations| + i]))
  {
    var r := Annotate(d, engine);
    var b := BuildFrom(d.sentences, engine, 0);
    var added := r.doc.annotations[|d.annotations|..];
    AnnotateRaisesIffRejected(d, engine);
    BuildFromPairs(d.sentences, engine, 0);
    forall i | 0 <= i < |added| ensures added[i] == r.doc.annotations[|d.annotations| + i] {
    }
  }
}
