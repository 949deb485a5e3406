/**
 * The finding annotator and classifier: `Annotation.from_markup` and
 * `Annotation.classify`. A target found by the markup engine in one
 * sentence becomes an annotation whose type comes from a closed category
 * table, whose span covers the target and its modifiers, whose assertion
 * follows a first-match decision table, and whose label comes from a
 * closed type-by-assertion table.
 */
module Annotations {
  import opened Wrappers
  import opened Text
  import opened Tokens

  /* ------------------------------------------------------------ enums */

  /** The review-tool class of a finding (`annotation_type`). */
  datatype FindingType = SSI | UTI | Pneumonia {
    function Name(): string {
      match this
      case SSI => "Evidence of SSI"
      case UTI => "Evidence of UTI"
      case Pneumonia => "Evidence of Pneumonia"
    }
  }

  /** The `assertion` attribute. */
  datatype Assertion = Positive | Negated | Probable | Indication {
    function Name(): string {
      match this
      case Positive => "positive"
      case Negated => "negated"
      case Probable => "probable"
      case Indication => "indication"
    }
  }

  /** The `temporality` attribute. */
  datatype Temporality = Current | Historical | FutureHypothetical {
    function Name(): string {
      match this
      case Current => "current"
      case Historical => "historical"
      case FutureHypothetical => "future/hypothetical"
    }
  }

  /* ------------------------------------------------------ markup input */

  /** A modifier the markup engine attached to a target: its category list,
      its span in the sentence and the literal it matched. */
  datatype Modifier = Modifier(category: seq<string>, span: Span, literal: string)

  /** A marked target: its tag id (already rendered as a string), its
      category list, its span in the sentence and its modifiers. */
  datatype Target = Target(id: string, category: seq<string>, span: Span, modifiers: seq<Modifier>)

  /** What the markup engine returns for one sentence: the marked targets. */
  datatype Markup = Markup(targets: seq<Target>)

  /** Why `from_markup` raises. */
  datatype AnnotationError =
    | UnrecognizedCategory(category: string)  // the NotImplementedError of the source
    | MissingCategory                         // `getCategory()[0]` on an empty list

  /* ------------------------------------------------------------ record */

  /** An annotation. The creation timestamp is not modelled. */
  datatype Annotation = Annotation(
    id: string,
    annotator: string,
    markupCategory: string,
    annotationType: FindingType,
    infectionType: Option<string>,
    spanInSentence: Span,
    spanInDocument: Span,
    sentence: string,
    text: string,
    modifierCategories: seq<string>,
    assertion: Assertion,
    temporality: Temporality,
    anatomy: seq<string>,
    classification: string,
    sentenceNum: Option<nat>)

  /* ----------------------------------------------------------- tables */

  const Annotator: string := "hai_detect"

  const SSIPhrase: string := "surgical site infection"
  const OrganSpaceSSI: string := "organ/space " + SSIPhrase
  const DeepSSI: string := "deep " + SSIPhrase
  const SuperficialSSI: string := "superficial " + SSIPhrase
  const NegatedSuperficialSSI: string := "negated " + SuperficialSSI
  const UrinaryTractInfection: string := "urinary tract infection"
  const PneumoniaCategory: string := "pneumonia"

  /** `_annotation_types`: the finding type of each markup category the
      annotator recognises, and `None` for every other category. */
  function AnnotationTypeOf(category: string): Option<FindingType> {
    if category == OrganSpaceSSI then Some(SSI)
    else if category == DeepSSI then Some(SSI)
    else if category == SuperficialSSI then Some(SSI)
    else if category == NegatedSuperficialSSI then Some(SSI)
    else if category == UrinaryTractInfection then Some(UTI)
    else if category == PneumoniaCategory then Some(Pneumonia)
    else None
  }

  /** `_annotation_classifications`: the label of a finding type under an
      assertion. */
  function Label(t: FindingType, a: Assertion): string {
    match t
    case SSI =>
      (match a
       case Positive => "Positive Evidence of SSI"
       case Negated => "Negated Evidence of SSI"
       case Probable => "Probable Evidence of SSI"
       case Indication => "Indication of SSI")
    case UTI =>
      (match a
       case Positive => "Positive Evidence of UTI"
       case Negated => "Negated Evidence of UTI"
       case Probable => "Probable Evidence of UTI"
       case Indication => "Indication of UTI")
    case Pneumonia =>
      (match a
       case Positive => "Positive Evidence of Pneumonia"
       case Negated => "Negated Evidence of Pneumonia"
       case Probable => "Probable Evidence of Pneumonia"
       case Indication => "Indication of Pneumonia")
  }

  const DefiniteExistence: string := "definite_existence"
  const DefiniteNegatedExistence: string := "definite_negated_existence"
  const IndicationCategory: string := "indication"
  const ProbableExistence: string := "probable_existence"
  const AnatomyCategory: string := "anatomy"
  const SurgicalSiteCategory: string := "surgical site"
  const PositiveSSILabel: string := "Positive Evidence of SSI"
  const NoAnatomySuffix: string := " - No Anatomy"

  /* -------------------------------------------------- category lookup */

  /** The first position at or after `i` where `sub` occurs in `s`, if
      any. */
  function FindFrom(s: string, sub: string, i: nat): (r: Option<nat>)
    ensures r.Some? ==> i <= r.value && OccursAt(s, sub, r.value)
    ensures r.Some? ==> forall j :: i <= j < r.value ==> !OccursAt(s, sub, j)
    ensures r.None? ==> forall j :: i <= j ==> !OccursAt(s, sub, j)
    decreases |s| - i
  {
    if i + |sub| > |s| then None
    else if s[i..i + |sub|] == sub then Some(i)
    else FindFrom(s, sub, i + 1)
  }

  /** A character of the regular-expression class `[a-z/]`. */
  predicate InTypeClass(c: char) {
    'a' <= c <= 'z' || c == '/'
  }

  /** The longest suffix of `s` made of `[a-z/]` characters. */
  function TrailingRun(s: string): string
    decreases |s|
  {
    if |s| > 0 && InTypeClass(s[|s| - 1]) then TrailingRun(s[..|s| - 1]) + [s[|s| - 1]] else []
  }

  /** Group 1 of `re.search('([a-z/]*) surgical site infection', category)`:
      the run of `[a-z/]` characters just before the first occurrence of
      " surgical site infection", or `None` where the search finds nothing. */
  function InfectionTypeMatch(category: string): Option<string> {
    match FindFrom(category, " " + SSIPhrase, 0)
    case None => None
    case Some(q) => Some(TrailingRun(category[..q]))
  }

  /** `infection_type`: set only for categories naming a surgical site
      infection. */
  function InfectionType(category: string): Option<string> {
    if Contains(category, SSIPhrase) then InfectionTypeMatch(category) else None
  }

  /** A string that ends with `sub` contains it. */
  lemma PhraseAfter(c: string, lead: string, sub: string)
    requires c == lead + sub
    ensures OccursAt(c, sub, |lead|) && Contains(c, sub)
  {
    assert c[|lead|..|lead| + |sub|] == sub;
    assert 0 <= |lead| <= |c| && OccursAt(c, sub, |lead|);
  }

  /** The recognised categories are the six table keys. */
  lemma RecognisedCategories(c: string)
    requires AnnotationTypeOf(c).Some?
    ensures c in [OrganSpaceSSI, DeepSSI, SuperficialSSI, NegatedSuperficialSSI, UrinaryTractInfection, PneumoniaCategory]
  {
  }

  /** The four surgical-site-infection keys mention the phrase. */
  lemma SSIKeysMentionPhrase()
    ensures Contains(OrganSpaceSSI, SSIPhrase)
    ensures Contains(DeepSSI, SSIPhrase)
    ensures Contains(SuperficialSSI, SSIPhrase)
    ensures Contains(NegatedSuperficialSSI, SSIPhrase)
  {
    PhraseAfter(OrganSpaceSSI, "organ/space ", SSIPhrase);
    PhraseAfter(DeepSSI, "deep ", SSIPhrase);
    PhraseAfter(SuperficialSSI, "superficial ", SSIPhrase);
    PhraseAfter(NegatedSuperficialSSI, "negated superficial ", SSIPhrase);
  }

  /** The urinary-tract-infection and pneumonia keys do not. */
  lemma OtherKeysLackPhrase()
    ensures !Contains(UrinaryTractInfection, SSIPhrase)
    ensures !Contains(PneumoniaCategory, SSIPhrase)
  {
    assert UrinaryTractInfection[0] != SSIPhrase[0];
  }

  /** The recognised categories that mention "surgical site infection" are
      exactly the four mapped to SSI. */
  lemma SSICategories(c: string)
    requires AnnotationTypeOf(c).Some?
    ensures AnnotationTypeOf(c) == Some(SSI) <==> Contains(c, SSIPhrase)
  {
    RecognisedCategories(c);
    SSIKeysMentionPhrase();
    OtherKeysLackPhrase();
  }

  /** A run of `[a-z/]` characters after a boundary is the trailing run. */
  lemma {:induction false} TrailingRunAfter(lead: string, word: string)
    requires forall i :: 0 <= i < |word| ==> InTypeClass(word[i])
    requires |lead| == 0 || !InTypeClass(lead[|lead| - 1])
    ensures TrailingRun(lead + word) == word
    decreases |word|
  {
    var s := lead + word;
    if |word| == 0 {
      assert s == lead;
    } else {
      var w := word[..|word| - 1];
      assert s[..|s| - 1] == lead + w;
      TrailingRunAfter(lead, w);
      assert word == w + [word[|word| - 1]];
    }
  }

  /** The search finds the first occurrence. */
  lemma FindFirst(s: string, sub: string, q: nat)
    requires OccursAt(s, sub, q)
    requires forall j :: 0 <= j < q ==> !OccursAt(s, sub, j)
    ensures FindFrom(s, sub, 0) == Some(q)
  {
  }

  /** Group 1 of the search on `lead + word + " surgical site infection"`
      is `word` when the phrase does not occur earlier and `lead` does not
      end in a `[a-z/]` character. */
  lemma InfectionTypeOf(c: string, lead: string, word: string)
    requires c == lead + word + " " + SSIPhrase
    requires forall i :: 0 <= i < |word| ==> InTypeClass(word[i])
    requires |lead| == 0 || !InTypeClass(lead[|lead| - 1])
    requires forall j :: 0 <= j < |lead| ==> !OccursAt(c, " " + SSIPhrase, j)
    ensures InfectionTypeMatch(c) == Some(word)
  {
    var q := |lead| + |word|;
    var sub := " " + SSIPhrase;
    assert c == (lead + word) + sub;
    forall j | |lead| <= j < q ensures !OccursAt(c, sub, j) {
      assert c[j] == word[j - |lead|];
      assert c[j] != sub[0];
    }
    PhraseAfter(c, lead + word, sub);
    FindFirst(c, sub, q);
    assert c[..q] == lead + word;
    TrailingRunAfter(lead, word);
  }

  /** "organ/space surgical site infection" has infection type "organ/space". */
  lemma OrganSpaceInfectionType()
    ensures InfectionType(OrganSpaceSSI) == Some("organ/space")
  {
    SSIKeysMentionPhrase();
    assert OrganSpaceSSI == "" + "organ/space" + " " + SSIPhrase;
    InfectionTypeOf(OrganSpaceSSI, "", "organ/space");
  }

  /** "deep surgical site infection" has infection type "deep". */
  lemma DeepInfectionType()
    ensures InfectionType(DeepSSI) == Some("deep")
  {
    SSIKeysMentionPhrase();
    assert DeepSSI == "" + "deep" + " " + SSIPhrase;
    InfectionTypeOf(DeepSSI, "", "deep");
  }

  /** "superficial surgical site infection" has infection type "superficial". */
  lemma SuperficialInfectionType()
    ensures InfectionType(SuperficialSSI) == Some("superficial")
  {
    SSIKeysMentionPhrase();
    assert SuperficialSSI == "" + "superficial" + " " + SSIPhrase;
    InfectionTypeOf(SuperficialSSI, "", "superficial");
  }

  /** The phrase does not start inside the word "negated " of
      "negated superficial surgical site infection". */
  lemma NegatedLeadLacksPhrase()
    ensures forall j :: 0 <= j < 8 ==> !OccursAt(NegatedSuperficialSSI, " " + SSIPhrase, j)
  {
    var c := NegatedSuperficialSSI;
    var sub := " " + SSIPhrase;
    assert c[..8] == "negated ";
    assert sub[0] == ' ' && sub[3] == 'r';
    forall j | 0 <= j < 7 ensures !OccursAt(c, sub, j) {
      assert c[j] != ' ';
      assert c[j..j + |sub|][0] == c[j];
    }
    assert c[10] == 'p' && c[7..7 + |sub|][3] == c[10];
  }

  /** "negated superficial surgical site infection" also has infection type
      "superficial": the search skips the word "negated". */
  lemma NegatedSuperficialInfectionType()
    ensures InfectionType(NegatedSuperficialSSI) == Some("superficial")
  {
    SSIKeysMentionPhrase();
    NegatedLeadLacksPhrase();
    assert NegatedSuperficialSSI == "negated " + "superficial" + " " + SSIPhrase;
    InfectionTypeOf(NegatedSuperficialSSI, "negated ", "superficial");
  }

  /* ------------------------------------------------------------ spans */

  /** `inner` lies within `outer`. */
  predicate Encloses(outer: Span, inner: Span) {
    outer.start <= inner.start && inner.end <= outer.end
  }

  /** Python's `min` over a non-empty list. */
  function SeqMin(xs: seq<int>): (m: int)
    requires |xs| > 0
    ensures m in xs
    ensures forall i :: 0 <= i < |xs| ==> m <= xs[i]
  {
    if |xs| == 1 then xs[0]
    else
      var rest := SeqMin(xs[1..]);
      if xs[0] <= rest then xs[0] else rest
  }

  /** Python's `max` over a non-empty list. */
  function SeqMax(xs: seq<int>): (m: int)
    requires |xs| > 0
    ensures m in xs
    ensures forall i :: 0 <= i < |xs| ==> xs[i] <= m
  {
    if |xs| == 1 then xs[0]
    else
      var rest := SeqMax(xs[1..]);
      if xs[0] >= rest then xs[0] else rest
  }

  /** Both ends of every modifier span, in order. */
  function ModifierEndpoints(ms: seq<Modifier>): (e: seq<int>)
    ensures |e| == 2 * |ms|
    ensures forall k :: 0 <= k < |ms| ==> e[2 * k] == ms[k].span.start && e[2 * k + 1] == ms[k].span.end
  {
    if |ms| == 0 then []
    else [ms[0].span.start, ms[0].span.end] + ModifierEndpoints(ms[1..])
  }

  /** The list `spans` that `from_markup` builds: the ends of the target
      span, then the ends of each modifier span. */
  function Endpoints(t: Target): (e: seq<int>)
    ensures |e| == 2 + 2 * |t.modifiers|
  {
    [t.span.start, t.span.end] + ModifierEndpoints(t.modifiers)
  }

  /** `span_in_sentence`: the smallest span holding every end of the target
      span and of its modifier spans. */
  function SpanInSentence(t: Target): (r: Span)
    ensures Encloses(r, t.span)
    ensures forall k :: 0 <= k < |t.modifiers| ==> Encloses(r, t.modifiers[k].span)
    ensures r.start in Endpoints(t) && r.end in Endpoints(t)
    ensures forall x :: x in Endpoints(t) ==> r.start <= x <= r.end
  {
    var e := Endpoints(t);
    var r := Span(SeqMin(e), SeqMax(e));
    assert e[0] == t.span.start && e[1] == t.span.end;
    assert forall k :: 0 <= k < |t.modifiers| ==>
      e[2 + 2 * k] == t.modifiers[k].span.start && e[3 + 2 * k] == t.modifiers[k].span.end;
    r
  }

  /** `span_in_document`: a sentence span moved by the sentence's offset in
      the document. */
  function Shift(sp: Span, offset: int): (r: Span)
    ensures r.end - r.start == sp.end - sp.start
    ensures r.start - sp.start == offset
  {
    Span(sp.start + offset, sp.end + offset)
  }

  /* -------------------------------------------------------- attributes */

  /** The primary category of every modifier (`getCategory()[0]`). */
  function ModifierCategories(ms: seq<Modifier>): (r: seq<string>)
    requires forall k :: 0 <= k < |ms| ==> |ms[k].category| > 0
    ensures |r| == |ms|
  {
    seq(|ms|, k requires 0 <= k < |ms| => ms[k].category[0])
  }

  /** The assertion decision table: the first matching row wins, and
      `positive` is the default. */
  function DeriveAssertion(category: string, mc: seq<string>): (a: Assertion)
    ensures a == Negated <==>
              category == NegatedSuperficialSSI
              || (DefiniteNegatedExistence in mc && DefiniteExistence !in mc)
    ensures a == Positive <==>
              category != NegatedSuperficialSSI
              && (DefiniteExistence in mc
                  || (DefiniteNegatedExistence !in mc && IndicationCategory !in mc && ProbableExistence !in mc))
    ensures a == Indication <==>
              category != NegatedSuperficialSSI
              && DefiniteExistence !in mc && DefiniteNegatedExistence !in mc && IndicationCategory in mc
    ensures a == Probable <==>
              category != NegatedSuperficialSSI
              && DefiniteExistence !in mc && DefiniteNegatedExistence !in mc && IndicationCategory !in mc
              && ProbableExistence in mc
  {
    if category == NegatedSuperficialSSI then Negated
    else if DefiniteExistence in mc then Positive
    else if DefiniteNegatedExistence in mc then Negated
    else if IndicationCategory in mc then Indication
    else if ProbableExistence in mc then Probable
    else Positive
  }

  /** A modifier naming an anatomical site: its category list holds
      "anatomy" or "surgical site". */
  predicate IsAnatomical(m: Modifier) {
    AnatomyCategory in m.category || SurgicalSiteCategory in m.category
  }

  /** `anatomy`: the literals of the anatomical modifiers, in order. */
  function Anatomy(ms: seq<Modifier>): (r: seq<string>)
    ensures |r| <= |ms|
    ensures forall x :: x in r <==> exists k :: 0 <= k < |ms| && IsAnatomical(ms[k]) && ms[k].literal == x
    ensures r == [] <==> forall k :: 0 <= k < |ms| ==> !IsAnatomical(ms[k])
  {
    if |ms| == 0 then []
    else
      var rest := Anatomy(ms[1..]);
      assert forall k :: 1 <= k < |ms| ==> ms[k] == ms[1..][k - 1];
      (if IsAnatomical(ms[0]) then [ms[0].literal] else []) + rest
  }

  /** A single modifier contributes its literal exactly when it is
      anatomical. */
  lemma AnatomyOne(m: Modifier)
    ensures Anatomy([m]) == if IsAnatomical(m) then [m.literal] else []
  {
    assert [m][1..] == [];
  }

  /** The anatomy of consecutive modifier lists is the anatomy of the
      first followed by that of the second: with `AnatomyOne`, the list is
      the order-preserving filter of the comprehension, duplicates kept. */
  lemma {:induction false} AnatomyAppend(ms1: seq<Modifier>, ms2: seq<Modifier>)
    ensures Anatomy(ms1 + ms2) == Anatomy(ms1) + Anatomy(ms2)
    decreases |ms1|
  {
    if |ms1| > 0 {
      assert (ms1 + ms2)[1..] == ms1[1..] + ms2;
      AnatomyAppend(ms1[1..], ms2);
    } else {
      assert ms1 + ms2 == ms2;
    }
  }

  /** Two anatomical modifiers with the same literal both appear. */
  lemma AnatomyKeepsDuplicates(m: Modifier)
    requires IsAnatomical(m)
    ensures Anatomy([m, m]) == [m.literal, m.literal]
  {
    assert [m, m] == [m] + [m];
    AnatomyAppend([m], [m]);
    AnatomyOne(m);
  }

  /* ---------------------------------------------------- classification */

  /** The temporality part of a label: nothing for a current finding,
      otherwise " - " and the title-cased temporality. */
  function TemporalitySuffix(temp: Temporality): string {
    if temp != Current then " - " + Title(temp.Name()) else ""
  }

  /** The one case `classify` flags as lacking anatomy: a current positive
      SSI finding with no anatomical site. */
  predicate LacksAnatomy(t: FindingType, a: Assertion, temp: Temporality, anatomy: seq<string>) {
    t == SSI && a == Positive && temp == Current && anatomy == []
  }

  /** `classify`: the table label, then the temporality suffix, then
      " - No Anatomy" when the label so far is exactly
      "Positive Evidence of SSI" and no anatomy was found. */
  function Classify(t: FindingType, a: Assertion, temp: Temporality, anatomy: seq<string>): (r: string)
    ensures Label(t, a) <= r
    ensures LacksAnatomy(t, a, temp, anatomy) ==> r == Label(t, a) + NoAnatomySuffix
    ensures !LacksAnatomy(t, a, temp, anatomy) ==> r == Label(t, a) + TemporalitySuffix(temp)
  {
    var base := Label(t, a);
    var withTemp := if temp != Current then base + " - " + Title(temp.Name()) else base;
    LabelIsPositiveSSI(t, a);
    if withTemp == PositiveSSILabel && anatomy == [] then withTemp + NoAnatomySuffix else withTemp
  }

  /** Only SSI under a positive assertion has the label
      "Positive Evidence of SSI". Every label is also at least 17
      characters long (the shortest is "Indication of SSI"), so a label
      followed by a temporality suffix is longer than the 24 characters
      of "Positive Evidence of SSI": this is how `Classify` sees that a
      past or future finding never gets " - No Anatomy". */
  lemma LabelIsPositiveSSI(t: FindingType, a: Assertion)
    ensures Label(t, a) == PositiveSSILabel <==> t == SSI && a == Positive
    ensures |Label(t, a)| >= 17
  {
  }

  /* ------------------------------------------------------ from_markup */

  /** Every modifier of the target has a category list to read from. */
  predicate ModifiersCategorised(t: Target) {
    forall k :: 0 <= k < |t.modifiers| ==> |t.modifiers[k].category| > 0
  }

  /** Over the table keys, an infection type exists exactly for the SSI
      categories and is one of the three SSI kinds. */
  lemma InfectionTypeTable(c: string)
    requires AnnotationTypeOf(c).Some?
    ensures Contains(c, SSIPhrase) <==> AnnotationTypeOf(c) == Some(SSI)
    ensures InfectionType(c).Some? <==> AnnotationTypeOf(c) == Some(SSI)
    ensures InfectionType(c).Some? ==> InfectionType(c).value in ["organ/space", "deep", "superficial"]
  {
    SSICategories(c);
    RecognisedCategories(c);
    OrganSpaceInfectionType();
    DeepInfectionType();
    SuperficialInfectionType();
    NegatedSuperficialInfectionType();
  }

  /** A target `from_markup` accepts: its primary category is in the table
      and every modifier has a primary category. */
  predicate Recognised(t: Target) {
    |t.category| > 0 && AnnotationTypeOf(t.category[0]).Some? && ModifiersCategorised(t)
  }

  /** `from_markup(target, markup, sentence, sentence_span)` followed by
      `classify()`: the annotation built for one marked target, or the
      error the source raises. */
  function FromMarkup(t: Target, sentence: string, sentenceSpan: Span): (r: Result<Annotation, AnnotationError>)
    ensures r.Success? <==> Recognised(t)
    ensures |t.category| == 0 ==> r == Failure(MissingCategory)
    ensures |t.category| > 0 && AnnotationTypeOf(t.category[0]).None? ==>
              r == Failure(UnrecognizedCategory(t.category[0]))
    ensures |t.category| > 0 && AnnotationTypeOf(t.category[0]).Some? && !ModifiersCategorised(t) ==>
              r == Failure(MissingCategory)
    ensures r.Success? ==>
              var a := r.value;
              && a.id == t.id && a.annotator == Annotator && a.markupCategory == t.category[0]
              && AnnotationTypeOf(t.category[0]) == Some(a.annotationType)
              && a.spanInSentence == SpanInSentence(t)
              && Encloses(a.spanInSentence, t.span)
              && (forall k :: 0 <= k < |t.modifiers| ==> Encloses(a.spanInSentence, t.modifiers[k].span))
              && a.spanInDocument.start - a.spanInSentence.start == sentenceSpan.start
              && a.spanInDocument.end - a.spanInDocument.start == a.spanInSentence.end - a.spanInSentence.start
              && a.sentence == sentence
              && a.text == PySlice(sentence, a.spanInSentence.start, a.spanInSentence.end)
              && |a.modifierCategories| == |t.modifiers|
              && (forall k :: 0 <= k < |t.modifiers| ==> a.modifierCategories[k] == t.modifiers[k].category[0])
              && a.assertion == DeriveAssertion(a.markupCategory, a.modifierCategories)
              && a.temporality == Current
              && a.infectionType == InfectionType(a.markupCategory)
              && (a.annotationType == SSI <==> a.infectionType.Some?)
              && (a.infectionType.Some? ==> a.infectionType.value in ["organ/space", "deep", "superficial"])
              && a.anatomy == (if a.annotationType == SSI then Anatomy(t.modifiers) else [])
              && a.classification == Classify(a.annotationType, a.assertion, a.temporality, a.anatomy)
              && a.sentenceNum == None
  {
    if |t.category| == 0 then Failure(MissingCategory)
    else
      var category := t.category[0];
      match AnnotationTypeOf(category)
      case None => Failure(UnrecognizedCategory(category))
      case Some(findingType) =>
        if !ModifiersCategorised(t) then Failure(MissingCategory)
        else
          var isSSI := Contains(category, SSIPhrase);
          InfectionTypeTable(category);
          var spanInSentence := SpanInSentence(t);
          var modifierCategories := ModifierCategories(t.modifiers);
          var assertion := DeriveAssertion(category, modifierCategories);
          var anatomy := if isSSI then Anatomy(t.modifiers) else [];
          Success(Annotation(
            id := t.id,
            annotator := Annotator,
            markupCategory := category,
            annotationType := findingType,
            infectionType := InfectionType(category),
            spanInSentence := spanInSentence,
            spanInDocument := Shift(spanInSentence, sentenceSpan.start),
            sentence := sentence,
            text := PySlice(sentence, spanInSentence.start, spanInSentence.end),
            modifierCategories := modifierCategories,
            assertion := assertion,
            temporality := Current,
            anatomy := anatomy,
            classification := Classify(findingType, assertion, Current, anatomy),
            sentenceNum := None))
  }

  /* ---------------------------------------------------------- lemmas */

  /** When the target and modifier spans lie in the sentence, the
      annotation's text is exactly the sentence slice at its span, and the
      document span has the same width. */
  lemma AnnotationTextInSentence(t: Target, sentence: string, sentenceSpan: Span)
    requires Recognised(t)
    requires SpanIn(t.span, |sentence|)
    requires forall k :: 0 <= k < |t.modifiers| ==> SpanIn(t.modifiers[k].span, |sentence|)
    ensures var a := FromMarkup(t, sentence, sentenceSpan).value;
            && SpanIn(a.spanInSentence, |sentence|)
            && a.text == sentence[a.spanInSentence.start..a.spanInSentence.end]
            && |a.text| == a.spanInDocument.end - a.spanInDocument.start
  {
    var sp := SpanInSentence(t);
    var e := Endpoints(t);
    forall k | 0 <= k < |e| ensures 0 <= e[k] <= |sentence| {
      if k >= 2 {
        var m := (k - 2) / 2;
        var me := ModifierEndpoints(t.modifiers);
        assert e[k] == me[k - 2];
        assert SpanIn(t.modifiers[m].span, |sentence|);
        if (k - 2) % 2 == 0 {
          assert k - 2 == 2 * m;
        } else {
          assert k - 2 == 2 * m + 1;
        }
      }
    }
    assert sp.start in e && sp.end in e;
  }

  /** The assertion depends on which modifier categories occur, not on
      their order or repetition. */
  lemma AssertionIgnoresOrder(category: string, mc1: seq<string>, mc2: seq<string>)
    requires forall x :: x in mc1 <==> x in mc2
    ensures DeriveAssertion(category, mc1) == DeriveAssertion(category, mc2)
  {
  }

  /** Definite existence outranks probable existence, for every category
      but negated superficial SSI, which is always negated. */
  lemma DefiniteBeatsProbable(category: string)
    requires category != NegatedSuperficialSSI
    ensures DeriveAssertion(category, [DefiniteExistence, ProbableExistence]) == Positive
  {
  }

  /** The twelve labels of the classification table are pairwise distinct,
      so a label determines its finding type and assertion. */
  lemma LabelInjective(t1: FindingType, a1: Assertion, t2: FindingType, a2: Assertion)
    requires Label(t1, a1) == Label(t2, a2)
    ensures t1 == t2 && a1 == a2
  {
    var l1 := Label(t1, a1);
    var l2 := Label(t2, a2);
    assert |l1| == |l2| && l1[0] == l2[0] && l1[|l1| - 1] == l2[|l2| - 1];
  }

  /** Title-casing the temporality names. */
  lemma TemporalityTitles()
    ensures Title(Historical.Name()) == "Historical"
    ensures Title(FutureHypothetical.Name()) == "Future/Hypothetical"
  {
    HistoricalTitle();
    FutureTitle();
  }

  /** "historical" title-cases to "Historical". */
  lemma HistoricalTitle()
    ensures Title(Historical.Name()) == "Historical"
  {
    TitleWord("historical");
  }

  /** "future/hypothetical" title-cases each word on either side of the
      slash. */
  lemma FutureTitle()
    ensures Title(FutureHypothetical.Name()) == "Future/Hypothetical"
  {
    calc {
      Title(FutureHypothetical.Name());
      { FutureSplitsAtSlash(); }
      Title("future" + "/" + "hypothetical");
      { TitleSlash("future", "hypothetical"); }
      Title("future") + "/" + Title("hypothetical");
      { TitleWord("future"); TitleWord("hypothetical"); }
      "Future" + "/" + "Hypothetical";
      { FutureJoinsAtSlash(); }
      "Future/Hypothetical";
    }
  }

  /** The name "future/hypothetical" is two lower-case words around a slash.
      Each literal identity gets a lemma of its own: stated inline, the
      string literals and `Title` together exhaust the solver's budget. */
  lemma FutureSplitsAtSlash()
    ensures FutureHypothetical.Name() == "future" + "/" + "hypothetical"
  {
  }

  /** The title-cased words, rejoined at the slash. */
  lemma FutureJoinsAtSlash()
    ensures "Future" + "/" + "Hypothetical" == "Future/Hypothetical"
  {
  }

  /** A positive SSI finding without anatomy is flagged; with anatomy it is
      not; and a non-current one is never flagged. */
  lemma NoAnatomyExamples()
    ensures Classify(SSI, Positive, Current, []) == "Positive Evidence of SSI - No Anatomy"
    ensures Classify(SSI, Positive, Current, ["abdomen"]) == "Positive Evidence of SSI"
    ensures Classify(SSI, Positive, Historical, []) == "Positive Evidence of SSI - Historical"
  {
    assert LacksAnatomy(SSI, Positive, Current, []);
    assert !LacksAnatomy(SSI, Positive, Current, ["abdomen"]);
    calc {
      Classify(SSI, Positive, Historical, []);
      { assert !LacksAnatomy(SSI, Positive, Historical, []); }
      Label(SSI, Positive) + TemporalitySuffix(Historical);
      { HistoricalTitle(); }
      "Positive Evidence of SSI" + " - " + "Historical";
    }
  }

  /** A target whose first category is "sepsis", which the table does not
      list, is rejected as unrecognised whatever its modifiers. */
  lemma UnknownCategoryRejected(id: string, sp: Span, ms: seq<Modifier>, sentence: string, sentenceSpan: Span)
    ensures FromMarkup(Target(id, ["sepsis"], sp, ms), sentence, sentenceSpan) == Failure(UnrecognizedCategory("sepsis"))
  {
  }

  /** "He has not developed a urinary tract infection." with a definite
      negation modifier is a negated UTI finding. */
  lemma NegatedUTIExample()
    ensures var t := Target("1", [UrinaryTractInfection], Span(23, 46),
                            [Modifier([DefiniteNegatedExistence], Span(7, 10), "not")]);
            var r := FromMarkup(t, "he has not developed a urinary tract infection.", Span(100, 147));
            && r.Success?
            && r.value.annotationType == UTI
            && r.value.assertion == Negated
            && r.value.classification == "Negated Evidence of UTI"
  {
    var m := Modifier([DefiniteNegatedExistence], Span(7, 10), "not");
    var t := Target("1", [UrinaryTractInfection], Span(23, 46), [m]);
    var r := FromMarkup(t, "he has not developed a urinary tract infection.", Span(100, 147));
    assert AnnotationTypeOf(UrinaryTractInfection) == Some(UTI);
    assert r.value.modifierCategories == [DefiniteNegatedExistence];
  }

  /** The span inside the sentence is measured in the normalised sentence
      text but shifted by the sentence's start in the raw text, so where
      the raw text had two spaces between words the document span does not
      select the annotation's text: in "he  has pneumonia." the document span of
      "pneumonia" is [7, 16), which selects " pneumoni". */
  lemma DocumentSpanIgnoresSpaceRuns()
    ensures var t := Target("1", [PneumoniaCategory], Span(7, 16), []);
            var r := FromMarkup(t, "he has pneumonia.", Span(0, 18));
            && r.Success? && r.value.text == "pneumonia"
            && r.value.spanInDocument == Span(7, 16)
            && "he  has pneumonia."[7..16] == " pneumoni"
            && "he  has pneumonia."[7..16] != r.value.text
  {
    var t := Target("1", [PneumoniaCategory], Span(7, 16), []);
    PneumoniaSpan(t);
    SpaceRunSlices();
    assert Recognised(t);
  }

  lemma PneumoniaSpan(t: Target)
    requires t == Target("1", [PneumoniaCategory], Span(7, 16), [])
    ensures AnnotationTypeOf(t.category[0]) == Some(Pneumonia)
    ensures SpanInSentence(t) == Span(7, 16)
  {
    assert Endpoints(t) == [7, 16];
  }

  lemma SpaceRunSlices()
    ensures PySlice("he has pneumonia.", 7, 16) == "pneumonia"
    ensures "he  has pneumonia."[7..16] == " pneumoni"
    ensures "he  has pneumonia."[7..16] != "pneumonia"
  {
    assert "he has pneumonia."[7..16] == "pneumonia";
    assert "he  has pneumonia."[7] == ' ';
  }
}
