# Clinical note segmenter and finding annotator

This project models, in Dafny, the two pieces of logic that turn a clinical
note into classified infection findings:

- **The document pipeline.** This is `ClinicalTextDocument`. The constructor
  records the whitespace-token spans of the raw text. It lower-cases the
  tokens and joins them with single spaces. It then splits the normalised
  tokens into sentences at words ending in `.`, `!` or `?`, except for the
  titles `dr.`, `m.d`, `mr.`, `ms.` and `mrs.`. Each sentence keeps its
  words, the spans those words had in the raw text, its index and a
  sentence span. `annotate` sends each sentence's text to a rule engine and
  turns every marked target into an annotation.
- **The annotator.** This is `Annotation.from_markup` followed by
  `classify`. A target's category is looked up in a closed table of six
  categories. An unknown category is an error. The target and modifier
  spans are unioned and shifted to document coordinates. The assertion
  comes from an ordered first-match rule. Surgical-site-infection findings
  get an infection type and an anatomy list. The label comes from a 3×4
  table, followed by a temporality suffix, with a "No Anatomy" suffix for
  positive SSI findings that have no anatomy.

Modules:

| module | file | contents |
|---|---|---|
| `Wrappers` | wrappers.dfy | `Option` and `Result` |
| `Text` | text.dfy | Python `str.split`, `' '.join`, ASCII `lower`, `title`, substring `in`, slice clamping |
| `Tokens` | tokens.dfy | `Span` and the whitespace-token span scanner (`WhitespaceTokenizer.span_tokenize`) |
| `Segmenter` | segmenter.dfy | `preprocess` and `split_sentences` |
| `Annotations` | annotation.dfy | the two tables, `from_markup` and `classify` |
| `ClinicalDocument` | document.dfy | the constructor pipeline and `annotate` |

Inputs and simplifications:

- The rule engine (pyConText's `markup_sentence`) is a parameter
  `engine: string -> Markup`. A `Markup` lists its marked targets. Each
  target carries its id, its category list, its span and its modifiers. Each
  modifier carries its category list, its span and its literal.
- The whitespace tokenizer is modelled concretely. It returns the maximal
  runs of non-whitespace characters, which makes the spans line up with
  `text.split()`; `TextSpansCover` proves this.
- Python exceptions become `Failure` values:
  - `UnrecognizedCategory(c)` is the `NotImplementedError` for an unknown category.
  - `MissingCategory` is the `IndexError` raised by `getCategory()[0]` when a
    target or modifier has an empty category list.
- `annotate` does not catch the exception `from_markup` raises, so the first
  rejected target ends the whole pass; annotations appended before it stay.
  `Annotate` returns the document as it stands plus the raised error.
- `span_in_sentence` is measured in the sentence text, which is the
  lower-cased, single-spaced form, but it is shifted by the sentence's start
  in the raw text. Where more than one whitespace character separates two
  words of the same sentence before the annotation, the document span
  therefore does not select the annotation's text in the raw text. A single
  whitespace character of any kind between words keeps every offset, and
  whitespace before the sentence's first word is absorbed by the sentence's
  start. The model keeps this behaviour, and
  `DocumentSpanIgnoresSpaceRuns` shows an instance of it.

## Model

| member | source | states |
|---|---|---|
| Text.SplitEmpty | annotations/ClinicalTextDocument.py:73 | `text.split()` is empty exactly when the text is all whitespace |
| Text.SplitJoin | annotations/ClinicalTextDocument.py:73-79 | joining whitespace-free words with single spaces and splitting again gives back the same words |
| Text.SplitLower | annotations/ClinicalTextDocument.py:72-73 | lower-casing and then splitting gives the lower-cased tokens of the original split, because lower-casing keeps whitespace as whitespace |
| Text.PySlice | annotations/Annotation.py:120 | a Python slice equals the plain subsequence when its bounds are in range, and is empty when they are reversed |
| Tokens.TextSpansCover | annotations/ClinicalTextDocument.py:54-63 | there is one whitespace-token span per token of `text.split()`; each selects exactly that token; spans are non-empty and in text order without overlap |
| Segmenter.Preprocess | annotations/ClinicalTextDocument.py:66-80 | the preprocessed text is the lower-cased whitespace tokens of the original joined by single spaces, so it splits back into those tokens, same count and order |
| Segmenter.Segment | annotations/ClinicalTextDocument.py:109-141 | the sentence loop loses and duplicates nothing: the sentences' words and spans, concatenated, are the buffered words and spans followed by the remaining ones; no sentence is emitted only when there were no words |
| Segmenter.SegmentIndices | annotations/ClinicalTextDocument.py:109-138 | sentence indices run consecutively in emission order |
| Segmenter.SegmentWellFormed | annotations/ClinicalTextDocument.py:116-140 | every sentence is non-empty; it has one span per word; its span runs from its first word's start to its last word's end; its text is its words joined by single spaces; no word before its last one closes a sentence |
| Segmenter.SegmentClosed | annotations/ClinicalTextDocument.py:100-119 | every sentence but the last ends with a word whose last character is in `.!?` and which is not an exception word |
| Segmenter.SplitSentences | annotations/ClinicalTextDocument.py:83-143 | `zip` truncates the words and spans to the shorter count; sentences are numbered from 0, well formed and closed but the last; there are none exactly when the text is blank or there are no spans |
| Segmenter.TitleDoesNotSplit | annotations/ClinicalTextDocument.py:100-119 | `dr.` does not end a sentence while `came.` does |
| Annotations.RecognisedCategories | annotations/Annotation.py:15-21 | only the six table keys have a finding type |
| Annotations.SSICategories | annotations/Annotation.py:15-21 | a recognised category maps to the SSI type exactly when it mentions "surgical site infection" |
| Annotations.InfectionTypeOf | annotations/Annotation.py:102 | the regular-expression search yields the `[a-z/]` word just before the first " surgical site infection" |
| Annotations.NegatedSuperficialInfectionType | annotations/Annotation.py:102 | the negated superficial category has infection type "superficial" |
| Annotations.OrganSpaceInfectionType | annotations/Annotation.py:102 | the organ/space category has infection type "organ/space" |
| Annotations.InfectionTypeTable | annotations/Annotation.py:101-102 | over the table keys, an infection type is set exactly for the SSI categories, and it is "organ/space", "deep" or "superficial" |
| Annotations.FindFrom | annotations/Annotation.py:102 | the result is the first occurrence at or after the start position, or none occurs |
| Annotations.SeqMin | annotations/Annotation.py:111 | `min` returns a member no greater than any other |
| Annotations.SeqMax | annotations/Annotation.py:111 | `max` returns a member no smaller than any other |
| Annotations.SpanInSentence | annotations/Annotation.py:105-111 | the span runs from the least to the greatest endpoint of the target and modifier spans: both ends are such endpoints and every endpoint lies between them, so it encloses each span |
| Annotations.Shift | annotations/Annotation.py:114-115 | shifting by the sentence offset keeps the width |
| Annotations.DeriveAssertion | annotations/Annotation.py:129-138 | the first-match rule: negated superficial SSI, then definite existence, then definite negated existence, then indication, then probable existence, otherwise positive; each outcome stated as an if-and-only-if |
| Annotations.AssertionIgnoresOrder | annotations/Annotation.py:131-138 | the assertion depends only on which modifier categories occur |
| Annotations.DefiniteBeatsProbable | annotations/Annotation.py:131-138 | for a category other than "negated superficial surgical site infection", definite and probable existence together give positive |
| Annotations.Anatomy | annotations/Annotation.py:145-147 | the anatomy list holds exactly the literals of modifiers whose category list contains "anatomy" or "surgical site", and it is empty exactly when no modifier has such a category |
| Annotations.AnatomyOne | annotations/Annotation.py:145-147 | one modifier contributes its literal exactly when its category list contains "anatomy" or "surgical site" |
| Annotations.AnatomyAppend | annotations/Annotation.py:145-147 | the anatomy of two consecutive modifier lists is the first's followed by the second's, so the list keeps the modifiers' order and repeats |
| Annotations.AnatomyKeepsDuplicates | annotations/Annotation.py:145-147 | two anatomical modifiers with the same literal give that literal twice |
| Annotations.LabelInjective | annotations/Annotation.py:26-44 | different (type, assertion) pairs have different labels |
| Annotations.Classify | annotations/Annotation.py:152-174 | the label is the table entry plus the title-cased temporality suffix; " - No Anatomy" is added exactly for a current, positive SSI finding with empty anatomy |
| Annotations.NoAnatomyExamples | annotations/Annotation.py:163-171 | a positive current SSI finding without anatomy gets " - No Anatomy"; with anatomy, or when historical, it does not |
| Annotations.TemporalityTitles | annotations/Annotation.py:165 | the suffixes read "Historical" and "Future/Hypothetical" |
| Annotations.FromMarkup | annotations/Annotation.py:74-149 | it succeeds exactly for a recognised target. An unknown category gives `UnrecognizedCategory`, and a missing target or modifier category gives `MissingCategory`. On success every field is given: id, annotator, the type from the table, the min/max span and its document shift, the sentence slice, modifier categories, assertion, current temporality, the regular-expression infection type (present exactly for SSI findings), anatomy only for SSI findings, and the classification |
| Annotations.AnnotationTextInSentence | annotations/Annotation.py:111-120 | when all spans lie in the sentence, the text is the sentence slice at the enclosing span, and it is as long as the document span is wide |
| Annotations.DocumentSpanIgnoresSpaceRuns | annotations/Annotation.py:111-120 | for the raw text "he  has pneumonia." the document span [7, 16) of "pneumonia" selects " pneumoni" from the raw text, not "pneumonia" |
| Annotations.UnknownCategoryRejected | annotations/Annotation.py:91-94 | a target whose category is "sepsis", which the table does not list, is rejected with UnrecognizedCategory("sepsis") and no annotation, whatever its modifiers |
| Annotations.NegatedUTIExample | annotations/Annotation.py:123-138 | a UTI target with a definite-negation modifier is classified "Negated Evidence of UTI" |
| ClinicalDocument.SentencesAligned | annotations/ClinicalTextDocument.py:113-125 | every sentence's words are the lower-cased raw-text tokens at its word spans, and its span lies in the raw text |
| ClinicalDocument.NewDocument | annotations/ClinicalTextDocument.py:30-45 | the spans cover `text.split()` in order. The preprocessed text is the lower-cased tokens joined by single spaces. The sentences' words, concatenated, are the lower-cased tokens, and their spans are the raw spans. Sentences are numbered from 0 and aligned with the raw text. There are none exactly for blank text. Nothing is annotated yet |
| ClinicalDocument.AnnotateTargets | annotations/ClinicalTextDocument.py:156-162 | one sentence's targets are built in order until the first rejection, which ends the loop with its error |
| ClinicalDocument.AnnotateFrom | annotations/ClinicalTextDocument.py:151-162 | the outer loop yields every built annotation up to the first rejection across all sentences, and that rejection's error |
| ClinicalDocument.Annotate | annotations/ClinicalTextDocument.py:145-162 | only the two lists change and they are only appended to; one sentence number is appended per annotation and matches it |
| ClinicalDocument.BuildFromPairs | annotations/ClinicalTextDocument.py:151-158 | the pass handles exactly the marked targets, one result per target, sentence by sentence and in the engine's order within a sentence |
| ClinicalDocument.ReplaysStopsAtFirstRejection | annotations/ClinicalTextDocument.py:156-162 | the pass raises exactly when some target is rejected, and all it appended were successes |
| ClinicalDocument.AnnotateRaisesIffRejected | annotations/ClinicalTextDocument.py:151-162 | `annotate` raises exactly when some marked target is rejected by `from_markup` |
| ClinicalDocument.AnnotateOnePerTarget | annotations/ClinicalTextDocument.py:151-162 | with no rejection, exactly one annotation is appended per marked target, in order, each the one `from_markup` builds for it |
| ClinicalDocument.AnnotateKeepsSentenceNames | annotations/ClinicalTextDocument.py:151-162 | if every annotation and every `sentences_with_annotations` entry names the sentence with that index, this still holds after `annotate` (a new document satisfies it trivially) |

## Left out

- `to_etree` and `to_knowtator` in both files: they only build XML with lxml/ElementTree and write files.
- `from_filepath` and the `filepath` branch of the constructor: file I/O.
- The `datetime.now()` timestamp of an annotation: it depends on the clock, so the record has no such field.
- `__str__` and `get_short_string`: debug printing.
- `from_ehost` and `compare`: empty in the source.
- `main`: an example driver.
- The pyConText `MentionLevelModel`: a foreign engine, taken as the `engine` parameter; `getMarkedTargets` and `getModifiers` are the lists in `Markup` and `Target`.
- Text.Lower: lower-cases ASCII letters only; Python's `str.lower` also maps non-ASCII letters.
- Text.Title: title-cases ASCII letters only; this is enough for the two temporality names it is applied to.
- Text.Split: `IsSpace` lists the characters Python's `str.isspace` accepts; the nltk tokenizer splits on the regular expression `\s+`, and the model treats both alike.
- Annotations.InfectionTypeOf: models the regular-expression search only for categories of the shape "… word surgical site infection", which covers every category that reaches it.
- Temporality: `from_markup` never changes it (the source leaves a TODO), so every annotation is "current"; `Classify` still takes any temporality.
- `split_text_and_spans` and `element_tree`: set to `None` and never used by the modelled code.
