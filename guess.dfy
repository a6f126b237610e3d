/**
 * The guess classifier of the practice page: a typed translation is compared
 * with the expected one after both are lower-cased and trimmed.
 */
module Guess {
  import opened Strings

  /** The three outcomes of comparing a guess with the expected translation. */
  datatype WordGuessResult = Match | PartialMatch | Incorrect

  /** The form both strings are compared in: lower-cased, then trimmed. */
  function Normalize(s: string): (r: string)
    ensures r == [] <==> AllWhitespace(s)
  {
    LowerWhitespace(s);
    Trim(Lower(s))
  }

  /** `getWordGuessResult(wordTranslation, wordGuess)`. */
  function Classify(wordTranslation: string, wordGuess: string): (r: WordGuessResult)
    ensures r == Match <==> Normalize(wordGuess) == Normalize(wordTranslation)
    ensures r == Incorrect <==>
      !Includes(Normalize(wordTranslation), Normalize(wordGuess)) &&
      !Includes(Normalize(wordGuess), Normalize(wordTranslation))
  {
    var t := Normalize(wordTranslation);
    var g := Normalize(wordGuess);
    IncludesEmptyAndSelf(t);
    if g == t then Match
    else if Includes(t, g) || Includes(g, t) then PartialMatch
    else Incorrect
  }

  /** Normalizing an already normalized string changes nothing. */
  lemma NormalizeIdempotent(s: string)
    ensures Normalize(Normalize(s)) == Normalize(s)
  {
    var l := Lower(s);
    LowerIdempotent(s);
    LowerTrim(l);
    TrimIdempotent(l);
  }

  /** The result depends on the two inputs only through their normal forms. */
  lemma ClassifyDependsOnNormalForms(t: string, t': string, g: string, g': string)
    requires Normalize(t) == Normalize(t') && Normalize(g) == Normalize(g')
    ensures Classify(t, g) == Classify(t', g')
  {
  }

  /** Swapping the expected translation and the guess does not change the outcome. */
  lemma ClassifySymmetric(a: string, b: string)
    ensures Classify(a, b) == Classify(b, a)
  {
  }

  /** Every string matches itself, and only strings with the same normal form match. */
  lemma ClassifyReflexive(a: string)
    ensures Classify(a, a) == Match
  {
  }

  /** Two strings that differ only in the case of ASCII letters are classified alike. */
  lemma ClassifyIgnoresCase(a: string, a': string, b: string)
    requires |a| == |a'|
    requires forall i :: 0 <= i < |a| ==> LowerChar(a[i]) == LowerChar(a'[i])
    ensures Classify(a, b) == Classify(a', b)
    ensures Classify(b, a) == Classify(b, a')
    ensures Classify(a, a') == Match
  {
    assert Lower(a) == Lower(a');
  }

  /** White space around either input does not change the outcome. */
  lemma ClassifyIgnoresSurroundingWhitespace(p: string, a: string, q: string, b: string)
    requires AllWhitespace(p) && AllWhitespace(q)
    ensures Classify(p + a + q, b) == Classify(a, b)
    ensures Classify(b, p + a + q) == Classify(b, a)
  {
    NormalizePadded(p, a, q);
  }

  /** White space around a string does not change its normal form. */
  lemma NormalizePadded(p: string, a: string, q: string)
    requires AllWhitespace(p) && AllWhitespace(q)
    ensures Normalize(p + a + q) == Normalize(a)
  {
    LowerConcat(p + a, q);
    LowerConcat(p, a);
    LowerKeepsWhitespace(p);
    LowerKeepsWhitespace(q);
    assert Lower(p + a + q) == p + Lower(a) + q;
    TrimPadded(p, Lower(a), q);
  }

  /**
   * A guess that is empty or only white space, against a translation that is
   * not, is a partial match: the empty string is contained in every string.
   */
  lemma BlankGuessIsPartialMatch(t: string, g: string)
    requires AllWhitespace(g) && !AllWhitespace(t)
    ensures Classify(t, g) == PartialMatch
  {
    IncludesEmptyAndSelf(Normalize(t));
  }

  /** An `Incorrect` outcome is only possible when both inputs hold some non-white text. */
  lemma IncorrectNeedsText(t: string, g: string)
    requires Classify(t, g) == Incorrect
    ensures !AllWhitespace(t) && !AllWhitespace(g)
  {
    IncludesEmptyAndSelf(Normalize(t));
    IncludesEmptyAndSelf(Normalize(g));
  }

  /** A normalized guess found inside the normalized translation, but not equal to it, is a partial match. */
  lemma ContainedGuessIsPartialMatch(t: string, g: string, k: int)
    requires OccursAt(Normalize(t), Normalize(g), k)
    requires Normalize(g) != Normalize(t)
    ensures Classify(t, g) == PartialMatch
  {
  }

  /** The normal form of a string whose lower-cased form has no white space at either end is that form. */
  lemma NormalFormOf(s: string, n: string)
    requires Lower(s) == n
    requires n == [] || (!IsWhitespace(n[0]) && !IsWhitespace(n[|n| - 1]))
    ensures Normalize(s) == n
  {
    TrimUntouched(n);
  }

  // The examples below take their sample strings as parameters fixed by a
  // `requires`, and each literal fact is a lemma of its own: a literal
  // argument written straight into `Normalize` or `Classify` makes the
  // verifier evaluate those functions on it, which is far costlier.

  /** Case and a trailing space are ignored. */
  lemma ClassifyExampleMatch(t: string, g: string)
    requires t == "Casa" && g == "casa "
    ensures Classify(t, g) == Match
  {
    SampleNormalForm(t, "casa");
    PaddedSampleNormalForm(g);
  }

  /** A guess that is a prefix of the translation is a partial match. */
  lemma ClassifyExamplePartialMatch(t: string, g: string)
    requires t == "Hola" && g == "Ho"
    ensures Classify(t, g) == PartialMatch
  {
    SampleNormalForm(t, "hola");
    SampleNormalForm(g, "ho");
    PrefixOccurs("hola", "ho");
    ContainedGuessIsPartialMatch(t, g, 0);
  }

  /** Two unrelated words are classified as incorrect. */
  lemma ClassifyExampleIncorrect(t: string, g: string)
    requires t == "Hola" && g == "Adios"
    ensures Classify(t, g) == Incorrect
  {
    SampleNormalForm(t, "hola");
    SampleNormalForm(g, "adios");
    UnrelatedSamples("hola", "adios");
  }

  /** The sample words used above normalize to their lower-case spelling. */
  lemma SampleNormalForm(s: string, n: string)
    requires (s == "Casa" && n == "casa") || (s == "casa" && n == "casa") ||
             (s == "Hola" && n == "hola") || (s == "Ho" && n == "ho") ||
             (s == "Adios" && n == "adios")
    ensures Normalize(s) == n
  {
    LetterNotWhitespace(n[0]);
    LetterNotWhitespace(n[|n| - 1]);
    NormalFormOf(s, n);
  }

  /** "casa " normalizes to "casa". */
  lemma PaddedSampleNormalForm(g: string)
    requires g == "casa "
    ensures Normalize(g) == "casa"
  {
    SpacedSample(g);
    NormalizePadded([], "casa", " ");
    SampleNormalForm("casa", "casa");
  }

  /** "casa " is "casa" followed by white space. */
  lemma SpacedSample(g: string)
    requires g == "casa "
    ensures g == [] + "casa" + " " && AllWhitespace([]) && AllWhitespace(" ")
  {
  }

  /** "ho" occurs at the start of "hola". */
  lemma PrefixOccurs(a: string, b: string)
    requires a == "hola" && b == "ho"
    ensures OccursAt(a, b, 0)
  {
  }

  /** Neither of "hola" and "adios" contains the other. */
  lemma UnrelatedSamples(a: string, b: string)
    requires a == "hola" && b == "adios"
    ensures !Includes(a, b) && !Includes(b, a)
  {
    IncludesNoLonger(a, b);
    IncludesNoLonger(b[1..], a);
    assert b[1..] == "dios";
  }
}
