# Practice page of the language-learning helper, in Dafny

The practice page shows one word of a fixed list, takes a typed translation,
classifies it against the expected translation and moves through the list.
This project models its two pieces of logic:

- the **guess classifier** (`getWordGuessResult`): both strings are
  lower-cased and trimmed; equal normal forms are a `Match`, a normal form
  contained in the other is a `PartialMatch`, anything else is `Incorrect`
  (module `Guess`, on top of module `Strings`, which gives the JavaScript
  built-ins `toLowerCase`, `trim` and `includes` a definition and proves what
  the classifier needs of them);
- the **practice session** (module `Practice`): the three state cells
  `wordIndex`, `wordGuessValue` and `wordGuessResult` are the fields of class
  `Session`, and each handler of the page is a method that updates them. The
  object invariant `Valid()` keeps the index inside the word list and every
  method preserves it. Two user-level methods add what the page's markup
  decides: `SubmitGuess` does nothing while the guess form is disabled,
  `TypeGuess` does nothing while the guess field (inside that disabled
  fieldset) is locked, and `ClickContinue` does nothing while the Continue
  button is not rendered. `PracticeRun` drives a two-word session through
  these actions.

The word list is a constructor parameter (any non-empty `seq<Word>`).

Two consequences of the code as written. First, a `Match` on the last word
reports completion and leaves the outcome at `Match`, so the form stays
disabled and no Continue button appears; the contracts of `SubmitGuess`,
`ShouldDisableForm` and `ShouldShowAnswer` state this. Second, jumping to
another word keeps the current outcome (the contract of
`HandleWordIndexChange`); the page then shows the answer, if one was
revealed, next to the word jumped to, with that word's translation. What the
page renders is not modelled, so this second half is read off the markup, not
proved.

## Model

| member | source | states |
|---|---|---|
| Strings.Lower | pages/practice.tsx:39-40 | lower-casing keeps the length and maps each character through ASCII lower-casing |
| Strings.LowerCharWhitespace | pages/practice.tsx:39-40 | lower-casing a character keeps it white space exactly when it was |
| Strings.LowerWhitespace | pages/practice.tsx:39-40 | lower-casing neither creates nor removes white space |
| Strings.LowerKeepsWhitespace | pages/practice.tsx:39-40 | a string of white space is unchanged by lower-casing |
| Strings.LowerConcat | pages/practice.tsx:39-40 | lower-casing distributes over concatenation |
| Strings.LowerIdempotent | pages/practice.tsx:39-40 | lower-casing twice equals lower-casing once |
| Strings.LowerTrim | pages/practice.tsx:39-40 | trimming a lower-cased string gives a lower-cased string |
| Strings.LeadingWhitespace | pages/practice.tsx:39-40 | the count of leading characters `trim` removes: all of them are white space, and the next character, if any, is not |
| Strings.TrailingWhitespace | pages/practice.tsx:39-40 | the count of trailing characters `trim` removes: all of them are white space, and the character before them, if any, is not |
| Strings.LeadingWhitespaceIs | pages/practice.tsx:39-40 | any count with those two properties is the leading white space |
| Strings.TrailingWhitespaceIs | pages/practice.tsx:39-40 | any count with those two properties is the trailing white space |
| Strings.Trim | pages/practice.tsx:39-40 | the result has no white space at either end, and it is empty exactly when the input is all white space |
| Strings.TrimDropsWhitespace | pages/practice.tsx:39-40 | everything `trim` drops, before the result and after it, is white space |
| Strings.TrimSlice | pages/practice.tsx:39-40 | the result is the slice of the input that starts right after its leading white space |
| Strings.LeadingPadded | pages/practice.tsx:39-40 | white space put in front of a string adds its length to the leading white space |
| Strings.TrailingPadded | pages/practice.tsx:39-40 | white space put after a string adds its length to the trailing white space |
| Strings.LeadingAppend | pages/practice.tsx:39-40 | text appended to a string with some non-white character leaves its leading white space as it was |
| Strings.TrimStartPadded | pages/practice.tsx:39-40 | around a string with some text, start-trimming drops the white space before it and keeps the text and the white space after it |
| Strings.TrimEndPadded | pages/practice.tsx:39-40 | white space appended to a string does not change its end-trimmed form |
| Strings.TrimPadded | pages/practice.tsx:39-40 | white space on either side of a string does not change its trimmed form |
| Strings.TrimUntouched | pages/practice.tsx:39-40 | a string with no white space at either end is its own trimmed form |
| Strings.TrimIdempotent | pages/practice.tsx:39-40 | trimming twice equals trimming once |
| Strings.Includes | pages/practice.tsx:45-46 | the search answers true exactly when the needle occurs at some position of the haystack |
| Strings.IncludesStep | pages/practice.tsx:45-46 | when the needle is not at position 0, it occurs in the haystack exactly when it occurs in the haystack without its first character |
| Strings.IncludesEmptyAndSelf | pages/practice.tsx:45-46 | every string contains the empty string and itself |
| Strings.IncludesNoLonger | pages/practice.tsx:45-46 | a string is found in one no longer than itself only when the two are equal |
| Guess.Normalize | pages/practice.tsx:39-40 | the normal form is empty exactly when the input is all white space |
| Guess.NormalizeIdempotent | pages/practice.tsx:39-40 | normalizing a normal form changes nothing |
| Guess.NormalizePadded | pages/practice.tsx:39-40 | white space around a string does not change its normal form |
| Guess.NormalFormOf | pages/practice.tsx:39-40 | a string whose lower-cased form has no white space at either end has that form as its normal form |
| Guess.Classify | pages/practice.tsx:35-51 | `Match` exactly when the normal forms are equal; `Incorrect` exactly when neither normal form contains the other; `PartialMatch` otherwise |
| Guess.ClassifyDependsOnNormalForms | pages/practice.tsx:39-42 | inputs with the same normal forms are classified the same |
| Guess.ClassifySymmetric | pages/practice.tsx:42-48 | swapping translation and guess does not change the outcome |
| Guess.ClassifyReflexive | pages/practice.tsx:42 | every string matches itself |
| Guess.ClassifyIgnoresCase | pages/practice.tsx:39-40 | strings that differ only in the case of ASCII letters are classified alike, and match each other |
| Guess.ClassifyIgnoresSurroundingWhitespace | pages/practice.tsx:39-40 | white space around either input does not change the outcome |
| Guess.BlankGuessIsPartialMatch | pages/practice.tsx:44-48 | an empty or all-white guess against a translation with some text is a `PartialMatch` |
| Guess.IncorrectNeedsText | pages/practice.tsx:44-50 | `Incorrect` only happens when both inputs hold some non-white text |
| Guess.ContainedGuessIsPartialMatch | pages/practice.tsx:44-48 | a normalized guess found inside the normalized translation, but not equal to it, is a `PartialMatch` |
| Guess.ClassifyExampleMatch | pages/practice.tsx:35-51 | "Casa" against "casa " is a `Match` |
| Guess.ClassifyExamplePartialMatch | pages/practice.tsx:35-51 | "Hola" against "Ho" is a `PartialMatch` |
| Guess.ClassifyExampleIncorrect | pages/practice.tsx:35-51 | "Hola" against "Adios" is `Incorrect` |
| Guess.SampleNormalForm | pages/practice.tsx:39-40 | "Casa", "casa", "Hola", "Ho" and "Adios" normalize to their lower-case spelling |
| Guess.PaddedSampleNormalForm | pages/practice.tsx:39-40 | "casa " normalizes to "casa" |
| Guess.UnrelatedSamples | pages/practice.tsx:45-46 | neither of "hola" and "adios" contains the other |
| Practice.Session.constructor | pages/practice.tsx:57-60 | a session starts at index 0 with an empty guess and no outcome, and the index is valid |
| Practice.Session.ShouldShowAnswer | pages/practice.tsx:105-109 | the answer is shown exactly when the outcome is `PartialMatch` or `Incorrect`, never after a `Match` |
| Practice.Session.ShouldDisableForm | pages/practice.tsx:110 | the form is disabled exactly when there is an outcome; the `shouldShowAnswer` disjunct adds nothing |
| Practice.Session.GoToNextWord | pages/practice.tsx:64-71 | at the last index it reports completion and changes nothing; otherwise the index moves up by one, the guess is cleared and the outcome reset; the index stays valid |
| Practice.Session.HandleWordIndexChange | pages/practice.tsx:83-89 | a request at or below 0 gives 0, at or above the list length gives the last index, otherwise the request itself; guess and outcome are untouched; the index stays valid |
| Practice.Session.HandleWordGuessValueChange | pages/practice.tsx:91-92 | the guess becomes the typed text; index and outcome are untouched |
| Practice.Session.HandleGuessFormSubmit | pages/practice.tsx:94-97 | the outcome becomes the classification of the guess against the current word's translation; nothing else changes |
| Practice.Session.OnGuessResultChange | pages/practice.tsx:73-77 | a `Match` outcome moves on as `goToNextWord` does; any other outcome changes nothing |
| Practice.Session.SubmitGuess | pages/practice.tsx:159-163 | with the form disabled nothing changes; otherwise a `Match` moves to the next word without Continue (or reports completion at the last word, keeping index and guess and leaving the form disabled), and any other outcome stays, shows the answer and disables the form |
| Practice.Session.TypeGuess | pages/practice.tsx:160-177 | while the fieldset is disabled (an outcome is set) typing changes nothing; otherwise the guess becomes the typed text; index and outcome are untouched |
| Practice.Session.ClickContinue | pages/practice.tsx:182-192 | without a shown answer nothing changes; otherwise it moves on as `goToNextWord` does |
| Practice.PracticeRun | pages/practice.tsx:57-110 | over two words, a guess equal to the first translation moves on by itself; a blank guess then shows the answer; typing and submitting are locked while it shows; Continue on the last word only reports completion; index jumps are clamped; the session ends on the second word with an empty guess and a `PartialMatch` |

## Left out

- Strings.Lower: lower-cases the ASCII letters `A`-`Z` only; the Unicode case mapping of `toLowerCase` (other scripts, characters whose lower-case form is longer) is not modelled. `trim` uses the full fixed set of ECMAScript white space and line terminators.
- Strings are sequences of Unicode scalar values, not UTF-16 code units as in JavaScript.
- Practice.Session.HandleWordIndexChange: takes the already parsed 0-based index; the text parsing of `parseInt(e.target.value) - 1`, and the `NaN` it yields for non-numeric text (which the code would store as the index), belong to the browser layer.
- Practice.Session.GoToNextWord: the `alert` shown at the end of the list is returned as the `completed` flag.
- Practice.Session.OnGuessResultChange: the 300 ms `setTimeout` before moving on after a `Match` is modelled as an immediate call. The timer keeps the index of the render that scheduled it, so a jump made within those 300 ms is not modelled.
- Focus handling through `useRef` and `focus()` is a DOM side effect with nothing to state.
- The rendering (JSX tree, CSS classes derived from the outcome, page head, footer). The string values of the `WordGuessResult` enum are all non-empty, so every outcome is truthy in `!!wordGuessResult` (lines 106 and 110); the model relies on that when it reads "an outcome is set" as `Some?`. Which values they are does not matter otherwise, since the CSS classes are chosen by `===` against the enum members.
- The contents of the word list and the `Word` type are not part of this model; the list is any non-empty sequence given to the constructor.
