/**
 * The practice session of the practice page: the current word index, the
 * guess being typed and the outcome of the last submitted guess, over a
 * fixed, non-empty list of words.
 */
module Practice {
  import opened Guess

  /** A word to practise and its expected translation. */
  datatype Word = Word(word: string, wordTranslation: string)

  /** The outcome cell, which holds nothing until a guess is submitted. */
  datatype Option<T> = None | Some(value: T)

  class Session {
    const words: seq<Word>
    var wordIndex: int
    var wordGuessValue: string
    var wordGuessResult: Option<WordGuessResult>

    /** The index always points at a word of the list. */
    ghost predicate Valid()
      reads this
    {
      0 <= wordIndex < |words|
    }

    /** A fresh session starts at the first word, with an empty guess and no outcome. */
    constructor (words: seq<Word>)
      requires |words| > 0
      ensures Valid()
      ensures this.words == words
      ensures wordIndex == 0 && wordGuessValue == "" && wordGuessResult == None
    {
      this.words := words;
      wordIndex := 0;
      wordGuessValue := "";
      wordGuessResult := None;
    }

    /** The word on the card. */
    function CurrentWord(): Word
      reads this
      requires Valid()
    {
      words[wordIndex]
    }

    /** The expected translation (and the Continue button) are shown after a guess that did not match. */
    function ShouldShowAnswer(): (show: bool)
      reads this
      ensures show <==> wordGuessResult == Some(PartialMatch) || wordGuessResult == Some(Incorrect)
      ensures show ==> wordGuessResult != Some(Match)
    {
      wordGuessResult.Some? && wordGuessResult.value in [PartialMatch, Incorrect]
    }

    /** The guess form is locked as soon as there is an outcome, whatever it is. */
    function ShouldDisableForm(): (disabled: bool)
      reads this
      ensures disabled <==> wordGuessResult != None
      ensures ShouldShowAnswer() ==> disabled
    {
      wordGuessResult.Some? || ShouldShowAnswer()
    }

    /**
     * `goToNextWord`: moves to the next word with a cleared guess and no
     * outcome; at the last word it reports completion and changes nothing.
     */
    method GoToNextWord() returns (completed: bool)
      requires Valid()
      modifies this
      ensures Valid()
      ensures completed <==> old(wordIndex) == |words| - 1
      ensures completed ==>
        wordIndex == old(wordIndex) && wordGuessValue == old(wordGuessValue) &&
        wordGuessResult == old(wordGuessResult)
      ensures !completed ==>
        wordIndex == old(wordIndex) + 1 && wordGuessValue == "" && wordGuessResult == None
    {
      if wordIndex + 1 >= |words| {
        return true;
      }
      wordIndex := wordIndex + 1;
      wordGuessValue := "";
      wordGuessResult := None;
      completed := false;
    }

    /**
     * `handleWordIndexChange`, given the requested 0-based index: an index
     * outside the list is clamped to its nearest end.
     */
    method HandleWordIndexChange(newWordIndex: int)
      requires Valid()
      modifies this
      ensures Valid()
      ensures newWordIndex <= 0 ==> wordIndex == 0
      ensures newWordIndex >= |words| ==> wordIndex == |words| - 1
      ensures 0 < newWordIndex < |words| ==> wordIndex == newWordIndex
      ensures wordGuessValue == old(wordGuessValue) && wordGuessResult == old(wordGuessResult)
    {
      if newWordIndex <= 0 {
        wordIndex := 0;
      } else if newWordIndex >= |words| {
        wordIndex := |words| - 1;
      } else {
        wordIndex := newWordIndex;
      }
    }

    /** `handleWordGuessValueChange`: the typed text replaces the guess. */
    method HandleWordGuessValueChange(value: string)
      requires Valid()
      modifies this
      ensures Valid()
      ensures wordGuessValue == value
      ensures wordIndex == old(wordIndex) && wordGuessResult == old(wordGuessResult)
    {
      wordGuessValue := value;
    }

    /** `handleGuessFormSubmit`: the current guess is classified against the current word. */
    method HandleGuessFormSubmit()
      requires Valid()
      modifies this
      ensures Valid()
      ensures wordGuessResult == Some(Classify(words[wordIndex].wordTranslation, wordGuessValue))
      ensures wordIndex == old(wordIndex) && wordGuessValue == old(wordGuessValue)
    {
      wordGuessResult := Some(Classify(CurrentWord().wordTranslation, wordGuessValue));
    }

    /**
     * The effect that runs when the outcome changes: a match moves on to the
     * next word by itself; any other outcome waits for Continue.
     */
    method OnGuessResultChange() returns (completed: bool)
      requires Valid()
      modifies this
      ensures Valid()
      ensures old(wordGuessResult) != Some(Match) ==>
        !completed && wordIndex == old(wordIndex) &&
        wordGuessValue == old(wordGuessValue) && wordGuessResult == old(wordGuessResult)
      ensures old(wordGuessResult) == Some(Match) ==>
        (completed <==> old(wordIndex) == |words| - 1)
      ensures old(wordGuessResult) == Some(Match) && completed ==>
        wordIndex == old(wordIndex) && wordGuessValue == old(wordGuessValue) &&
        wordGuessResult == Some(Match)
      ensures old(wordGuessResult) == Some(Match) && !completed ==>
        wordIndex == old(wordIndex) + 1 && wordGuessValue == "" && wordGuessResult == None
    {
      completed := false;
      if wordGuessResult == Some(Match) {
        completed := GoToNextWord();
      }
    }

    /**
     * The user submits the guess form. While the form is locked nothing
     * happens; otherwise the guess is classified and, the outcome having
     * changed from none, the effect above runs.
     */
    method SubmitGuess() returns (completed: bool)
      requires Valid()
      modifies this
      ensures Valid()
      ensures old(ShouldDisableForm()) ==>
        !completed && wordIndex == old(wordIndex) &&
        wordGuessValue == old(wordGuessValue) && wordGuessResult == old(wordGuessResult)
      ensures !old(ShouldDisableForm()) ==>
        var r := Classify(old(words[wordIndex].wordTranslation), old(wordGuessValue));
        && (completed <==> r == Match && old(wordIndex) == |words| - 1)
        && (r == Match && !completed ==>
              wordIndex == old(wordIndex) + 1 && wordGuessValue == "" && wordGuessResult == None)
        && (r == Match && completed ==>
              wordIndex == old(wordIndex) && wordGuessValue == old(wordGuessValue) &&
              wordGuessResult == Some(Match) && ShouldDisableForm())
        && (r != Match ==>
              wordIndex == old(wordIndex) && wordGuessValue == old(wordGuessValue) &&
              wordGuessResult == Some(r) && ShouldShowAnswer() && ShouldDisableForm())
    {
      if ShouldDisableForm() {
        return false;
      }
      HandleGuessFormSubmit();
      completed := OnGuessResultChange();
    }

    /**
     * The user types into the guess field, which sits inside the form's
     * fieldset and is locked with it: while there is an outcome typing
     * changes nothing.
     */
    method TypeGuess(value: string)
      requires Valid()
      modifies this
      ensures Valid()
      ensures old(ShouldDisableForm()) ==> wordGuessValue == old(wordGuessValue)
      ensures !old(ShouldDisableForm()) ==> wordGuessValue == value
      ensures wordIndex == old(wordIndex) && wordGuessResult == old(wordGuessResult)
    {
      if ShouldDisableForm() {
        return;
      }
      HandleWordGuessValueChange(value);
    }

    /**
     * The user clicks Continue, which is only on the page while the answer
     * is shown; it moves on like `goToNextWord`.
     */
    method ClickContinue() returns (completed: bool)
      requires Valid()
      modifies this
      ensures Valid()
      ensures !old(ShouldShowAnswer()) ==>
        !completed && wordIndex == old(wordIndex) &&
        wordGuessValue == old(wordGuessValue) && wordGuessResult == old(wordGuessResult)
      ensures old(ShouldShowAnswer()) ==>
        (completed <==> old(wordIndex) == |words| - 1)
      ensures old(ShouldShowAnswer()) && !completed ==>
        wordIndex == old(wordIndex) + 1 && wordGuessValue == "" && wordGuessResult == None
      ensures old(ShouldShowAnswer()) && completed ==>
        wordIndex == old(wordIndex) && wordGuessValue == old(wordGuessValue) &&
        wordGuessResult == old(wordGuessResult)
    {
      if !ShouldShowAnswer() {
        return false;
      }
      completed := GoToNextWord();
    }
  }

  /**
   * A run over two words, as a user would drive it: an exact guess moves on
   * by itself, a blank guess shows the answer and waits for Continue, and
   * Continue on the last word only reports completion.
   */
  method PracticeRun(first: Word, second: Word) returns (s: Session)
    requires !Strings.AllWhitespace(second.wordTranslation)
    ensures s.Valid() && s.words == [first, second]
    ensures s.wordIndex == 1 && s.wordGuessValue == "" && s.wordGuessResult == Some(PartialMatch)
  {
    s := new Session([first, second]);
    s.TypeGuess(first.wordTranslation);
    ClassifyReflexive(first.wordTranslation);
    var completed := s.SubmitGuess();
    assert !completed && s.wordIndex == 1 && s.wordGuessValue == "" && s.wordGuessResult == None;

    BlankGuessIsPartialMatch(second.wordTranslation, "");
    completed := s.SubmitGuess();
    assert !completed && s.wordIndex == 1 && s.wordGuessResult == Some(PartialMatch);
    assert s.ShouldShowAnswer() && s.ShouldDisableForm();

    completed := s.SubmitGuess();
    assert !completed && s.wordGuessResult == Some(PartialMatch);
    s.TypeGuess(second.wordTranslation);
    assert s.wordGuessValue == "";

    completed := s.ClickContinue();
    assert completed && s.wordIndex == 1 && s.wordGuessResult == Some(PartialMatch);

    s.HandleWordIndexChange(-5);
    assert s.wordIndex == 0 && s.wordGuessResult == Some(PartialMatch);
    s.HandleWordIndexChange(7);
  }
}
