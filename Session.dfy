/**
 * The game session: the module-level fields of the game (`selected_letters`,
 * `selected_sentence`, `manipulated_sentence`, `gameActive`, `currentMode`)
 * as the fields of one object, with `selectMode`, `goBack`,
 * `startNewSentence`, `removeNextLetter` and `checkGuess` as its methods.
 * What is shown in the compressed-sentence area is kept as an abstract view,
 * and each `setTimeout(startNewSentence, 2000)` as one pending start.
 */
module Session {
  import opened Wrappers
  import opened Text
  import opened Removal
  import opened Fonts
  import opened Scoring

  /** `list_of_sentences`: the corpus a round's sentence is drawn from. */
  const Sentences: seq<string> := [
    "Hi! How are you doing?",
    "The weather in Sacramento is nice.",
    "Lossy compression removes data.",
    "Signal processing is powerful."
  ]

  /** `currentMode`: `Unset` stands for the initial `""` and any other string. */
  datatype Mode = Unset | Remove | Font

  /** The content of the compressed-sentence area: plain text, or font-styled letters. */
  datatype View = Plain(text: string) | Styled(segments: seq<Segment>)

  /** A snapshot of every field of a session. */
  datatype Snapshot = Snapshot(letters: seq<char>, sentence: string, manipulated: string,
                               active: bool, mode: Mode, display: View, pending: nat)

  /** The state when the page has loaded. */
  const Initial := Snapshot([], "", "", false, Unset, Plain(""), 0)

  /** `goBack`: round state is cleared; the mode and any scheduled starts are left alone. */
  function Reset(s: Snapshot): Snapshot {
    s.(letters := [], sentence := "", manipulated := "", active := false, display := Plain(""))
  }

  /**
   * `removeNextLetter`: nothing happens unless a round is active in remove
   * mode; otherwise one removal step is taken on the current sentence. The
   * stopping branch schedules a new sentence and leaves the display alone;
   * the other shows the newly degraded sentence.
   */
  ghost predicate Removed(s: Snapshot, s': Snapshot) {
    if !s.active || s.mode != Remove then s' == s
    else
      RemovalStep(s.sentence, s.letters, s.manipulated, s'.letters, s'.manipulated) &&
      s'.sentence == s.sentence && s'.active && s'.mode == Remove &&
      if Stops(s.manipulated) then s'.display == s.display && s'.pending == s.pending + 1
      else s'.display == Plain(s'.manipulated) && s'.pending == s.pending
  }

  /**
   * `startNewSentence` with the corpus index `pick`: the round becomes active
   * on `Sentences[pick]`. In remove mode the existing letters are applied to
   * it, the result is shown and one removal step follows; in font mode the
   * sentence is shown with fresh fonts; in any other mode nothing is shown.
   */
  ghost predicate NewRound(s: Snapshot, s': Snapshot, pick: nat)
    requires pick < |Sentences|
  {
    var sentence := Sentences[pick];
    match s.mode
    case Remove =>
      var degraded := Keep(sentence, Elems(s.letters));
      Removed(Snapshot(s.letters, sentence, degraded, true, Remove, Plain(degraded), s.pending), s')
    case Font =>
      s' == s.(sentence := sentence, manipulated := sentence, active := true, display := s'.display) &&
      s'.display.Styled? && Distorts(s'.display.segments, sentence)
    case Unset =>
      s' == s.(sentence := sentence, manipulated := sentence, active := true)
  }

  class Game {
    var selectedLetters: seq<char>
    var selectedSentence: string
    var manipulatedSentence: string
    var gameActive: bool
    var currentMode: Mode
    var display: View
    /** How many `startNewSentence` callbacks are scheduled and have not run yet. */
    var pendingStarts: nat

    /**
     * The removed letters are distinct letters A to Z, and in remove mode the
     * degraded sentence only holds letters of the sentence that were not removed.
     */
    ghost predicate Valid()
      reads this
    {
      LetterList(selectedLetters) &&
      (currentMode == Remove ==> Residue(manipulatedSentence, selectedSentence, selectedLetters))
    }

    ghost function State(): Snapshot
      reads this
    {
      Snapshot(selectedLetters, selectedSentence, manipulatedSentence, gameActive, currentMode,
               display, pendingStarts)
    }

    constructor ()
      ensures Valid() && State() == Initial
    {
      selectedLetters := [];
      selectedSentence := "";
      manipulatedSentence := "";
      gameActive := false;
      currentMode := Unset;
      display := Plain("");
      pendingStarts := 0;
    }

    /** `selectMode`: sets the mode and starts a round. */
    method SelectMode(mode: Mode, pick: nat)
      requires Valid() && pick < |Sentences|
      modifies this
      ensures Valid()
      ensures NewRound(old(State()).(mode := mode), State(), pick)
    {
      currentMode := mode;
      StartNewSentence(pick);
    }

    /** `goBack`: clears the round and the display. */
    method GoBack()
      requires Valid()
      modifies this
      ensures Valid()
      ensures State() == Reset(old(State()))
    {
      selectedLetters := [];
      selectedSentence := "";
      manipulatedSentence := "";
      display := Plain("");
      gameActive := false;
    }

    /** `removeNextLetter`, with the sampling loop made a choice among the eligible letters. */
    method RemoveNextLetter()
      requires Valid()
      modifies this
      ensures Valid()
      ensures Removed(old(State()), State())
    {
      if !gameActive || currentMode != Remove {
        return;
      }
      if LetterCount(manipulatedSentence) <= StopThreshold {
        selectedLetters := [];
        pendingStarts := pendingStarts + 1;
        return;
      }
      ghost var found := EligibleExists(selectedSentence, selectedLetters, manipulatedSentence);
      var letter :| letter in Letters && Eligible(selectedSentence, selectedLetters, letter);
      ghost var before := selectedLetters;
      ghost var degraded := manipulatedSentence;
      selectedLetters := selectedLetters + [letter];
      manipulatedSentence := StripLetters(selectedSentence, selectedLetters);
      display := Plain(manipulatedSentence);
      assert selectedLetters[..|before|] == before;
      StepPreserves(selectedSentence, before, degraded, selectedLetters, manipulatedSentence);
    }

    /** `startNewSentence` with the sentence drawn at corpus index `pick`. */
    method StartNewSentence(pick: nat)
      requires LetterList(selectedLetters) && pick < |Sentences|
      modifies this
      ensures Valid()
      ensures NewRound(old(State()), State(), pick)
    {
      selectedSentence := Sentences[pick];
      manipulatedSentence := selectedSentence;
      gameActive := true;
      if currentMode == Remove {
        manipulatedSentence := StripLetters(selectedSentence, selectedLetters);
        display := Plain(manipulatedSentence);
        FilteredResidue(selectedSentence, selectedLetters);
        RemoveNextLetter();
      } else if currentMode == Font {
        var segments := DistortWithFonts(manipulatedSentence);
        display := Styled(segments);
      }
    }

    /**
     * `checkGuess` on the text of the guess box: ignored while no round is
     * active; otherwise the guess is scored and a new sentence is scheduled.
     */
    method CheckGuess(guessInput: string) returns (verdict: Option<Verdict>)
      requires Valid()
      modifies this
      ensures Valid()
      ensures !old(gameActive) ==> verdict == None && State() == old(State())
      ensures old(gameActive) ==>
        verdict == Some(Evaluate(guessInput, selectedSentence)) &&
        State() == old(State()).(pending := old(pendingStarts) + 1)
    {
      if !gameActive {
        return None;
      }
      var v := Grade(guessInput, selectedSentence);
      pendingStarts := pendingStarts + 1;
      verdict := Some(v);
    }

    /** A scheduled `startNewSentence` callback runs, with the sentence drawn at index `pick`. */
    method RunScheduledStart(pick: nat)
      requires Valid() && pendingStarts > 0 && pick < |Sentences|
      modifies this
      ensures Valid()
      ensures NewRound(old(State()).(pending := old(pendingStarts) - 1), State(), pick)
    {
      pendingStarts := pendingStarts - 1;
      StartNewSentence(pick);
    }
  }

  /** Going back twice leaves the same state as going back once. */
  lemma ResetIdempotent(s: Snapshot)
    ensures Reset(Reset(s)) == Reset(s)
  {
  }

  /** Going back always empties the removal list, both sentences and the activity flag. */
  lemma ResetClears(s: Snapshot)
    ensures var r := Reset(s);
      r.letters == [] && r.sentence == "" && r.manipulated == "" && !r.active && r.mode == s.mode
  {
  }
}
