# Lossy Compression: The Game, modelled in Dafny

The game shows a sentence in degraded form and asks the player to type the
original back. It has two compression modes:

- **remove** mode deletes letters from the sentence, one more per round;
- **font** mode draws each letter in a random font.

This project models the engine behind the page, which is all in
`game_logic.js`:

- **Letter removal** (`Removal`, `Text`). The session keeps a list of removed
  upper-case letters. `StripEach` is the recursive function that specifies
  the loop taking every letter of the list out of the sentence, ignoring
  case; the loop itself is the method `StripLetters`. `LetterCount` is the
  count that drives the stopping rule: 15 letters or fewer left means stop. `Eligible`
  is the exit condition of the sampling loop. `RemovalStep` is one call of
  `removeNextLetter` on this state.
- **Font distortion** (`Fonts`). The output is a sequence of segments: a
  character plus the index of its font in `FontOptions`, or no font. It is
  not HTML.
- **Scoring** (`Scoring`). Guess and sentence are both upper-cased. A
  match is `Exact`. Anything else is `Scored` with the number of matching
  positions and the rounded percentage. `FeedbackFor` picks one of the three
  messages.
- **Session** (`Session.Game`). A class whose fields are the module-level
  variables of the script: `selectedLetters`, `selectedSentence`,
  `manipulatedSentence`, `gameActive` and `currentMode`. Two more fields
  stand for what the script hands to the page and the timer:
  - `display` is the content of the compressed-sentence area;
  - `pendingStarts` counts the `startNewSentence` callbacks that have been
    scheduled and have not run yet.

  Each JavaScript function is one method. `Valid()` is the invariant the
  methods keep. `State()` is a snapshot of all fields, and the ghost
  predicates `Removed`, `NewRound` and the function `Reset` state each
  method's whole effect on it.

Randomness is not simulated:

- the sentence index is a parameter `pick` below the corpus size;
- the letter is chosen nondeterministically among the eligible letters.
  `EligibleExists` proves that whenever a letter is left in the degraded
  sentence, such a letter exists. That is why the sampling loop in the
  source can always exit;
- each font is chosen nondeterministically among the indices of
  `FontOptions`.

## Model

| member | source | states |
|---|---|---|
| Text.Upper | game_logic.js:170-171 | `toUpperCase` on one character, restricted to ASCII: a lower-case letter becomes its upper-case form, every other character is unchanged |
| Text.UpperStr | game_logic.js:120 | `toUpperCase` on a whole string, character by character |
| Text.LetterCount | game_logic.js:110 | the number of characters in `[a-zA-Z]`, which is the length left once every non-letter is deleted |
| Text.Keep | game_logic.js:132-133 | the characters of a string, in order, whose upper-case form is not in a given set; with a one-letter set this is the case-insensitive global replace by the empty string |
| Removal.StripEach | game_logic.js:130-134 | the sentence after each letter of the list, in list order, has removed its upper- and lower-case occurrences |
| Removal.Eligible | game_logic.js:119-122 | the exit condition of the sampling loop: the letter is in `list_of_letters`, occurs in the upper-cased sentence and is not yet in the list |
| Removal.RemovalStep | game_logic.js:110-134 | one removal step: with 15 or fewer letters left the list is cleared and the degraded sentence kept; otherwise one eligible letter is appended and the sentence is degraded by the whole list |
| Fonts.Distorts | game_logic.js:86-99 | a rendering has one segment per character of the sentence, in order; a letter carries a font index into `fontOptions`, every other character none |
| Scoring.CountUpTo | game_logic.js:180-185 | the number of positions below a bound at which guess and original hold the same character; a position past the end of the guess never matches |
| Scoring.MatchCount | game_logic.js:180-185 | the score: matching positions over the whole length of the original |
| Scoring.Accuracy | game_logic.js:187 | the score as a percentage of the length, rounded half up |
| Scoring.Evaluate | game_logic.js:170-187 | the verdict: exact when the upper-cased strings are equal; otherwise the score with its accuracy, or no accuracy for an empty sentence |
| Scoring.FeedbackFor | game_logic.js:173-193 | the message for a verdict: correct for an exact guess, "affects clarity" below 80%, "beat the compression" otherwise |
| Session.Removed | game_logic.js:106-136 | the effect of `removeNextLetter` on the whole state: nothing outside an active remove-mode round; otherwise one removal step, which on stopping schedules a start and leaves the display, and otherwise shows the new degraded sentence |
| Session.NewRound | game_logic.js:141-160 | the effect of `startNewSentence` on the whole state: the picked sentence and an active round; in remove mode the carried-over letters are applied and shown and a removal step follows; in font mode a distortion is shown; in any other mode nothing else changes |
| Session.Reset | game_logic.js:68-78 | the state after `goBack`: no letters, empty sentences, an empty display, no active round; the mode and the pending starts are unchanged |
| Text.KeepCharacterised | game_logic.js:130-134 | the filtered sentence holds no character whose upper-case form was removed, is a subsequence of the sentence and no longer than it, keeps every other character exactly as often as the sentence has it, and has no removed character at all |
| Text.KeepMembers | game_logic.js:130-134 | every character left by the filter occurs in the sentence and is not a removed letter |
| Text.KeepKeep | game_logic.js:130-134 | filtering by one set after another equals a single filter by their union |
| Text.KeepNothingRemoved | game_logic.js:128 | with no letters removed the degraded sentence is the sentence itself |
| Text.LetterCountWitness | game_logic.js:110 | a string with a positive letter count has an ASCII letter at some position |
| Removal.StripEachIsFilter | game_logic.js:130-134 | applying the letters one at a time with a case-insensitive global replace equals one filter by the set of those letters |
| Removal.StripOrderIrrelevant | game_logic.js:130-134 | two letter lists with the same letters degrade every sentence identically, so drawing order does not matter |
| Removal.StripIdempotent | game_logic.js:147-151 | applying the same letters again to an already degraded sentence changes nothing |
| Removal.StripResult | game_logic.js:128-134 | after the loop no character upper-cases to a selected letter; the result is a subsequence of the sentence, no longer than it, and keeps every other character as often as the sentence has it |
| Removal.StripLetters | game_logic.js:147-151 | the rebuild loop (also at lines 128-134) returns the sentence with each selected letter removed in turn, which is the single filter by the set of selected letters |
| Removal.LetterListBound | game_logic.js:119-126 | a duplicate-free list of letters A to Z has at most 26 entries |
| Removal.UpperLetterDrawable | game_logic.js:8 | every upper-case ASCII letter is in the list letters are drawn from |
| Removal.FilteredResidue | game_logic.js:147-151 | every letter of a freshly degraded sentence comes from the sentence and is not among the removed letters |
| Removal.EligibleExists | game_logic.js:119-124 | while the degraded sentence still holds a letter, some letter from A to Z occurs in the sentence (ignoring case) and has not been drawn, so the sampling loop can exit |
| Removal.StepPreserves | game_logic.js:110-126 | a removal step keeps the list duplicate-free and within the alphabet; the list becomes empty exactly when 15 or fewer letters are left; otherwise it grows by exactly one letter that occurs in the sentence and was not in the list |
| Removal.StepExists | game_logic.js:110-134 | from every consistent state a removal step exists, stopping or appending one letter |
| Fonts.DistortWithFonts | game_logic.js:86-99 | one segment per character in order; each ASCII letter carries a font index below the size of `fontOptions`, every other character carries none |
| Fonts.DistortionKeepsText | game_logic.js:86-99 | dropping the fonts of a distortion gives back the sentence |
| Fonts.DistortHi | game_logic.js:86-99 | "Hi!" renders as 'H' and 'i' each with a font, then '!' without |
| Scoring.Grade | game_logic.js:170-187 | the counting loop computes the verdict: exact when the upper-cased strings are equal, otherwise the position-wise match count and the rounded accuracy |
| Scoring.CountBounds | game_logic.js:180-185 | the score is at most the number of positions compared and at most the guess's length |
| Scoring.CountSelf | game_logic.js:180-185 | a string matches itself at every position |
| Scoring.CountCorrection | game_logic.js:180-185 | correcting one mismatched position of the guess adds exactly one match when that position is counted |
| Scoring.AccuracyRange | game_logic.js:187 | for a score of at most the length the accuracy lies in 0..100; a full score gives 100 and a zero score 0 |
| Scoring.AccuracyMonotone | game_logic.js:187 | a higher score never gives a lower accuracy |
| Scoring.ThresholdMeaning | game_logic.js:187-193 | the rounded accuracy reaches 80 exactly when 200 times the score is at least 159 times the length |
| Scoring.EvaluateRange | game_logic.js:170-187 | the verdict is exact if and only if the upper-cased strings are equal; otherwise the score is at most both lengths and a non-empty sentence gives an accuracy in 0..100 |
| Scoring.EvaluateSelf | game_logic.js:170-177 | a guess equal to the sentence up to case gets the correct message, and its match count would be 100% |
| Scoring.FeedbackThreshold | game_logic.js:189-193 | for a non-empty sentence and an inexact guess the feedback is "beat the compression" exactly when the accuracy is at least 80, that is exactly when 200 times the score is at least 159 times the sentence's length, and "affects clarity" exactly otherwise |
| Scoring.CorrectionNeverHurts | game_logic.js:179-187 | correcting one mismatched position either makes the guess exact or adds one match without lowering the accuracy |
| Scoring.WeatherExample | game_logic.js:170-173 | a guess that differs from "The weather in Sacramento is nice." only in case is exact |
| Session.Game.constructor | game_logic.js:24-28 | the page starts with no letters, empty sentences, no active round, no mode, an empty display and nothing scheduled |
| Session.Game.SelectMode | game_logic.js:57-62 | sets the mode and then behaves as a new round in that mode |
| Session.Game.GoBack | game_logic.js:68-78 | clears the letters, both sentences, the display and the activity flag; keeps the mode and any scheduled start |
| Session.Game.RemoveNextLetter | game_logic.js:106-136 | a no-op unless a round is active in remove mode; otherwise one removal step on the current sentence, which schedules a new sentence when it stops and shows the newly degraded sentence when it does not |
| Session.Game.StartNewSentence | game_logic.js:141-160 | activates a round on the drawn sentence; in remove mode it applies the carried-over letters, shows them and takes one removal step; in font mode it shows a fresh distortion |
| Session.Game.CheckGuess | game_logic.js:167-196 | ignored while no round is active; otherwise returns the verdict for the guess against the sentence and schedules one more start, changing nothing else |
| Session.Game.RunScheduledStart | game_logic.js:195 | a scheduled start runs: one fewer is pending, and a new round begins |
| Session.ResetIdempotent | game_logic.js:68-78 | resetting twice gives the same state as resetting once |
| Session.ResetClears | game_logic.js:71-77 | after a reset the list is empty, both sentences are empty and no round is active, whatever the mode |

## Left out

- Page output is not modelled: the guess box, the feedback element, the
  show/hide toggles of the two screens and the HTML strings. `CheckGuess`
  returns the verdict and `FeedbackFor` names the message it shows. The
  stopping message in `removeNextLetter` is not modelled as output.
- The title-header distortion that runs at load time (game_logic.js:31-48)
  is page decoration.
- The `keydown` and `DOMContentLoaded` wiring (game_logic.js:199-205) is event
  plumbing; `CheckGuess` is the method it calls.
- Timers: each `setTimeout(startNewSentence, 2000)` raises `pendingStarts` by
  one. `RunScheduledStart` is any one of them firing. The 2-second delay is
  not modelled, and neither is when a callback fires relative to user input.
- `Math.random` is not simulated: the sentence index is a parameter and
  letters and fonts are nondeterministic choices within their ranges.
- Session.Game.RemoveNextLetter: says which letters may be drawn, not that each eligible letter is equally likely, because the rejection loop's distribution is not modelled.
- Fonts.DistortWithFonts: says each font is one of `fontOptions`, not that fonts are uniformly distributed, for the same reason.
- Floating point: `Math.round((score / len) * 100)` is modelled as exact
  round-half-up, `(200 * score + len) / (2 * len)`. Rounding error in the
  double-precision product is ignored.
- Scoring.Evaluate: strings are sequences of Unicode characters, not of UTF-16 code units as `length` and indexing count them in JavaScript, so a guess or sentence holding a character outside the Basic Multilingual Plane (an emoji, say) is scored differently: each such character shifts every later position by one in the source but not in the model.
- Case mapping is ASCII only. Non-ASCII characters are left as they are by
  `Upper`. This matches the `[a-zA-Z]` tests and the A-Z letter list but
  not the full Unicode `toUpperCase`.
- `currentMode` is a string in the source. The model uses `Mode`: `Remove`,
  `Font`, and `Unset`, which stands for the initial `""` and for any other
  string. All three behave as in the source.
- An empty sentence is scored with accuracy `None`, standing for
  not-a-number. `NaN < 80` is false, so that case gets the "beat the
  compression" message. This case cannot arise during play, since every
  round takes its sentence from the non-empty corpus.

## Notes on the code

- `goBack` (game_logic.js:68-78) cancels no scheduled start and keeps
  `currentMode`, so a start already scheduled still runs afterwards and
  makes a round active again (`RunScheduledStart` after `GoBack`).
- `selectMode` (game_logic.js:57-62) does not clear `selected_letters`.
- `gameActive` stays true while a new sentence is pending, so a further
  guess is scored and schedules one more start.
