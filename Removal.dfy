/**
 * The letter-removal compression model: the list of removed letters, the
 * per-letter case-insensitive `replace` loop that rebuilds the degraded
 * sentence, the stopping rule and which letters may be chosen next.
 */
module Removal {
  import opened Text

  /** `list_of_letters`: the letters that may be drawn, A to Z. */
  const Letters: seq<char> := "ABCDEFGHIJKLMNOPQRSTUVWXYZ"

  /** Removal stops once this many ASCII letters or fewer are left. */
  const StopThreshold: nat := 15

  /** Every upper-case ASCII letter is one that can be drawn. */
  lemma UpperLetterDrawable(c: char)
    requires 'A' <= c <= 'Z'
    ensures c in Letters
  {
    var k := c as int - 'A' as int;
    assert 0 <= k < 26;
    assert Letters[k] == c by {
      assert forall j :: 0 <= j < 26 ==> Letters[j] as int == 'A' as int + j;
    }
  }

  /**
   * The removal loop as written: starting from the sentence, each letter of
   * `letters` in turn removes its upper- and lower-case occurrences (a
   * global, case-insensitive replace by the empty string).
   */
  function StripEach(s: string, letters: seq<char>): string
    decreases |letters|
  {
    if letters == [] then s
    else Keep(StripEach(s, letters[..|letters| - 1]), {letters[|letters| - 1]})
  }

  /** Removing the letters one at a time is a single filter by the set of letters. */
  lemma {:induction false} StripEachIsFilter(s: string, letters: seq<char>)
    ensures StripEach(s, letters) == Keep(s, Elems(letters))
    decreases |letters|
  {
    if letters == [] {
      assert Elems(letters) == {};
      KeepNothingRemoved(s);
    } else {
      var init, last := letters[..|letters| - 1], letters[|letters| - 1];
      StripEachIsFilter(s, init);
      KeepKeep(s, Elems(init), {last});
      assert letters == init + [last];
      assert Elems(letters) == Elems(init) + {last};
    }
  }

  /** The order in which the letters were drawn does not matter, only which ones. */
  lemma StripOrderIrrelevant(s: string, xs: seq<char>, ys: seq<char>)
    requires Elems(xs) == Elems(ys)
    ensures StripEach(s, xs) == StripEach(s, ys)
  {
    StripEachIsFilter(s, xs);
    StripEachIsFilter(s, ys);
  }

  /** Re-applying the same letters to an already degraded sentence changes nothing. */
  lemma StripIdempotent(s: string, letters: seq<char>)
    ensures StripEach(StripEach(s, letters), letters) == StripEach(s, letters)
  {
    StripEachIsFilter(s, letters);
    StripEachIsFilter(StripEach(s, letters), letters);
    KeepKeep(s, Elems(letters), Elems(letters));
    assert Elems(letters) + Elems(letters) == Elems(letters);
  }

  /**
   * After the loop no character left upper-cases to a removed letter; the
   * result is a subsequence of the sentence, no longer than it, and keeps
   * every other character as often as the sentence has it.
   */
  lemma StripResult(s: string, letters: seq<char>)
    ensures forall i :: 0 <= i < |StripEach(s, letters)| ==> Upper(StripEach(s, letters)[i]) !in letters
    ensures IsSubsequence(StripEach(s, letters), s)
    ensures |StripEach(s, letters)| <= |s|
    ensures forall c :: Upper(c) !in letters ==> multiset(StripEach(s, letters))[c] == multiset(s)[c]
  {
    StripEachIsFilter(s, letters);
    KeepCharacterised(s, Elems(letters));
  }

  /**
   * The loop that rebuilds `manipulated_sentence` from `selected_sentence`
   * by removing each selected letter in turn.
   */
  method StripLetters(sentence: string, letters: seq<char>) returns (result: string)
    ensures result == StripEach(sentence, letters)
    ensures result == Keep(sentence, Elems(letters))
  {
    result := sentence;
    for i := 0 to |letters|
      invariant result == StripEach(sentence, letters[..i])
    {
      assert letters[..i + 1][..i] == letters[..i];
      result := Keep(result, {letters[i]});
    }
    assert letters[..|letters|] == letters;
    StripEachIsFilter(sentence, letters);
  }

  /** `selected_letters` is kept duplicate-free and holds only letters A to Z. */
  predicate LetterList(letters: seq<char>) {
    (forall i :: 0 <= i < |letters| ==> 'A' <= letters[i] <= 'Z') &&
    (forall i, j :: 0 <= i < j < |letters| ==> letters[i] != letters[j])
  }

  /** The list can never hold more letters than the alphabet has. */
  lemma LetterListBound(letters: seq<char>)
    requires LetterList(letters)
    ensures |letters| <= |Letters|
  {
    DistinctElems(letters);
    assert forall i, j :: 0 <= i < j < |Letters| ==> Letters[i] != Letters[j] by {
      assert forall j :: 0 <= j < 26 ==> Letters[j] as int == 'A' as int + j;
    }
    DistinctElems(Letters);
    forall c | c in Elems(letters)
      ensures c in Elems(Letters)
    {
      UpperLetterDrawable(c);
    }
    SubsetCard(Elems(letters), Elems(Letters));
  }

  /**
   * The exit condition of the sampling loop: the letter occurs in the
   * sentence, ignoring case, and has not been removed yet.
   */
  predicate Eligible(sentence: string, letters: seq<char>, letter: char) {
    letter in Letters && letter in UpperStr(sentence) && letter !in letters
  }

  /** The stopping test on the current degraded sentence. */
  predicate Stops(manipulated: string) {
    LetterCount(manipulated) <= StopThreshold
  }

  /**
   * What a degraded sentence guarantees about its letters: each one comes
   * from the sentence and is not among the removed letters.
   */
  predicate Residue(manipulated: string, sentence: string, letters: seq<char>) {
    forall i :: 0 <= i < |manipulated| && IsAsciiLetter(manipulated[i]) ==>
      manipulated[i] in sentence && Upper(manipulated[i]) !in letters
  }

  /** A freshly filtered sentence has this property. */
  lemma FilteredResidue(sentence: string, letters: seq<char>)
    ensures Residue(Keep(sentence, Elems(letters)), sentence, letters)
  {
    KeepMembers(sentence, Elems(letters));
  }

  /**
   * While any letter remains in the degraded sentence, some letter is
   * eligible, so the sampling loop's exit condition can be met.
   */
  lemma EligibleExists(sentence: string, letters: seq<char>, manipulated: string) returns (letter: char)
    requires Residue(manipulated, sentence, letters)
    requires LetterCount(manipulated) > 0
    ensures Eligible(sentence, letters, letter)
  {
    var i := LetterCountWitness(manipulated);
    var c := manipulated[i];
    letter := Upper(c);
    var j :| 0 <= j < |sentence| && sentence[j] == c;
    assert UpperStr(sentence)[j] == letter;
    UpperLetterDrawable(letter);
  }

  /**
   * One call of `removeNextLetter` on the removal state: either the stopping
   * rule fires, the list is cleared and the degraded sentence is left as it
   * was; or exactly one eligible letter is appended and the sentence is
   * degraded again by the whole list.
   */
  predicate RemovalStep(sentence: string, letters: seq<char>, manipulated: string,
                        letters': seq<char>, manipulated': string)
  {
    if Stops(manipulated) then
      letters' == [] && manipulated' == manipulated
    else
      |letters'| == |letters| + 1 && letters'[..|letters|] == letters &&
      Eligible(sentence, letters, letters'[|letters|]) &&
      manipulated' == Keep(sentence, Elems(letters'))
  }

  /**
   * A removal step keeps the list duplicate-free and the degraded sentence
   * consistent with it, and a step that does not stop adds exactly one new
   * letter that occurs in the sentence.
   */
  lemma StepPreserves(sentence: string, letters: seq<char>, manipulated: string,
                      letters': seq<char>, manipulated': string)
    requires LetterList(letters) && Residue(manipulated, sentence, letters)
    requires RemovalStep(sentence, letters, manipulated, letters', manipulated')
    ensures LetterList(letters') && Residue(manipulated', sentence, letters')
    ensures letters' == [] <==> Stops(manipulated)
    ensures !Stops(manipulated) ==>
      |letters'| == |letters| + 1 && |letters'| <= |Letters| &&
      letters'[|letters|] !in letters && letters'[|letters|] in UpperStr(sentence)
  {
    if !Stops(manipulated) {
      var letter := letters'[|letters|];
      assert letters' == letters + [letter];
      assert 'A' <= letter <= 'Z' by {
        var k :| 0 <= k < |Letters| && Letters[k] == letter;
        assert forall j :: 0 <= j < 26 ==> 'A' <= Letters[j] <= 'Z';
      }
      FilteredResidue(sentence, letters');
      assert Elems(letters') == Elems(letters) + {letter};
      LetterListBound(letters');
    }
  }

  /**
   * From every consistent state a removal step exists: when the stopping rule
   * does not fire there is a letter to append.
   */
  lemma StepExists(sentence: string, letters: seq<char>, manipulated: string)
    returns (letters': seq<char>, manipulated': string)
    requires Residue(manipulated, sentence, letters)
    ensures RemovalStep(sentence, letters, manipulated, letters', manipulated')
  {
    if Stops(manipulated) {
      letters', manipulated' := [], manipulated;
    } else {
      var letter := EligibleExists(sentence, letters, manipulated);
      letters' := letters + [letter];
      manipulated' := Keep(sentence, Elems(letters'));
      assert letters'[..|letters|] == letters;
    }
  }
}
