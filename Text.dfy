/**
 * Character and string helpers used by the letter-removal and scoring code:
 * the ASCII letter test `[a-zA-Z]`, ASCII `toUpperCase`, the count of letters
 * left in a string, and case-insensitive filtering by a set of upper-case
 * letters together with its characterisation as a subsequence.
 */
module Text {

  /** The character class `[a-zA-Z]`. */
  predicate IsAsciiLetter(c: char) {
    ('a' <= c <= 'z') || ('A' <= c <= 'Z')
  }

  /** `toUpperCase` restricted to ASCII: lower-case letters move up, everything else stays. */
  function Upper(c: char): (u: char)
    ensures IsAsciiLetter(c) ==> 'A' <= u <= 'Z'
    ensures !IsAsciiLetter(c) ==> u == c
    ensures IsAsciiLetter(u) <==> IsAsciiLetter(c)
  {
    if 'a' <= c <= 'z' then (c as int - 32) as char else c
  }

  /** `s.toUpperCase()`, character by character. */
  function UpperStr(s: string): string {
    seq(|s|, i requires 0 <= i < |s| => Upper(s[i]))
  }

  /** How many ASCII letters `s` holds: the length left after deleting every non-letter. */
  function LetterCount(s: string): nat {
    if s == [] then 0 else (if IsAsciiLetter(s[0]) then 1 else 0) + LetterCount(s[1..])
  }

  /** The characters of `s`, in order, whose upper-case form is not in `removed`. */
  function Keep(s: string, removed: set<char>): string {
    if s == [] then []
    else if Upper(s[0]) in removed then Keep(s[1..], removed)
    else [s[0]] + Keep(s[1..], removed)
  }

  /** The set of elements of a sequence. */
  function Elems(xs: seq<char>): set<char> {
    set x | x in xs
  }

  /** `t` is obtained from `s` by deleting some of its characters. */
  predicate IsSubsequence(t: string, s: string)
    decreases |s|
  {
    t == [] ||
    (s != [] && ((t[0] == s[0] && IsSubsequence(t[1..], s[1..])) || IsSubsequence(t, s[1..])))
  }

  /** A string with a positive letter count holds a letter at some position. */
  lemma {:induction false} LetterCountWitness(s: string) returns (i: nat)
    requires LetterCount(s) > 0
    ensures i < |s| && IsAsciiLetter(s[i])
  {
    if IsAsciiLetter(s[0]) {
      i := 0;
    } else {
      var j := LetterCountWitness(s[1..]);
      i := j + 1;
    }
  }

  /** Filtering by the empty set keeps everything. */
  lemma {:induction false} KeepNothingRemoved(s: string)
    ensures Keep(s, {}) == s
  {
    if s != [] {
      KeepNothingRemoved(s[1..]);
    }
  }

  /** Filtering twice is filtering once by the union of the two sets. */
  lemma {:induction false} KeepKeep(s: string, a: set<char>, b: set<char>)
    ensures Keep(Keep(s, a), b) == Keep(s, a + b)
  {
    if s != [] {
      KeepKeep(s[1..], a, b);
      if Upper(s[0]) !in a {
        assert Keep(s, a) == [s[0]] + Keep(s[1..], a);
        assert ([s[0]] + Keep(s[1..], a))[1..] == Keep(s[1..], a);
      }
    }
  }

  /**
   * What survives a filter: no removed letter is left, the result is a
   * subsequence of the input (so no longer than it), and every character that
   * is not removed keeps its number of occurrences.
   */
  lemma {:induction false} KeepCharacterised(s: string, removed: set<char>)
    ensures forall i :: 0 <= i < |Keep(s, removed)| ==> Upper(Keep(s, removed)[i]) !in removed
    ensures IsSubsequence(Keep(s, removed), s)
    ensures |Keep(s, removed)| <= |s|
    ensures forall c :: Upper(c) !in removed ==> multiset(Keep(s, removed))[c] == multiset(s)[c]
    ensures forall c :: Upper(c) in removed ==> multiset(Keep(s, removed))[c] == 0
  {
    if s != [] {
      var rest := Keep(s[1..], removed);
      KeepCharacterised(s[1..], removed);
      assert s == [s[0]] + s[1..];
      assert multiset(s) == multiset([s[0]]) + multiset(s[1..]);
      if Upper(s[0]) !in removed {
        var r := [s[0]] + rest;
        assert r[1..] == rest;
        assert multiset(r) == multiset([s[0]]) + multiset(rest);
        assert forall i :: 0 < i < |r| ==> r[i] == rest[i - 1];
      }
    }
  }

  /** Every character that survives a filter comes from the input and is not removed. */
  lemma {:induction false} KeepMembers(s: string, removed: set<char>)
    ensures forall i :: 0 <= i < |Keep(s, removed)| ==>
      Keep(s, removed)[i] in s && Upper(Keep(s, removed)[i]) !in removed
  {
    if s != [] {
      KeepMembers(s[1..], removed);
      var rest := Keep(s[1..], removed);
      assert forall c :: c in s[1..] ==> c in s;
      if Upper(s[0]) !in removed {
        var r := [s[0]] + rest;
        assert forall i :: 0 < i < |r| ==> r[i] == rest[i - 1];
      }
    }
  }

  /** A subset is no larger than its superset. */
  lemma SubsetCard(a: set<char>, b: set<char>)
    requires a <= b
    ensures |a| <= |b|
  {
    assert b == a + (b - a);
    assert a * (b - a) == {};
  }

  /** A sequence without repetitions has as many distinct elements as positions. */
  lemma {:induction false} DistinctElems(xs: seq<char>)
    requires forall i, j :: 0 <= i < j < |xs| ==> xs[i] != xs[j]
    ensures |Elems(xs)| == |xs|
  {
    if xs != [] {
      var init, last := xs[..|xs| - 1], xs[|xs| - 1];
      DistinctElems(init);
      assert xs == init + [last];
      assert Elems(xs) == Elems(init) + {last};
      assert last !in Elems(init);
    }
  }
}
