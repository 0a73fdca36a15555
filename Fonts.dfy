/**
 * The font-distortion compression model: every ASCII letter of the sentence
 * is shown in a font drawn from a fixed list, every other character as it is.
 * The rendering is a sequence of segments rather than markup.
 */
module Fonts {
  import opened Wrappers
  import opened Text

  /** `fontOptions`: the font families a letter can be drawn in. */
  const FontOptions: seq<string> := [
    "Brush Script MT, cursive",
    "Comic Sans MS, cursive",
    "Impact, fantasy",
    "Courier New, monospace",
    "Times New Roman, serif"
  ]

  /** One rendered character, with the index into `FontOptions` of its font if it has one. */
  datatype Segment = Segment(ch: char, font: Option<nat>)

  /** The characters of a rendering, in order, without their fonts. */
  function Chars(segments: seq<Segment>): string {
    if segments == [] then [] else [segments[0].ch] + Chars(segments[1..])
  }

  /**
   * `segments` is a font distortion of `s`: one segment per character, in
   * order; a letter carries a font from `FontOptions`, anything else none.
   */
  predicate Distorts(segments: seq<Segment>, s: string) {
    |segments| == |s| &&
    forall i :: 0 <= i < |s| ==>
      segments[i].ch == s[i] &&
      (segments[i].font.Some? <==> IsAsciiLetter(s[i])) &&
      (segments[i].font.Some? ==> segments[i].font.value < |FontOptions|)
  }

  /**
   * `distortWithFonts`: walks the sentence, drawing an independent font for
   * each letter and passing every other character through.
   */
  method DistortWithFonts(sentence: string) returns (segments: seq<Segment>)
    ensures Distorts(segments, sentence)
  {
    segments := [];
    for i := 0 to |sentence|
      invariant Distorts(segments, sentence[..i])
    {
      var c := sentence[i];
      if IsAsciiLetter(c) {
        var font :| 0 <= font < |FontOptions|;
        segments := segments + [Segment(c, Some(font))];
      } else {
        segments := segments + [Segment(c, None)];
      }
    }
    assert sentence[..|sentence|] == sentence;
  }

  /** Dropping the fonts of a distortion gives back the sentence. */
  lemma {:induction false} DistortionKeepsText(segments: seq<Segment>, s: string)
    requires Distorts(segments, s)
    ensures Chars(segments) == s
  {
    if segments != [] {
      assert Distorts(segments[1..], s[1..]);
      DistortionKeepsText(segments[1..], s[1..]);
      assert s == [s[0]] + s[1..];
    }
  }

  /** "Hi!" renders as 'H' and 'i', each in some font, then '!' in none. */
  lemma DistortHi(segments: seq<Segment>)
    requires Distorts(segments, "Hi!")
    ensures |segments| == 3
    ensures segments[0].ch == 'H' && segments[0].font.Some?
    ensures segments[1].ch == 'i' && segments[1].font.Some?
    ensures segments[2] == Segment('!', None)
  {
    assert IsAsciiLetter("Hi!"[0]) && IsAsciiLetter("Hi!"[1]) && !IsAsciiLetter("Hi!"[2]);
  }
}
