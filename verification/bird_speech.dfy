/** `convertToBirdSpeech` (lab3/main.cpp): after every vowel of
    "aeiouAEIOU" the text gains a 'P' and the same vowel again, so "bine"
    becomes "biPinePe" (the original case of the vowel is repeated). */
module BirdSpeech {

  const Vowels: string := "aeiouAEIOU"

  predicate IsVowel(c: char) {
    c in Vowels
  }

  /** What one input character turns into. */
  function Piece(c: char): string {
    if IsVowel(c) then [c, 'P', c] else [c]
  }

  /** The conversion as a definition over the text, first character first. */
  function Encode(s: string): string {
    if |s| == 0 then "" else Piece(s[0]) + Encode(s[1..])
  }

  function VowelCount(s: string): nat {
    if |s| == 0 then 0 else (if IsVowel(s[0]) then 1 else 0) + VowelCount(s[1..])
  }

  /** Undoes the conversion: a vowel followed by 'P' and itself is read as
      the vowel alone. */
  function Decode(t: string): string
    decreases |t|
  {
    if |t| == 0 then ""
    else if IsVowel(t[0]) && |t| >= 3 && t[1] == 'P' && t[2] == t[0] then [t[0]] + Decode(t[3..])
    else [t[0]] + Decode(t[1..])
  }

  /** Appending a character appends its piece (the loop's step). */
  lemma {:induction false} EncodeAppend(s: string, c: char)
    ensures Encode(s + [c]) == Encode(s) + Piece(c)
    decreases |s|
  {
    if |s| > 0 {
      assert (s + [c])[1..] == s[1..] + [c];
      EncodeAppend(s[1..], c);
    } else {
      assert Encode([c]) == Piece(c) + Encode([]);
    }
  }

  /** `convertToBirdSpeech`: one pass over the input, appending each
      character and, after a vowel, "P" and the vowel. */
  method ConvertToBirdSpeech(input: string) returns (result: string)
    ensures result == Encode(input)
    ensures |result| == |input| + 2 * VowelCount(input)
    ensures Decode(result) == input
  {
    result := "";
    var i := 0;
    while i < |input|
      invariant 0 <= i <= |input|
      invariant result == Encode(input[..i])
    {
      result := result + [input[i]];
      result := result + (if IsVowel(input[i]) then ['P', input[i]] else "");
      assert input[..i + 1] == input[..i] + [input[i]];
      EncodeAppend(input[..i], input[i]);
      i := i + 1;
    }
    assert input[..i] == input;
    EncodeLength(input);
    DecodeEncode(input);
  }

  /** Every vowel adds two characters. */
  lemma {:induction false} EncodeLength(s: string)
    ensures |Encode(s)| == |s| + 2 * VowelCount(s)
    decreases |s|
  {
    if |s| > 0 {
      EncodeLength(s[1..]);
    }
  }

  /** Decoding recovers the original text. */
  lemma {:induction false} DecodeEncode(s: string)
    ensures Decode(Encode(s)) == s
    decreases |s|
  {
    if |s| > 0 {
      var t := Encode(s);
      DecodeEncode(s[1..]);
      if IsVowel(s[0]) {
        assert t[3..] == Encode(s[1..]);
      } else {
        assert t[1..] == Encode(s[1..]);
      }
    }
  }

}
