/** The phoneme inventory of the language analysed (Brazilian Portuguese):
    the vowel tokens, including the nasal vowels written with a tilde and
    the glides `j` and `w`. */
module Inventory {

  const Vowels: seq<string> :=
    ["i~", "e~", "w~", "a~", "u~", "j~", "j", "E", "O", "a", "e", "i", "o", "o~", "u", "w"]

  /** `ph in vowels` */
  predicate IsVowel(t: string)
  {
    t in Vowels
  }

  /** A character followed by a tilde is a vowel only when the character is
      itself a one-character vowel. */
  lemma TildeVowel(c: string)
    requires IsVowel(c + "~")
    ensures |c| == 1 && IsVowel(c)
  {
    var v := c + "~";
    assert v[|v| - 1] == '~';
    assert v in ["i~", "e~", "w~", "a~", "u~", "j~", "o~"];
    assert |c| == 1 && c == [c[0]] && c[0] == v[0];
    assert c[0] in {'i', 'e', 'w', 'a', 'u', 'j', 'o'};
    assert c in ["i", "e", "w", "a", "u", "j", "o"];
  }

  /** No vowel token begins with the stress mark, and none is the tilde alone. */
  lemma NotVowels(t: string)
    requires |t| > 0 && (t[0] == '\'' || t == "~" || t == "~~")
    ensures !IsVowel(t)
  {
  }
}
