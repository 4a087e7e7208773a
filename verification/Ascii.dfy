// The display bytes of decoded words, and the case map of a record's first word (ebcdic.cpp).
module Ascii {
  import opened Bytes
  import opened Tokens
  import Utf8

  const BLANK: Word := 0x20

  /** `token_word_ascii_width`. */
  function WordWidth(word: Word): (width: nat)
    ensures 1 <= width <= 2
  {
    if 0xA1 <= word <= 0xFF then 2 else 1
  }

  /** The bytes that one word projects to. */
  function WordText(word: Word): (text: Bytes)
    ensures |text| == WordWidth(word)
  {
    if 0x20 <= word <= 0x7E then [word]
    else if word == 0xA0 then [0x20]
    else if 0xA1 <= word <= 0xFF then [0xC0 + word / 0x40, 0x80 + word % 0x40]
    else ['?' as int]
  }

  function TextOf(words: Words): Bytes {
    if words == [] then [] else TextOf(words[..|words| - 1]) + WordText(words[|words| - 1])
  }

  /** `token_words_to_ascii`. */
  method TokenWordsToAscii(words: Words) returns (output: Bytes)
    ensures output == TextOf(words)
  {
    output := [];
    for k := 0 to |words|
      invariant output == TextOf(words[..k])
    {
      var word := words[k];
      assert words[..k + 1][..k] == words[..k];
      if 0x20 <= word <= 0x7E { output := output + [word]; }
      else if word == 0xA0 { output := output + [0x20]; }
      else if 0xA1 <= word <= 0xFF {
        output := output + [0xC0 + word / 0x40];
        output := output + [0x80 + word % 0x40];
      } else { output := output + ['?' as int]; }
    }
    assert words[..|words|] == words;
  }

  /** Printable ASCII stands for itself, a hard blank for a blank, the other Latin-1 words for their two bytes of UTF-8
      and everything else for a question mark. */
  lemma WordTextExactly(word: Word)
    ensures TextOf([]) == [] && TextOf([word]) == WordText(word)
    ensures var text := WordText(word);
            if 0x20 <= word <= 0x7E then text == [word]
            else if word == 0xA0 then text == [0x20]
            else if 0xA1 <= word <= 0xFF then
              |text| == 2 && 0xC2 <= text[0] <= 0xC3 && 0x80 <= text[1] <= 0xBF
              && word == (text[0] as int - 0xC0) * 0x40 + (text[1] as int - 0x80)
            else text == ['?' as int]
  {
    assert [word][..0] == [];
  }

  /** Projecting words one run after the other is projecting them together. */
  lemma {:induction false} TextOfConcat(a: Words, b: Words)
    ensures TextOf(a + b) == TextOf(a) + TextOf(b)
  {
    if b == [] {
      assert a + b == a;
    } else {
      var front := b[..|b| - 1];
      assert (a + b)[..|a + b| - 1] == a + front;
      TextOfConcat(a, front);
    }
  }

  /** Whatever the words, their projection is well-formed UTF-8. */
  lemma {:induction false} TextIsUtf8(words: Words)
    ensures Utf8.Valid(TextOf(words))
  {
    if words != [] {
      var word := words[|words| - 1];
      TextIsUtf8(words[..|words| - 1]);
      WordIsUtf8(word);
      Utf8.ValidConcat(TextOf(words[..|words| - 1]), WordText(word));
    }
  }

  /** The code point that a word is shown as. */
  function Shown(word: Word): Utf8.Scalar {
    if 0x20 <= word <= 0x7E || 0xA1 <= word <= 0xFF then word else if word == 0xA0 then 0x20 else '?' as int
  }

  lemma WordIsUtf8(word: Word)
    ensures WordText(word) == Utf8.Encode(Shown(word))
    ensures Utf8.Valid(WordText(word))
  {
    Utf8.EncodingIsValid(Shown(word));
  }

  /** `map_token_word_to_upper_ascii`. */
  function Upper(word: Word): Word {
    if 'a' as int <= word <= 'z' as int then word - 32 else word
  }
}
