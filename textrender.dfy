/** The character classes the text renderer uses to lay out Japanese text,
    by Unicode block: Hiragana U+3040..U+309F, Katakana U+30A0..U+30FF and
    CJK Unified Ideographs U+4E00..U+9FFF, all bounds included. */
module TextRender {

  /** `is_japanese`: hiragana, katakana or a CJK unified ideograph. */
  predicate IsJapanese(c: char) {
    var code := c as int;
    (0x3040 <= code <= 0x309F) || (0x30A0 <= code <= 0x30FF) || (0x4E00 <= code <= 0x9FFF)
  }

  /** `is_japanese_kana`: hiragana or katakana. */
  predicate IsJapaneseKana(c: char) {
    var code := c as int;
    (0x3040 <= code <= 0x309F) || (0x30A0 <= code <= 0x30FF)
  }

  /** `is_japanese_hiragana`. */
  predicate IsJapaneseHiragana(c: char) {
    var code := c as int;
    0x3040 <= code <= 0x309F
  }

  /** Each class is contained in the next: hiragana, kana, Japanese. */
  lemma ClassesNest(c: char)
    ensures IsJapaneseHiragana(c) ==> IsJapaneseKana(c)
    ensures IsJapaneseKana(c) ==> IsJapanese(c)
  {
  }

  /** The two kana blocks are adjacent, so kana is one range of code points. */
  lemma KanaIsOneRange(c: char)
    ensures IsJapaneseKana(c) <==> 0x3040 <= c as int <= 0x30FF
  {
  }

  /** Katakana is kana but not hiragana. */
  lemma KatakanaIsNotHiragana(c: char)
    requires 0x30A0 <= c as int <= 0x30FF
    ensures IsJapaneseKana(c) && !IsJapaneseHiragana(c)
  {
  }

  /** The ideographs are Japanese but not kana. */
  lemma IdeographsAreNotKana(c: char)
    requires 0x4E00 <= c as int <= 0x9FFF
    ensures IsJapanese(c) && !IsJapaneseKana(c)
  {
  }

  /** Japanese text is kana or ideographs and nothing else: below U+3040
      (all of ASCII among it), above U+9FFF and between U+3100 and U+4DFF
      nothing is Japanese. */
  lemma JapaneseIsKanaOrIdeograph(c: char)
    ensures IsJapanese(c) <==> IsJapaneseKana(c) || 0x4E00 <= c as int <= 0x9FFF
    ensures c as int < 0x3040 || c as int > 0x9FFF || 0x3100 <= c as int <= 0x4DFF ==> !IsJapanese(c)
  {
  }
}
