/**
 The fixed word tables of the converter: scale words for groups of three
 digits, position words inside a group, the ten digit words, the dedicated
 word for ten, the linking particle and the three irregular unit words.
 */
module Lexicon {
  import opened Phrase

  /** Scale word by group level within one cycle: none, thousand, million, billion. */
  const LevelJoinWords: seq<string> := ["", "nghìn", "triệu", "tỉ"]
  /** Position word inside a group: units (none), tens, hundreds. */
  const JoinWords: seq<string> := ["", "mươi", "trăm"]
  const DigitWords: seq<string> := ["không", "một", "hai", "ba", "bốn", "năm", "sáu", "bảy", "tám", "chín"]
  /** The word for exactly ten, replacing "one tens". */
  const TenJoinWord: string := "mười"
  /** The linking particle replacing "zero tens". */
  const ChangeJoinWord: string := "lẻ"
  /** Irregular unit words used after the tens word, for 1, 5 and 4. */
  const SpecOne: string := "mốt"
  const SpecFive: string := "lăm"
  const SpecFour: string := "tư"

  /** Every word a group's phrase can contain, before or after rewriting. */
  const TrioVocab: set<string> :=
    {"không", "một", "hai", "ba", "bốn", "năm", "sáu", "bảy", "tám", "chín",
     "mươi", "trăm", "mười", "lẻ", "mốt", "tư", "lăm"}

  /** The group vocabulary is exactly the non-empty words of the tables a
      group's reading draws on: the digit words, the tens and hundreds
      position words, the word for ten, the linking particle and the three
      irregular unit words. */
  lemma TrioVocabTables()
    ensures TrioVocab == (set i | 0 <= i < |DigitWords| :: DigitWords[i])
                       + {JoinWords[1], JoinWords[2], TenJoinWord, ChangeJoinWord, SpecOne, SpecFour, SpecFive}
    ensures "" !in TrioVocab
  {
    var digits := set i | 0 <= i < |DigitWords| :: DigitWords[i];
    assert digits == {"không", "một", "hai", "ba", "bốn", "năm", "sáu", "bảy", "tám", "chín"} by {
      assert DigitWords[0] in digits && DigitWords[1] in digits && DigitWords[2] in digits;
      assert DigitWords[3] in digits && DigitWords[4] in digits && DigitWords[5] in digits;
      assert DigitWords[6] in digits && DigitWords[7] in digits && DigitWords[8] in digits;
      assert DigitWords[9] in digits;
    }
  }

  lemma PrefixChars(u: string, w: string)
    requires |u| >= 2
    ensures ProperPrefix(u, w) ==> w[0] == u[0] && w[1] == u[1]
  {
    if ProperPrefix(u, w) {
      assert w[..|u|][0] == w[0];
      assert w[..|u|][1] == w[1];
    }
  }

  lemma SuffixChars(u: string, w: string)
    requires |u| >= 3
    ensures ProperSuffix(u, w) ==> w[|w| - 1] == u[|u| - 1] && w[|w| - 2] == u[|u| - 2] && w[|w| - 3] == u[|u| - 3]
  {
    if ProperSuffix(u, w) {
      var k := |w| - |u|;
      assert w[k..][|u| - 1] == w[|w| - 1];
      assert w[k..][|u| - 2] == w[|w| - 2];
      assert w[k..][|u| - 3] == w[|w| - 3];
    }
  }

  /** No word of a group's phrase is a proper prefix or suffix of another,
      so the textual rewrites only ever match whole words. */
  lemma TrioVocabAffixFree()
    ensures AffixFree(TrioVocab)
  {
    TrioVocabPrefixFree();
    TrioVocabSuffixFree();
  }

  lemma TrioVocabPrefixFree()
    ensures forall u, w :: u in TrioVocab && w in TrioVocab ==> !ProperPrefix(u, w)
  {
    forall u, w | u in TrioVocab && w in TrioVocab
      ensures !ProperPrefix(u, w)
    {
      PrefixChars(u, w);
    }
  }

  lemma TrioVocabSuffixFree()
    ensures forall u, w :: u in TrioVocab && w in TrioVocab ==> !ProperSuffix(u, w)
  {
    forall u, w | u in TrioVocab && w in TrioVocab
      ensures !ProperSuffix(u, w)
    {
      if |u| >= 3 {
        SuffixChars(u, w);
      }
    }
  }
}
