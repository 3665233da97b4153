# Vietnamese number reader

A model of the converter in `translate_number_to_string.py` that turns a
string of decimal digits into its Vietnamese cardinal reading, for example
"2021" into "hai nghìn không trăm hai mươi mốt".

The converter works in four layers, and the model keeps them:

- **Word tables** (module `Lexicon`). These are the scale words "nghìn", "triệu" and "tỉ", the position words "mươi" and "trăm", the ten digit words, the word "mười" for ten, the linking particle "lẻ", and the irregular units "mốt", "tư" and "lăm".
- **String helpers** (module `Text`):
  - `ReplaceAll` is Python's `str.replace`. It scans left to right and replaces non-overlapping occurrences. It is generic, so it works on characters and on word lists.
  - `Join` is `' '.join`.
  - `JoinUp` is `join_up`: drop the empty words, then join.
  - `Split` is `str.split(' ')`. It is used only to state what `JoinUp` produces.
- **Group reader** (module `Trio`):
  - `RawTrio` builds the literal phrase of a group of one to three digits. Each digit word is followed by "trăm", "mươi" or nothing.
  - `Simplify` applies the eight textual rewrites in their fixed order.
  - `TrioString` is `get_trio_string`.
  - `Render` is an independent, word-by-word reading of a group. `TrioStringRender` proves that `TrioString` agrees with it on every group.
  - The bridge from text to words is module `Phrase`. No vocabulary word is a proper prefix or suffix of another, and every pattern has at least two words. Therefore a textual rewrite of a joined phrase only ever matches whole words (`Phrase.ReplaceJoin`).
- **Number reader** (module `Number`):
  - `Group` cuts the digits into groups of three from the right.
  - `ScaleWord` is the `while` loop that builds a group's scale word.
  - `ComposeFrom` is the `for` loop over the groups. It skips every group whose value is zero.
  - `NumberString` is `get_number_string`.
  - `Pieces` lists the readings most significant first, and `NumberStringPieces` connects it to the loop.

The model follows the code, not idealised Vietnamese. In three places the code reads a number differently from standard Vietnamese:

- An input whose digits are all '0' reads as the empty string, not as "không" (`NumberZero`).
- The rewrite "trăm lẻ" → "trăm" fires whatever follows it. So "105" reads "một trăm năm", and "101" reads "một trăm một".
- A leading zero inside the most significant group changes its reading: "05" reads "lẻ năm" (`NumberLeadingZero`). Three leading zeros in front of whole groups change nothing (`NumberStringPadded`).

Two further quirks of the code are also modelled as written. "15" reads "mười năm", because the rewrite "năm" → "lăm" only follows "mươi". "020" keeps "không trăm" and reads "không trăm hai mươi".

## Model

| member | source | states |
|---|---|---|
| Text.ReplaceAll | translate_number_to_string.py:27-41 | `str.replace` leaves the text unchanged when the pattern's first or last element does not occur in it, and never empties a non-empty text when the replacement is non-empty |
| Text.ReplaceAllFrom | translate_number_to_string.py:27-41 | every element of a replace result comes from the input or from the replacement |
| Text.ReplaceAllCut | translate_number_to_string.py:27-41 | a prefix in which no occurrence starts is copied unchanged, and the scan continues on the rest as if it started there |
| Text.ReplaceAllSkip | translate_number_to_string.py:27-41 | a prefix lacking the pattern's first element is copied unchanged |
| Text.ReplaceAllHit | translate_number_to_string.py:27-41 | the first occurrence after such a prefix is replaced, and the scan resumes right after it (non-overlapping) |
| Text.ReplaceAllAbsent | translate_number_to_string.py:27-41 | a text lacking any one element of the pattern is unchanged |
| Text.Join | translate_number_to_string.py:21 | `' '.join` of no words is "", and its result is at least as long as its first word; that it only inserts one space between the words is stated by Text.SplitJoin |
| Text.JoinUp | translate_number_to_string.py:20-21 | no contract of its own: `join_up` is the join of the non-empty words, and its meaning is stated by Text.JoinUpEmptyIff and Text.JoinUpSplit |
| Text.NonEmpty | translate_number_to_string.py:21 | the filter keeps only non-empty words, each taken from the arguments, never more of them |
| Text.NonEmptyAppend | translate_number_to_string.py:21 | the filter of two lists one after the other is the filter of the first followed by the filter of the second, so it keeps the non-empty words in order |
| Text.NonEmptyNone | translate_number_to_string.py:21 | the filter keeps nothing exactly when every word is empty |
| Text.NonEmptyAll | translate_number_to_string.py:21 | the filter keeps a list of non-empty words whole and in order |
| Text.JoinUpEmptyIff | translate_number_to_string.py:20-21 | `join_up` yields "" exactly when every argument is "" |
| Text.JoinUpSplit | translate_number_to_string.py:20-21 | splitting a `join_up` result on spaces gives back exactly the non-empty arguments in order, and every field is non-empty, so there is exactly one space between words |
| Text.SplitJoin | translate_number_to_string.py:20-21 | `' '.join` of space-free words is undone by splitting on spaces |
| Text.JoinUpFlatten | translate_number_to_string.py:20-21 | a `join_up` result passed as an argument of another `join_up` reads as if its words had been passed directly |
| Text.JoinUpBefore | translate_number_to_string.py:20-21 | `join_up` of a non-empty word and a joined phrase puts the word in front with one space |
| Phrase.TokenMatchAtStart | translate_number_to_string.py:27-41 | over an affix-free vocabulary, a textual match of a joined pattern at the start of a joined phrase is a match of whole words |
| Phrase.NoMatchInFirstWord | translate_number_to_string.py:27-41 | a multi-word pattern that does not match at the first word of a phrase matches nowhere inside that word or the space after it |
| Phrase.ReplaceJoin | translate_number_to_string.py:24-42 | over an affix-free vocabulary, replacing a joined multi-word pattern in a joined phrase equals replacing the pattern in the word list and joining |
| Phrase.ReplaceOver | translate_number_to_string.py:24-42 | rewriting keeps a phrase inside its vocabulary when the replacement words are in it |
| Lexicon.LevelJoinWords | translate_number_to_string.py:4 | no contract of its own: `level_join_words`, the same four words; how the scale word uses them is stated by Number.ScaleWordClosed |
| Lexicon.JoinWords | translate_number_to_string.py:5 | no contract of its own: `join_words`, the same three words; where they land in a group's phrase is stated by Trio.RawTrioWords |
| Lexicon.DigitWords | translate_number_to_string.py:6 | no contract of its own: `digit_words`, the same ten words; their facts are stated by Trio.DigitFacts |
| Lexicon.TenJoinWord | translate_number_to_string.py:7 | no contract of its own: `ten_join_word`; its use is stated by Trio.LateTens |
| Lexicon.ChangeJoinWord | translate_number_to_string.py:8 | no contract of its own: `change_join_word`; its use is stated by Trio.TensZeros |
| Lexicon.SpecOne | translate_number_to_string.py:9 | no contract of its own: `spec_one`; its use is stated by Trio.IrregularStep |
| Lexicon.SpecFive | translate_number_to_string.py:10 | no contract of its own: `spec_five`; its use is stated by Trio.IrregularStep |
| Lexicon.SpecFour | translate_number_to_string.py:11 | no contract of its own: `spec_four`; its use is stated by Trio.IrregularStep |
| Lexicon.TrioVocabTables | translate_number_to_string.py:5-11 | the group vocabulary is exactly the ten digit words, "mươi", "trăm", the word for ten, the linking particle and the three irregular unit words taken from the tables, and it holds no empty word |
| Lexicon.TrioVocabAffixFree | translate_number_to_string.py:4-11 | no word a group's phrase can hold is a proper prefix or a proper suffix of another |
| Trio.DigitFacts | translate_number_to_string.py:6 | each digit word is in the group vocabulary, differs from the position and substitute words, and is "không", "một", "bốn" or "năm" exactly for 0, 1, 4 or 5 |
| Trio.DigitWord | translate_number_to_string.py:49-50 | no contract of its own: the lookup `digit_words[int(c)]`; its facts are stated by Trio.DigitFacts |
| Trio.DigitValue | translate_number_to_string.py:49 | `int()` of a digit character is a value below 10, so it indexes the ten digit words |
| Trio.RawFrom | translate_number_to_string.py:46-50 | no contract of its own: the `for` loop of `get_trio_string` after `k` steps; the phrase it builds is stated by Trio.RawTrioWords |
| Trio.RawTrio | translate_number_to_string.py:45-50 | no contract of its own: the raw phrase before `simplify`; its words are stated by Trio.RawTrioWords |
| Trio.RawTrioWords | translate_number_to_string.py:45-50 | before rewriting, a group reads as each digit word from most to least significant, followed by "trăm", "mươi" or nothing by its position |
| Trio.Rewrite | translate_number_to_string.py:27-41 | no contract of its own: one `replace` line of `simplify`, with the eight lines as the rules DropZeroUnits, ZeroTensLinker, ZeroHundredsLinker, DropLinker, TenWord, IrregularOne, IrregularFour and IrregularFive; what a rewrite does is stated by Trio.RewriteJoin and Trio.IrregularStep |
| Trio.Simplify | translate_number_to_string.py:24-42 | no contract of its own: the eight rewrites in source order; its meaning is stated by Trio.SimplifyJoin and Trio.SimplifyRaw |
| Trio.TrioString | translate_number_to_string.py:45-51 | no contract of its own: `get_trio_string`; its meaning is stated by Trio.TrioStringRender and Trio.TrioStringNonEmpty |
| Trio.RewriteJoin | translate_number_to_string.py:27-41 | one textual rewrite of a joined phrase equals the rewrite of its words, and the result stays in the vocabulary |
| Trio.SimplifyJoin | translate_number_to_string.py:24-42 | `simplify` of a joined phrase equals the eight rewrites applied in order to its word list |
| Trio.TensZeros | translate_number_to_string.py:27-29 | rules 1 and 2 drop a zero units word after "mươi" and turn zero tens into "lẻ" |
| Trio.HundredsKeep | translate_number_to_string.py:31-33 | with a non-zero tens digit, the two hundreds rules change nothing |
| Trio.HundredsDropLinker | translate_number_to_string.py:33 | under a non-zero hundreds digit, "trăm lẻ" loses its particle whatever units follow |
| Trio.HundredsZero | translate_number_to_string.py:31 | zero hundreds before zero tens collapse to "lẻ" |
| Trio.EarlyRaw | translate_number_to_string.py:26-33 | after the first four rules, a group with a zero tens digit already reads as `Render`, and any other still reads "… B mươi" plus its non-zero units word |
| Trio.LateTens | translate_number_to_string.py:34-41 | the last four rules turn "B mươi C" into the tens reading: "mười" for one ten, "mốt", "tư" and "lăm" for units 1, 4 and 5 after "mươi" |
| Trio.IrregularStep | translate_number_to_string.py:36-41 | an irregular-units rule changes the units word after "mươi" exactly when it is that rule's digit word |
| Trio.LateInert | translate_number_to_string.py:34-41 | without "mươi", none of the last four rules changes anything |
| Trio.SimplifyRaw | translate_number_to_string.py:24-51 | the eight rewrites turn every group's raw word list into the position-by-position reading `Render` |
| Trio.TrioStringRender | translate_number_to_string.py:45-51 | `get_trio_string` of every group of one to three digits is `Render` joined with spaces |
| Trio.TrioStringNonEmpty | translate_number_to_string.py:45-51 | every group, zeros included, reads as a non-empty phrase |
| Trio.ExampleTen | translate_number_to_string.py:35 | "10" reads "mười" |
| Trio.ExampleFifteen | translate_number_to_string.py:35-41 | "15" reads "mười năm": the "lăm" rewrite only follows "mươi" |
| Trio.ExampleTwentyOne | translate_number_to_string.py:37 | "21" reads "hai mươi mốt" |
| Trio.ExampleTwentyFour | translate_number_to_string.py:39 | "24" reads "hai mươi tư" |
| Trio.ExampleTwentyFive | translate_number_to_string.py:41 | "25" reads "hai mươi lăm" |
| Trio.ExampleOneHundred | translate_number_to_string.py:27-33 | "100" reads "một trăm" |
| Trio.ExampleOneHundredTen | translate_number_to_string.py:35 | "110" reads "một trăm mười" |
| Trio.ExampleOneHundredOne | translate_number_to_string.py:33 | "101" reads "một trăm một" |
| Trio.ExampleOneHundredFive | translate_number_to_string.py:33 | "105" reads "một trăm năm" |
| Trio.ExampleZeroZeroFive | translate_number_to_string.py:29-31 | "005" reads "lẻ năm" |
| Trio.ExampleZeroTwenty | translate_number_to_string.py:29-33 | "020" reads "không trăm hai mươi": zero hundreds are spoken before non-zero tens |
| Trio.ExampleZeroTwentyOne | translate_number_to_string.py:37 | "021" reads "không trăm hai mươi mốt" |
| Trio.ExampleZeroFive | translate_number_to_string.py:29 | "05" reads "lẻ năm" |
| Trio.ExampleZero | translate_number_to_string.py:45-51 | the group "0" on its own reads "không" |
| Trio.ExampleOne | translate_number_to_string.py:45-51 | "1" reads "một" |
| Trio.ExampleTwo | translate_number_to_string.py:45-51 | "2" reads "hai" |
| Number.GroupCount | translate_number_to_string.py:56 | the number of groups is the least count of three-digit groups that covers the digits |
| Number.GroupStart | translate_number_to_string.py:59-61 | no contract of its own: `start`, clamped at zero; the slice it begins is stated by Number.Group |
| Number.GroupEnd | translate_number_to_string.py:62 | no contract of its own: `end`; the slice it ends is stated by Number.Group |
| Number.Group | translate_number_to_string.py:59-63 | each group is one to three digits and is the slice between the ends of its level and the next level. Only the most significant group may be shorter than three |
| Number.Groups | translate_number_to_string.py:58-63 | there is one group per level from `lev` up |
| Number.GroupsCover | translate_number_to_string.py:58-63 | written most significant first, the groups from a level up spell the input up to that level's end |
| Number.GroupsWhole | translate_number_to_string.py:55-63 | the groups, most significant first, concatenate to the input exactly, and there are ceil(length / 3) of them |
| Number.Value | translate_number_to_string.py:64 | no contract of its own: `int(trio)`; what the zero test means is stated by Number.ValueZero |
| Number.ValueZero | translate_number_to_string.py:64 | `int(trio) == 0` holds exactly when every digit of the group is '0' |
| Number.ScaleLoop | translate_number_to_string.py:66-71 | no contract of its own: the `while` loop over `leap_level`; its result is stated by Number.ScaleLoopClosed |
| Number.ScaleWord | translate_number_to_string.py:66-71 | no contract of its own: `complex_level_join_word`; its closed form is stated by Number.ScaleWordClosed |
| Number.ScaleLoopClosed | translate_number_to_string.py:66-71 | the `while` loop, started from a run of "tỉ", ends with the level's word within its cycle followed by one more "tỉ" per completed cycle |
| Number.ScaleWordClosed | translate_number_to_string.py:66-71 | the scale word of level `lev` is "" for level 0, and otherwise `level_join_words[(lev-1) % 3 + 1]` then `(lev-1) / 3` copies of "tỉ"; it is empty only at level 0 |
| Number.ScaleWordExamples | translate_number_to_string.py:66-71 | levels 0 to 4 and 6 give "", "nghìn", "triệu", "tỉ", "nghìn tỉ" and "tỉ tỉ" |
| Number.ComposeFrom | translate_number_to_string.py:58-72 | no contract of its own: the `for` loop over the groups; its result is stated by Number.ComposeFromPieces |
| Number.NumberString | translate_number_to_string.py:54-73 | no contract of its own: `get_number_string`; its meaning is stated by Number.NumberStringPieces and Number.NumberStringEmpty |
| Number.ComposeFromPieces | translate_number_to_string.py:58-72 | the `for` loop from any level, with the lower groups' reading so far, prepends the remaining groups' pieces, most significant first, in one `join_up` |
| Number.NumberStringPieces | translate_number_to_string.py:54-73 | `get_number_string` is `join_up` of each non-zero group's reading and scale word, most significant group first |
| Number.PiecesBlank | translate_number_to_string.py:64-72 | the pieces from a level up are all empty exactly when every digit up to that level's end is '0' |
| Number.NumberStringEmpty | translate_number_to_string.py:54-73 | the reading is "" exactly when every digit is '0' (the empty input included); any non-zero digit gives a non-empty reading |
| Number.NumberStringShort | translate_number_to_string.py:54-73 | a number of one to three digits, not all '0', reads as its one group |
| Number.NumberStringPadded | translate_number_to_string.py:55-65 | three leading zeros in front of a number of whole groups leave its reading unchanged |
| Number.NumberZero | translate_number_to_string.py:64-65 | "0", "000" and "" read as "" |
| Number.NumberMillion | translate_number_to_string.py:64-72 | "1000000" reads "một triệu": the two all-zero groups contribute nothing |
| Number.NumberTwoThousandTwentyOne | translate_number_to_string.py:54-73 | "2021" reads "hai nghìn không trăm hai mươi mốt" |
| Number.NumberLeadingZero | translate_number_to_string.py:59-65 | "05" reads "lẻ năm": a leading zero inside the top group is read |

## Left out

- `get_input` (translate_number_to_string.py:14-17) is console I/O and an `assert` on `isnumeric()`. The model requires every character to be '0'..'9' instead. Python's `isnumeric` also accepts other Unicode numerals, which `int()` may then reject or read; those inputs are not modelled.
- The `__main__` block (translate_number_to_string.py:76-78) reads the console and prints. It is left out.
- video_editor.py is a PyQt5 user interface with no logic of the converter, and it is not part of this model.
- Number.GroupCount: `math.ceil(length / 3)` (translate_number_to_string.py:56) uses floating-point division, and the model uses the exact integer `(length + 2) / 3`. For every length below 3·2^52 + 1 = 13510798882111489 the two agree, because `length / 3` is then rounded to a double whose ceiling is still the exact one. At that length the rounded quotient is 4503599627370496.0, so `math.ceil` gives 4503599627370496 where the exact ceiling is 4503599627370497. The leading digit, a group of its own, would not be read. Strings that long are not modelled as the source reads them.
- Python's `int()` on a digit character is modelled by `DigitValue`. Only the ASCII digits '0'..'9' are covered.
- The termination of the scale-word `while` loop is shown by the `decreases` clause of `ScaleLoop`, not by a separate lemma.
