/**
 The trio renderer: reads one group of one to three decimal digits.
 `RawTrio` builds the literal phrase (each digit word followed by its
 position word), `Simplify` applies the eight textual rewrites in their
 fixed order, and `TrioString` is the two composed. `Render` is an
 independent, word-by-word statement of the same reading, and
 `TrioStringRender` proves the two agree on every trio.
 */
module Trio {
  import opened Text
  import opened Phrase
  import opened Lexicon

  predicate IsDigit(c: char)
  {
    '0' <= c <= '9'
  }

  predicate IsDigits(s: string)
  {
    forall i :: 0 <= i < |s| ==> IsDigit(s[i])
  }

  /** `int(c)` for one decimal digit character. */
  function DigitValue(c: char): (d: nat)
    requires IsDigit(c)
    ensures d < 10
  {
    (c as int) - ('0' as int)
  }

  function DigitWord(c: char): (r: string)
    requires IsDigit(c)
  {
    DigitWords[DigitValue(c)]
  }

  /** A group: one to three decimal digits. */
  predicate IsTrio(t: string)
  {
    1 <= |t| <= 3 && IsDigits(t)
  }

  /** The phrase `get_trio_string` holds after `k` passes of its loop: pass
      `i` prepends the digit `i` places from the right and its position word. */
  function RawFrom(t: string, k: nat): (r: string)
    requires IsTrio(t) && k <= |t|
  {
    if k == 0 then ""
    else JoinUp([DigitWord(t[|t| - k]), JoinWords[k - 1], RawFrom(t, k - 1)])
  }

  /** The phrase before any rewrite. */
  function RawTrio(t: string): (r: string)
    requires IsTrio(t)
  {
    RawFrom(t, |t|)
  }

  /** The same phrase as a word list: each digit word from most to least
      significant, followed by "trăm", "mươi" or nothing by its position. */
  function RawWords(t: string): (ws: seq<string>)
    requires IsTrio(t)
  {
    if |t| == 1 then [DigitWord(t[0])]
    else if |t| == 2 then [DigitWord(t[0]), "mươi", DigitWord(t[1])]
    else [DigitWord(t[0]), "trăm", DigitWord(t[1]), "mươi", DigitWord(t[2])]
  }

  /** One `replace` step: the words of `pattern`, joined by spaces, become
      the words of `replacement`. */
  datatype Rule = Rule(pattern: seq<string>, replacement: seq<string>)
  {
    predicate Valid()
    {
      |pattern| >= 2 && pattern[0] != "" && |replacement| > 0
    }
  }

  /** "mươi không" -> "mươi": a multiple of ten does not speak its zero. */
  const DropZeroUnits := Rule([JoinWords[1], DigitWords[0]], [JoinWords[1]])
  /** "không mươi" -> "lẻ": zero tens becomes the linking particle. */
  const ZeroTensLinker := Rule([DigitWords[0], JoinWords[1]], [ChangeJoinWord])
  /** "không trăm lẻ" -> "lẻ": zero hundreds before the particle vanish. */
  const ZeroHundredsLinker := Rule([DigitWords[0], JoinWords[2], ChangeJoinWord], [ChangeJoinWord])
  /** "trăm lẻ" -> "trăm": the particle after hundreds is dropped. */
  const DropLinker := Rule([JoinWords[2], ChangeJoinWord], [JoinWords[2]])
  /** "một mươi" -> "mười": one ten is the dedicated ten word. */
  const TenWord := Rule([DigitWords[1], JoinWords[1]], [TenJoinWord])
  /** "mươi một" -> "mươi mốt". */
  const IrregularOne := Rule([JoinWords[1], DigitWords[1]], [JoinWords[1], SpecOne])
  /** "mươi bốn" -> "mươi tư". */
  const IrregularFour := Rule([JoinWords[1], DigitWords[4]], [JoinWords[1], SpecFour])
  /** "mươi năm" -> "mươi lăm". */
  const IrregularFive := Rule([JoinWords[1], DigitWords[5]], [JoinWords[1], SpecFive])

  /** `s.replace(pattern, replacement)` on the text. */
  function Rewrite(s: string, r: Rule): (res: string)
    requires r.Valid()
  {
    ReplaceAll(s, Join(r.pattern), Join(r.replacement))
  }

  /** The same rewrite on a word list. */
  function RewriteWords(ws: seq<string>, r: Rule): (res: seq<string>)
    requires r.Valid()
  {
    ReplaceAll(ws, r.pattern, r.replacement)
  }

  /** `simplify`: the eight rewrites, in order. */
  function Simplify(s: string): (r: string)
  {
    var s1 := Rewrite(s, DropZeroUnits);
    var s2 := Rewrite(s1, ZeroTensLinker);
    var s3 := Rewrite(s2, ZeroHundredsLinker);
    var s4 := Rewrite(s3, DropLinker);
    var s5 := Rewrite(s4, TenWord);
    var s6 := Rewrite(s5, IrregularOne);
    var s7 := Rewrite(s6, IrregularFour);
    Rewrite(s7, IrregularFive)
  }

  /** The first four rewrites: zeros and the linking particle. */
  function EarlyRules(ws: seq<string>): (r: seq<string>)
  {
    var w1 := RewriteWords(ws, DropZeroUnits);
    var w2 := RewriteWords(w1, ZeroTensLinker);
    var w3 := RewriteWords(w2, ZeroHundredsLinker);
    RewriteWords(w3, DropLinker)
  }

  /** The last four rewrites: the ten word and the irregular units. */
  function LateRules(ws: seq<string>): (r: seq<string>)
  {
    var w5 := RewriteWords(ws, TenWord);
    var w6 := RewriteWords(w5, IrregularOne);
    var w7 := RewriteWords(w6, IrregularFour);
    RewriteWords(w7, IrregularFive)
  }

  /** The eight rewrites on a word list. */
  function SimplifyWords(ws: seq<string>): (r: seq<string>)
  {
    LateRules(EarlyRules(ws))
  }

  /** `get_trio_string`. */
  function TrioString(t: string): (r: string)
    requires IsTrio(t)
  {
    Simplify(RawTrio(t))
  }

  /** Rules whose words all come from the group vocabulary. */
  predicate InVocab(r: Rule)
  {
    r.Valid() && Over(r.pattern, TrioVocab) && Over(r.replacement, TrioVocab)
  }

  /** One textual rewrite of a joined phrase is the word-level rewrite. */
  lemma RewriteJoin(ws: seq<string>, r: Rule)
    requires Over(ws, TrioVocab) && InVocab(r)
    ensures Rewrite(Join(ws), r) == Join(RewriteWords(ws, r))
    ensures Over(RewriteWords(ws, r), TrioVocab)
  {
    TrioVocabAffixFree();
    ReplaceJoin(ws, r.pattern, r.replacement, TrioVocab);
    ReplaceOver(ws, r.pattern, r.replacement, TrioVocab);
  }

  /** Simplifying a joined phrase over the group vocabulary is simplifying
      its word list. */
  lemma SimplifyJoin(ws: seq<string>)
    requires Over(ws, TrioVocab)
    ensures Simplify(Join(ws)) == Join(SimplifyWords(ws))
  {
    assert InVocab(DropZeroUnits) && InVocab(ZeroTensLinker) && InVocab(ZeroHundredsLinker);
    assert InVocab(DropLinker) && InVocab(TenWord) && InVocab(IrregularOne);
    assert InVocab(IrregularFour) && InVocab(IrregularFive);
    var w1 := RewriteWords(ws, DropZeroUnits);
    RewriteJoin(ws, DropZeroUnits);
    var w2 := RewriteWords(w1, ZeroTensLinker);
    RewriteJoin(w1, ZeroTensLinker);
    var w3 := RewriteWords(w2, ZeroHundredsLinker);
    RewriteJoin(w2, ZeroHundredsLinker);
    var w4 := RewriteWords(w3, DropLinker);
    RewriteJoin(w3, DropLinker);
    var w5 := RewriteWords(w4, TenWord);
    RewriteJoin(w4, TenWord);
    var w6 := RewriteWords(w5, IrregularOne);
    RewriteJoin(w5, IrregularOne);
    var w7 := RewriteWords(w6, IrregularFour);
    RewriteJoin(w6, IrregularFour);
    RewriteJoin(w7, IrregularFive);
  }

  /** What the digit table says about one digit character's word: it is a
      non-empty group word, differs from every position and substitute word,
      and is "không", "một", "bốn" or "năm" exactly for 0, 1, 4 and 5. */
  lemma DigitFacts(c: char)
    requires IsDigit(c)
    ensures DigitWord(c) in TrioVocab && DigitWord(c) != ""
    ensures DigitWord(c) !in {"mươi", "trăm", "mười", "lẻ", "mốt", "tư", "lăm"}
    ensures DigitWord(c) == "không" <==> c == '0'
    ensures DigitWord(c) == "một" <==> c == '1'
    ensures DigitWord(c) == "bốn" <==> c == '4'
    ensures DigitWord(c) == "năm" <==> c == '5'
  {
    var d := DigitValue(c);
    assert DigitWord(c) == DigitWords[d];
  }

  /** Before rewriting, a group reads as its digit words, most significant
      first, each followed by "trăm", "mươi" or nothing by its position. */
  lemma RawTrioWords(t: string)
    requires IsTrio(t)
    ensures RawTrio(t) == Join(RawWords(t))
    ensures Over(RawWords(t), TrioVocab)
  {
    RawWordsOver(t);
    var n := |t|;
    DigitFacts(t[n - 1]);
    NonEmptyAll([DigitWord(t[n - 1])]);
    NonEmptyAppend([DigitWord(t[n - 1])], ["", ""]);
    NonEmptyNone(["", ""]);
    assert [DigitWord(t[n - 1])] + ["", ""] == [DigitWord(t[n - 1]), "", ""];
    assert RawFrom(t, 1) == DigitWord(t[n - 1]);
    if n >= 2 {
      DigitFacts(t[n - 2]);
      var two := [DigitWord(t[n - 2]), "mươi", DigitWord(t[n - 1])];
      NonEmptyAll(two);
      assert RawFrom(t, 2) == Join(two);
      if n == 3 {
        DigitFacts(t[0]);
        var top := [DigitWord(t[0]), "trăm", Join(two)];
        NonEmptyAll(top);
        assert RawFrom(t, 3) == Join(top);
        JoinSplice([DigitWord(t[0]), "trăm"], two, []);
        assert [DigitWord(t[0]), "trăm"] + [Join(two)] + [] == top;
        assert [DigitWord(t[0]), "trăm"] + two + [] == RawWords(t);
      }
    }
  }

  lemma RawWordsOver(t: string)
    requires IsTrio(t)
    ensures Over(RawWords(t), TrioVocab)
  {
    DigitFacts(t[0]);
    DigitFacts(t[|t| - 1]);
    if |t| == 3 {
      DigitFacts(t[1]);
    }
  }

  // ----- The reading, word by word -----

  /** The units word, or nothing for a zero units digit. */
  function Units(c: char): (u: seq<string>)
    requires IsDigit(c)
  {
    if c == '0' then [] else [DigitWord(c)]
  }

  /** The units word after a tens word of twenty or more: 1, 4 and 5 take
      their irregular forms. */
  function UnitAfterTens(c: char): (r: string)
    requires IsDigit(c)
  {
    if c == '1' then SpecOne
    else if c == '4' then SpecFour
    else if c == '5' then SpecFive
    else DigitWord(c)
  }

  /** Tens digit `b` (not zero) and units digit `c`: "mười" and the plain
      units word for the teens, otherwise the tens digit word, "mươi" and the
      units word in its after-tens form. */
  function TensReading(b: char, c: char): (r: seq<string>)
    requires IsDigit(b) && IsDigit(c) && b != '0'
  {
    if b == '1' then [TenJoinWord] + Units(c)
    else [DigitWord(b), JoinWords[1]] + (if c == '0' then [] else [UnitAfterTens(c)])
  }

  /** The reading of a group stated position by position: one digit is its
      word; otherwise a hundreds part ("A trăm", or the particle "lẻ" when
      the tens digit is zero and there is no non-zero hundreds digit), then
      the tens reading or, for a zero tens digit, the bare units word. */
  function Render(t: string): (r: seq<string>)
    requires IsTrio(t)
  {
    if |t| == 1 then [DigitWord(t[0])]
    else
      var b, c := t[|t| - 2], t[|t| - 1];
      var head := if |t| == 3 then [DigitWord(t[0]), JoinWords[2]] else [];
      if b != '0' then head + TensReading(b, c)
      else if |t| == 3 && t[0] != '0' then head + Units(c)
      else [ChangeJoinWord] + Units(c)
  }

  /** A leading "A trăm" never takes part in a rule without "trăm". */
  lemma HeadKept(h: string, ws: seq<string>, r: Rule)
    requires r.Valid() && "trăm" !in r.pattern
    ensures RewriteWords([h, "trăm"] + ws, r) == [h, "trăm"] + RewriteWords(ws, r)
  {
    var s := [h, "trăm"] + ws;
    forall i | 0 <= i < 2
      ensures !MatchAt(s, i, r.pattern)
    {
      if i + |r.pattern| <= |s| {
        assert s[i..i + |r.pattern|][1 - i] == "trăm";
      }
    }
    ReplaceAllCut([h, "trăm"], ws, r.pattern, r.replacement);
  }

  /** "B mươi C" after rules 1 and 2. */
  function TensZerosDone(b: char, c: char): (r: seq<string>)
    requires IsDigit(b) && IsDigit(c)
  {
    (if b == '0' then [ChangeJoinWord] else [DigitWord(b), JoinWords[1]]) + Units(c)
  }

  /** Rules 1 and 2 on "B mươi C": a zero units word goes, and zero tens
      become the particle. */
  lemma TensZeros(b: char, c: char)
    requires IsDigit(b) && IsDigit(c)
    ensures RewriteWords(RewriteWords([DigitWord(b), "mươi", DigitWord(c)], DropZeroUnits), ZeroTensLinker)
         == TensZerosDone(b, c)
  {
    DropZeroUnitsStep(b, c);
    ZeroTensStep(b, c);
  }

  /** Rule 1 on "B mươi C": the units word goes exactly when it is zero. */
  lemma DropZeroUnitsStep(b: char, c: char)
    requires IsDigit(b) && IsDigit(c)
    ensures RewriteWords([DigitWord(b), "mươi", DigitWord(c)], DropZeroUnits) == [DigitWord(b), "mươi"] + Units(c)
  {
    DigitFacts(b);
    DigitFacts(c);
    var ws := [DigitWord(b), "mươi", DigitWord(c)];
    if c == '0' {
      assert ws == [DigitWord(b)] + DropZeroUnits.pattern + [];
      ReplaceAllHit([DigitWord(b)], DropZeroUnits.pattern, [], DropZeroUnits.replacement);
    } else {
      var p, q := DropZeroUnits.pattern, DropZeroUnits.replacement;
      var tail := ["mươi", DigitWord(c)];
      assert ws == [DigitWord(b)] + tail;
      ReplaceAllSkip([DigitWord(b)], tail, p, q);
      assert !MatchAt(tail, 0, p) by { assert tail[0..2][1] == DigitWord(c); }
      ReplaceAllMiss(tail, p, q);
    }
  }

  /** Rule 2 on "B mươi" and the units: zero tens become the particle. */
  lemma ZeroTensStep(b: char, c: char)
    requires IsDigit(b) && IsDigit(c)
    ensures RewriteWords([DigitWord(b), "mươi"] + Units(c), ZeroTensLinker) == TensZerosDone(b, c)
  {
    DigitFacts(b);
    DigitFacts(c);
    if b == '0' {
      assert [DigitWord(b), "mươi"] + Units(c) == [] + ZeroTensLinker.pattern + Units(c);
      ReplaceAllHit([], ZeroTensLinker.pattern, Units(c), ZeroTensLinker.replacement);
    } else {
      assert ZeroTensLinker.pattern[0] !in [DigitWord(b), "mươi"] + Units(c);
    }
  }

  /** The hundreds rules when the tens digit is not zero: no particle, so
      nothing to do. */
  lemma HundredsKeep(a: char, b: char, c: char)
    requires IsDigit(a) && IsDigit(b) && IsDigit(c) && b != '0'
    ensures RewriteWords(RewriteWords([DigitWord(a), "trăm"] + TensZerosDone(b, c), ZeroHundredsLinker), DropLinker)
         == [DigitWord(a), "trăm", DigitWord(b), "mươi"] + Units(c)
  {
    DigitFacts(a);
    DigitFacts(b);
    DigitFacts(c);
    var ws := [DigitWord(a), "trăm"] + TensZerosDone(b, c);
    assert ws == [DigitWord(a), "trăm", DigitWord(b), "mươi"] + Units(c);
    assert "lẻ" !in ws;
  }

  /** Zero tens under non-zero hundreds: "A trăm lẻ" loses its particle. */
  lemma HundredsDropLinker(a: char, c: char)
    requires IsDigit(a) && IsDigit(c) && a != '0'
    ensures RewriteWords(RewriteWords([DigitWord(a), "trăm"] + TensZerosDone('0', c), ZeroHundredsLinker), DropLinker)
         == [DigitWord(a), "trăm"] + Units(c)
  {
    DigitFacts(a);
    DigitFacts(c);
    var ws := [DigitWord(a), "trăm"] + TensZerosDone('0', c);
    assert ws == [DigitWord(a), "trăm", "lẻ"] + Units(c);
    assert ZeroHundredsLinker.pattern[0] !in ws;
    DropLinkerAfter(DigitWord(a), Units(c));
  }

  /** "H trăm lẻ U" loses its particle when H is not itself "trăm". */
  lemma DropLinkerAfter(h: string, u: seq<string>)
    requires h != "trăm" && |u| <= 1
    ensures RewriteWords([h, "trăm", "lẻ"] + u, DropLinker) == [h, "trăm"] + u
  {
    var p, q := DropLinker.pattern, DropLinker.replacement;
    assert [h, "trăm", "lẻ"] + u == [h] + p + u;
    ReplaceAllHit([h], p, u, q);
    assert ReplaceAll(u, p, q) == u;
  }

  /** Zero hundreds and zero tens: "không trăm lẻ" is just the particle. */
  lemma HundredsZero(c: char)
    requires IsDigit(c)
    ensures RewriteWords(RewriteWords([DigitWord('0'), "trăm"] + TensZerosDone('0', c), ZeroHundredsLinker), DropLinker)
         == ["lẻ"] + Units(c)
  {
    DigitFacts('0');
    DigitFacts(c);
    var ws := [DigitWord('0'), "trăm"] + TensZerosDone('0', c);
    assert ws == ["không", "trăm", "lẻ"] + Units(c);
    ZeroHundredsAfter(Units(c));
  }

  /** "không trăm lẻ U" becomes "lẻ U", which the next rule leaves alone. */
  lemma ZeroHundredsAfter(u: seq<string>)
    requires "trăm" !in u
    ensures RewriteWords(RewriteWords(["không", "trăm", "lẻ"] + u, ZeroHundredsLinker), DropLinker) == ["lẻ"] + u
  {
    var p, q := ZeroHundredsLinker.pattern, ZeroHundredsLinker.replacement;
    assert ["không", "trăm", "lẻ"] + u == [] + p + u;
    ReplaceAllHit([], p, u, q);
    assert ReplaceAll(u, p, q) == u by {
      assert p[1] !in u;
      ReplaceAllAbsent(u, p, q, 1);
    }
    assert DropLinker.pattern[0] !in ["lẻ"] + u;
  }

  /** After the first four rules, a group whose tens digit is not zero still
      reads "… B mươi C" (with any zero units word gone); any other group
      already reads as `Render` says. */
  lemma EarlyRaw(t: string)
    requires IsTrio(t)
    ensures EarlyRules(RawWords(t))
         == if |t| >= 2 && t[|t| - 2] != '0' then TensPending(t) else Render(t)
  {
    if |t| == 1 {
      EarlyRawOne(t);
    } else if |t| == 2 {
      EarlyRawTwo(t);
    } else {
      EarlyRawThree(t);
    }
  }

  lemma EarlyRawOne(t: string)
    requires IsTrio(t) && |t| == 1
    ensures EarlyRules(RawWords(t)) == Render(t)
  {
    var ws := [DigitWord(t[0])];
    assert RawWords(t) == ws && Render(t) == ws;
    assert RewriteWords(ws, DropZeroUnits) == ws;
    assert RewriteWords(ws, ZeroTensLinker) == ws;
    assert RewriteWords(ws, ZeroHundredsLinker) == ws;
    assert RewriteWords(ws, DropLinker) == ws;
  }

  lemma EarlyRawTwo(t: string)
    requires IsTrio(t) && |t| == 2
    ensures EarlyRules(RawWords(t)) == if t[|t| - 2] != '0' then TensPending(t) else Render(t)
  {
    var b, c := t[0], t[1];
    assert RawWords(t) == [DigitWord(b), "mươi", DigitWord(c)];
    EarlyTwo(b, c);
    if b != '0' {
      assert TensPending(t) == TensZerosDone(b, c);
    } else {
      assert Render(t) == TensZerosDone(b, c);
    }
  }

  lemma EarlyRawThree(t: string)
    requires IsTrio(t) && |t| == 3
    ensures EarlyRules(RawWords(t)) == if t[|t| - 2] != '0' then TensPending(t) else Render(t)
  {
    assert RawWords(t) == [DigitWord(t[0]), "trăm"] + [DigitWord(t[1]), "mươi", DigitWord(t[2])];
    EarlyThree(t[0], t[1], t[2]);
    if t[1] != '0' {
      EarlyRawThreeTens(t);
    } else {
      EarlyRawThreeZeroTens(t);
    }
  }

  lemma EarlyRawThreeTens(t: string)
    requires IsTrio(t) && |t| == 3 && t[1] != '0'
    ensures TensPending(t) == [DigitWord(t[0]), "trăm", DigitWord(t[1]), "mươi"] + Units(t[2])
  {
  }

  lemma EarlyRawThreeZeroTens(t: string)
    requires IsTrio(t) && |t| == 3 && t[1] == '0'
    ensures Render(t) == if t[0] != '0' then [DigitWord(t[0]), "trăm"] + Units(t[2]) else ["lẻ"] + Units(t[2])
  {
  }

  lemma EarlyTwo(b: char, c: char)
    requires IsDigit(b) && IsDigit(c)
    ensures EarlyRules([DigitWord(b), "mươi", DigitWord(c)]) == TensZerosDone(b, c)
  {
    TensZeros(b, c);
    var w2 := TensZerosDone(b, c);
    DigitFacts(b);
    DigitFacts(c);
    assert "trăm" !in w2;
    ReplaceAllAbsent(w2, ZeroHundredsLinker.pattern, ZeroHundredsLinker.replacement, 1);
  }

  lemma EarlyThree(a: char, b: char, c: char)
    requires IsDigit(a) && IsDigit(b) && IsDigit(c)
    ensures EarlyRules([DigitWord(a), "trăm"] + [DigitWord(b), "mươi", DigitWord(c)])
         == if b != '0' then [DigitWord(a), "trăm", DigitWord(b), "mươi"] + Units(c)
            else if a != '0' then [DigitWord(a), "trăm"] + Units(c)
            else ["lẻ"] + Units(c)
  {
    var tail := [DigitWord(b), "mươi", DigitWord(c)];
    HeadKept(DigitWord(a), tail, DropZeroUnits);
    var t1 := RewriteWords(tail, DropZeroUnits);
    HeadKept(DigitWord(a), t1, ZeroTensLinker);
    TensZeros(b, c);
    if b != '0' {
      HundredsKeep(a, b, c);
    } else if a != '0' {
      HundredsDropLinker(a, c);
    } else {
      HundredsZero(c);
    }
  }

  /** Without a tens word, none of the last four rules applies. */
  lemma LateInert(ws: seq<string>)
    requires "mươi" !in ws
    ensures LateRules(ws) == ws
  {
  }

  lemma LateHead(h: string, ws: seq<string>)
    ensures LateRules([h, "trăm"] + ws) == [h, "trăm"] + LateRules(ws)
  {
    HeadKept(h, ws, TenWord);
    var w5 := RewriteWords(ws, TenWord);
    HeadKept(h, w5, IrregularOne);
    var w6 := RewriteWords(w5, IrregularOne);
    HeadKept(h, w6, IrregularFour);
    var w7 := RewriteWords(w6, IrregularFour);
    HeadKept(h, w7, IrregularFive);
  }

  /** One irregular-units rule on "B mươi" and at most one units word: the
      units word changes exactly when it is the rule's digit word. */
  lemma IrregularStep(bw: string, u: seq<string>, r: Rule)
    requires r.Valid() && |r.pattern| == 2 && r.pattern[0] == "mươi"
    requires |r.replacement| == 2 && r.replacement[0] == "mươi"
    requires bw != "mươi" && |u| <= 1
    ensures RewriteWords([bw, "mươi"] + u, r)
         == [bw, "mươi"] + (if u == [r.pattern[1]] then [r.replacement[1]] else u)
  {
    SkipPairTail(bw, r.pattern, r.replacement, u);
  }

  lemma SkipPairTail(x: string, p: seq<string>, q: seq<string>, u: seq<string>)
    requires |p| == 2 && |q| == 2 && q[0] == p[0] && |u| <= 1 && x != p[0]
    ensures ReplaceAll([x, p[0]] + u, p, q) == [x, p[0]] + (if u == [p[1]] then [q[1]] else u)
  {
    assert [x, p[0]] + u == [x] + ([p[0]] + u);
    ReplaceAllSkip([x], [p[0]] + u, p, q);
    PairTail(p, q, u);
    var v := if u == [p[1]] then [q[1]] else u;
    assert [x] + ([p[0]] + v) == [x, p[0]] + v;
  }

  /** A two-word pattern after its own first word and at most one more word:
      replaced exactly when that word completes the pattern. */
  lemma PairTail(p: seq<string>, q: seq<string>, u: seq<string>)
    requires |p| == 2 && |q| == 2 && q[0] == p[0] && |u| <= 1
    ensures ReplaceAll([p[0]] + u, p, q) == [p[0]] + (if u == [p[1]] then [q[1]] else u)
  {
    if u == [p[1]] {
      assert [p[0]] + u == [] + p + [];
      ReplaceAllHit([], p, [], q);
      assert q == [q[0], q[1]];
    } else if |u| == 1 {
      var s := [p[0]] + u;
      assert s[..2] != p by { assert s[..2][1] == u[0]; }
    }
  }

  /** The last four rules on a non-zero tens digit and its units. */
  lemma LateTens(b: char, c: char)
    requires IsDigit(b) && IsDigit(c) && b != '0'
    ensures LateRules([DigitWord(b), "mươi"] + Units(c)) == TensReading(b, c)
  {
    DigitFacts(b);
    DigitFacts(c);
    var ws := [DigitWord(b), "mươi"] + Units(c);
    if b == '1' {
      assert ws == [] + TenWord.pattern + Units(c);
      ReplaceAllHit([], TenWord.pattern, Units(c), TenWord.replacement);
      LateInertTail(Units(c));
      LateInert(["mười"] + Units(c));
    } else {
      ReplaceAllSkip([DigitWord(b), "mươi"], Units(c), TenWord.pattern, TenWord.replacement);
      var u1 := if c == '1' then ["mốt"] else Units(c);
      IrregularStep(DigitWord(b), Units(c), IrregularOne);
      var u2 := if c == '4' then ["tư"] else u1;
      IrregularStep(DigitWord(b), u1, IrregularFour);
      IrregularStep(DigitWord(b), u2, IrregularFive);
    }
  }

  lemma LateInertTail(u: seq<string>)
    requires |u| <= 1
    ensures RewriteWords(u, TenWord) == u
  {
  }

  /** A group whose tens digit is not zero, after the first four rules: the
      hundreds part, then "B mươi" and the units word unless it is zero. */
  function TensPending(t: string): (r: seq<string>)
    requires IsTrio(t) && |t| >= 2
  {
    (if |t| == 3 then [DigitWord(t[0]), JoinWords[2]] else []) + [DigitWord(t[|t| - 2]), JoinWords[1]] + Units(t[|t| - 1])
  }

  /** The eight rewrites turn the raw phrase of every group into the
      position-by-position reading. */
  lemma SimplifyRaw(t: string)
    requires IsTrio(t)
    ensures SimplifyWords(RawWords(t)) == Render(t)
  {
    EarlyRaw(t);
    if |t| >= 2 && t[|t| - 2] != '0' {
      LateRaw(t);
    } else {
      LatePlain(t);
    }
  }

  lemma LatePlain(t: string)
    requires IsTrio(t) && !(|t| >= 2 && t[|t| - 2] != '0')
    ensures LateRules(Render(t)) == Render(t)
  {
    DigitFacts(t[0]);
    DigitFacts(t[|t| - 1]);
    assert "mươi" !in Render(t);
    LateInert(Render(t));
  }

  lemma LateRaw(t: string)
    requires IsTrio(t) && |t| >= 2 && t[|t| - 2] != '0'
    ensures LateRules(TensPending(t)) == Render(t)
  {
    if |t| == 3 {
      LateRawThree(t);
    } else {
      LateRawTwo(t);
    }
  }

  lemma LateRawTwo(t: string)
    requires IsTrio(t) && |t| == 2 && t[0] != '0'
    ensures LateRules(TensPending(t)) == Render(t)
  {
    var b, c := t[0], t[1];
    assert TensPending(t) == [DigitWord(b), "mươi"] + Units(c);
    assert Render(t) == TensReading(b, c);
    LateTens(b, c);
  }

  lemma LateRawThree(t: string)
    requires IsTrio(t) && |t| == 3 && t[1] != '0'
    ensures LateRules(TensPending(t)) == Render(t)
  {
    var b, c := t[1], t[2];
    var tens := [DigitWord(b), "mươi"] + Units(c);
    assert TensPending(t) == [DigitWord(t[0]), "trăm"] + tens;
    assert Render(t) == [DigitWord(t[0]), "trăm"] + TensReading(b, c);
    LateTens(b, c);
    LateHead(DigitWord(t[0]), tens);
  }

  /** `get_trio_string` reads every group as `Render` states. */
  lemma TrioStringRender(t: string)
    requires IsTrio(t)
    ensures TrioString(t) == Join(Render(t))
  {
    RawTrioWords(t);
    SimplifyJoin(RawWords(t));
    SimplifyRaw(t);
  }

  /** Every group, zeros included, reads as at least one word. */
  lemma TrioStringNonEmpty(t: string)
    requires IsTrio(t)
    ensures TrioString(t) != ""
  {
    TrioStringRender(t);
    RenderFirst(t);
  }

  /** Every reading starts with a non-empty word. */
  lemma RenderFirst(t: string)
    requires IsTrio(t)
    ensures |Render(t)| > 0 && Render(t)[0] != ""
  {
    if |t| == 1 {
      DigitFacts(t[0]);
    } else {
      var b := t[|t| - 2];
      if |t| == 3 && (b != '0' || t[0] != '0') {
        DigitFacts(t[0]);
        assert Render(t)[0] == DigitWord(t[0]);
      } else if b != '0' {
        DigitFacts(b);
        assert Render(t) == TensReading(b, t[|t| - 1]);
      } else {
        assert Render(t)[0] == ChangeJoinWord;
      }
    }
  }

  /** A group whose reading is the word list `ws` reads as `ws` joined. */
  lemma TrioReadsAs(t: string, ws: seq<string>, r: string)
    requires IsTrio(t) && Render(t) == ws && Join(ws) == r
    ensures TrioString(t) == r
  {
    TrioStringRender(t);
  }

  lemma Join2(a: string, b: string)
    ensures Join([a, b]) == a + " " + b
  {
    assert [a, b][1..] == [b];
  }

  lemma Join3(a: string, b: string, c: string)
    ensures Join([a, b, c]) == a + " " + b + " " + c
  {
    assert [a, b, c][1..] == [b, c];
    Join2(b, c);
  }

  lemma Join4(a: string, b: string, c: string, d: string)
    ensures Join([a, b, c, d]) == a + " " + b + " " + c + " " + d
  {
    assert [a, b, c, d][1..] == [b, c, d];
    Join3(b, c, d);
  }

  lemma Join5(a: string, b: string, c: string, d: string, e: string)
    ensures Join([a, b, c, d, e]) == a + " " + b + " " + c + " " + d + " " + e
  {
    assert [a, b, c, d, e][1..] == [b, c, d, e];
    Join4(b, c, d, e);
  }

  lemma RenderTen()
    ensures Render("10") == ["mười"]
  {
    assert DigitValue('0') == 0;
    assert DigitValue('1') == 1;
  }

  lemma ExampleTen()
    ensures TrioString("10") == "mười"
  {
    RenderTen();
    TrioReadsAs("10", ["mười"], "mười");
  }

  lemma RenderFifteen()
    ensures Render("15") == ["mười", "năm"]
  {
    assert DigitValue('1') == 1;
    assert DigitValue('5') == 5;
  }

  lemma ExampleFifteen()
    ensures TrioString("15") == "mười năm"
  {
    RenderFifteen();
    Join2("mười", "năm");
    TrioReadsAs("15", ["mười", "năm"], "mười năm");
  }

  lemma RenderTwentyOne()
    ensures Render("21") == ["hai", "mươi", "mốt"]
  {
    assert DigitValue('1') == 1;
    assert DigitValue('2') == 2;
  }

  lemma ExampleTwentyOne()
    ensures TrioString("21") == "hai mươi mốt"
  {
    RenderTwentyOne();
    Join3("hai", "mươi", "mốt");
    TrioReadsAs("21", ["hai", "mươi", "mốt"], "hai mươi mốt");
  }

  lemma RenderTwentyFour()
    ensures Render("24") == ["hai", "mươi", "tư"]
  {
    assert DigitValue('2') == 2;
    assert DigitValue('4') == 4;
  }

  lemma ExampleTwentyFour()
    ensures TrioString("24") == "hai mươi tư"
  {
    RenderTwentyFour();
    Join3("hai", "mươi", "tư");
    TrioReadsAs("24", ["hai", "mươi", "tư"], "hai mươi tư");
  }

  lemma RenderTwentyFive()
    ensures Render("25") == ["hai", "mươi", "lăm"]
  {
    assert DigitValue('2') == 2;
    assert DigitValue('5') == 5;
  }

  lemma ExampleTwentyFive()
    ensures TrioString("25") == "hai mươi lăm"
  {
    RenderTwentyFive();
    Join3("hai", "mươi", "lăm");
    TrioReadsAs("25", ["hai", "mươi", "lăm"], "hai mươi lăm");
  }

  lemma RenderOneHundred()
    ensures Render("100") == ["một", "trăm"]
  {
    assert DigitValue('0') == 0;
    assert DigitValue('1') == 1;
  }

  lemma ExampleOneHundred()
    ensures TrioString("100") == "một trăm"
  {
    RenderOneHundred();
    Join2("một", "trăm");
    TrioReadsAs("100", ["một", "trăm"], "một trăm");
  }

  lemma RenderOneHundredTen()
    ensures Render("110") == ["một", "trăm", "mười"]
  {
    assert DigitValue('0') == 0;
    assert DigitValue('1') == 1;
  }

  lemma ExampleOneHundredTen()
    ensures TrioString("110") == "một trăm mười"
  {
    RenderOneHundredTen();
    Join3("một", "trăm", "mười");
    TrioReadsAs("110", ["một", "trăm", "mười"], "một trăm mười");
  }

  lemma RenderOneHundredOne()
    ensures Render("101") == ["một", "trăm", "một"]
  {
    assert DigitValue('0') == 0;
    assert DigitValue('1') == 1;
  }

  lemma ExampleOneHundredOne()
    ensures TrioString("101") == "một trăm một"
  {
    RenderOneHundredOne();
    Join3("một", "trăm", "một");
    TrioReadsAs("101", ["một", "trăm", "một"], "một trăm một");
  }

  lemma RenderOneHundredFive()
    ensures Render("105") == ["một", "trăm", "năm"]
  {
    assert DigitValue('0') == 0;
    assert DigitValue('1') == 1;
    assert DigitValue('5') == 5;
  }

  lemma ExampleOneHundredFive()
    ensures TrioString("105") == "một trăm năm"
  {
    RenderOneHundredFive();
    Join3("một", "trăm", "năm");
    TrioReadsAs("105", ["một", "trăm", "năm"], "một trăm năm");
  }

  lemma RenderZeroZeroFive()
    ensures Render("005") == ["lẻ", "năm"]
  {
    assert DigitValue('0') == 0;
    assert DigitValue('5') == 5;
  }

  lemma ExampleZeroZeroFive()
    ensures TrioString("005") == "lẻ năm"
  {
    RenderZeroZeroFive();
    Join2("lẻ", "năm");
    TrioReadsAs("005", ["lẻ", "năm"], "lẻ năm");
  }

  lemma RenderZeroTwenty()
    ensures Render("020") == ["không", "trăm", "hai", "mươi"]
  {
    assert DigitValue('0') == 0;
    assert DigitValue('2') == 2;
  }

  lemma JoinZeroTwenty()
    ensures Join(["không", "trăm", "hai", "mươi"]) == "không trăm hai mươi"
  {
    Join4("không", "trăm", "hai", "mươi");
  }

  lemma ExampleZeroTwenty()
    ensures TrioString("020") == "không trăm hai mươi"
  {
    RenderZeroTwenty();
    JoinZeroTwenty();
    TrioReadsAs("020", ["không", "trăm", "hai", "mươi"], "không trăm hai mươi");
  }

  lemma RenderZero()
    ensures Render("0") == ["không"]
  {
    assert DigitValue('0') == 0;
  }

  lemma ExampleZero()
    ensures TrioString("0") == "không"
  {
    RenderZero();
    TrioReadsAs("0", ["không"], "không");
  }

  lemma RenderOne()
    ensures Render("1") == ["một"]
  {
    assert DigitValue('1') == 1;
  }

  lemma ExampleOne()
    ensures TrioString("1") == "một"
  {
    RenderOne();
    TrioReadsAs("1", ["một"], "một");
  }

  lemma RenderTwo()
    ensures Render("2") == ["hai"]
  {
    assert DigitValue('2') == 2;
  }

  lemma ExampleTwo()
    ensures TrioString("2") == "hai"
  {
    RenderTwo();
    TrioReadsAs("2", ["hai"], "hai");
  }

  lemma RenderZeroTwentyOne()
    ensures Render("021") == ["không", "trăm", "hai", "mươi", "mốt"]
  {
    assert DigitValue('0') == 0;
    assert DigitValue('1') == 1;
    assert DigitValue('2') == 2;
  }

  lemma JoinZeroTwentyOne()
    ensures Join(["không", "trăm", "hai", "mươi", "mốt"]) == "không trăm hai mươi mốt"
  {
    Join5("không", "trăm", "hai", "mươi", "mốt");
  }

  lemma ExampleZeroTwentyOne()
    ensures TrioString("021") == "không trăm hai mươi mốt"
  {
    RenderZeroTwentyOne();
    JoinZeroTwentyOne();
    TrioReadsAs("021", ["không", "trăm", "hai", "mươi", "mốt"], "không trăm hai mươi mốt");
  }

  lemma RenderZeroFive()
    ensures Render("05") == ["lẻ", "năm"]
  {
    assert DigitValue('0') == 0;
    assert DigitValue('5') == 5;
  }

  lemma ExampleZeroFive()
    ensures TrioString("05") == "lẻ năm"
  {
    RenderZeroFive();
    Join2("lẻ", "năm");
    TrioReadsAs("05", ["lẻ", "năm"], "lẻ năm");
  }
}
