/**
 The whole-number reader: splits the digit string into groups of three from
 the right, reads each non-zero group with the trio reader, follows it with
 the scale word of its level, and joins the pieces most significant first.
 */
module Number {
  import opened Text
  import opened Lexicon
  import opened Trio

  // ----- Grouping -----

  /** `math.ceil(length / 3)`: the number of groups. */
  function GroupCount(n: nat): (k: nat)
    ensures 3 * k >= n && 3 * k < n + 3
  {
    (n + 2) / 3
  }

  /** `length - 3 * (lev + 1)`, clamped at zero as `get_number_string` does. */
  function GroupStart(n: nat, lev: nat): (r: nat)
  {
    if n - 3 * (lev + 1) < 0 then 0 else n - 3 * (lev + 1)
  }

  /** `length - 3 * lev`, the end of the group of level `lev`; zero once the
      levels run past the digits. */
  function GroupEnd(n: nat, lev: nat): (r: nat)
  {
    if n - 3 * lev < 0 then 0 else n - 3 * lev
  }

  /** The group of level `lev` (level 0 is the rightmost): one to three
      digits, and exactly three unless it is the most significant group. */
  function Group(s: string, lev: nat): (g: string)
    requires IsDigits(s) && lev < GroupCount(|s|)
    ensures IsTrio(g)
    ensures lev + 1 < GroupCount(|s|) ==> |g| == 3
    ensures g == s[GroupEnd(|s|, lev + 1)..GroupEnd(|s|, lev)]
  {
    s[GroupStart(|s|, lev)..|s| - 3 * lev]
  }

  /** The groups from the most significant down to level `lev`. */
  function Groups(s: string, lev: nat): (gs: seq<string>)
    requires IsDigits(s) && lev <= GroupCount(|s|)
    ensures |gs| == GroupCount(|s|) - lev
    decreases GroupCount(|s|) - lev
  {
    if lev == GroupCount(|s|) then [] else Groups(s, lev + 1) + [Group(s, lev)]
  }

  /** The groups, most significant first, spell the digits they were cut
      from: written one after another they give back the input's prefix up
      to the end of level `lev`, and all of it at level 0. */
  lemma {:induction false} GroupsCover(s: string, lev: nat)
    requires IsDigits(s) && lev <= GroupCount(|s|)
    ensures Concat(Groups(s, lev)) == s[..GroupEnd(|s|, lev)]
    decreases GroupCount(|s|) - lev
  {
    if lev < GroupCount(|s|) {
      GroupsCover(s, lev + 1);
      var gs := Groups(s, lev + 1);
      var g := Group(s, lev);
      assert (gs + [g])[..|gs|] == gs;
      GroupPrefix(s, lev);
    }
  }

  /** The digits up to the end of a level are those up to the end of the
      next level followed by the level's group. */
  lemma GroupPrefix(s: string, lev: nat)
    requires IsDigits(s) && lev < GroupCount(|s|)
    ensures s[..GroupEnd(|s|, lev)] == s[..GroupEnd(|s|, lev + 1)] + Group(s, lev)
  {
    var i, j := GroupEnd(|s|, lev + 1), GroupEnd(|s|, lev);
    assert i <= j <= |s|;
    assert s[..j] == s[..i] + s[i..j];
  }

  lemma GroupsWhole(s: string)
    requires IsDigits(s)
    ensures Concat(Groups(s, 0)) == s
    ensures |Groups(s, 0)| == GroupCount(|s|)
  {
    GroupsCover(s, 0);
    assert s[..|s|] == s;
  }

  /** `int(s)` for a string of decimal digits. */
  function Value(s: string): (r: nat)
    requires IsDigits(s)
  {
    if |s| == 0 then 0 else 10 * Value(s[..|s| - 1]) + DigitValue(s[|s| - 1])
  }

  predicate AllZero(s: string)
  {
    forall i :: 0 <= i < |s| ==> s[i] == '0'
  }

  /** A digit string has value zero exactly when every digit is '0'. */
  lemma {:induction false} ValueZero(s: string)
    requires IsDigits(s)
    ensures Value(s) == 0 <==> AllZero(s)
  {
    if |s| > 0 {
      var init := s[..|s| - 1];
      ValueZero(init);
      assert s == init + [s[|s| - 1]];
      if AllZero(s) {
        assert AllZero(init) by {
          forall i | 0 <= i < |init| ensures init[i] == '0' {
            assert init[i] == s[i];
          }
        }
      }
      if Value(s) == 0 {
        forall i | 0 <= i < |s| ensures s[i] == '0' {
          if i < |s| - 1 {
            assert s[i] == init[i];
          }
        }
      }
    }
  }

  // ----- Scale words -----

  /** `n` copies of the word `w`. */
  function Repeat(w: string, n: nat): (r: seq<string>)
    ensures |r| == n
    ensures forall i :: 0 <= i < n ==> r[i] == w
  {
    if n == 0 then [] else [w] + Repeat(w, n - 1)
  }

  /** The `while leap_level > 3` loop: each pass puts "tỉ" in front and
      lowers the level by three; the last step puts the level's own word. */
  function ScaleLoop(leap: nat, acc: string): (r: string)
    decreases leap
  {
    if leap > 3 then ScaleLoop(leap - 3, JoinUp([LevelJoinWords[3], acc]))
    else JoinUp([LevelJoinWords[leap], acc])
  }

  /** The scale word of group level `lev`. */
  function ScaleWord(lev: nat): (r: string)
  {
    ScaleLoop(lev, "")
  }

  /** The scale word in closed form: nothing at level 0; otherwise the word
      of the level within its cycle of three, then one "tỉ" per completed
      cycle. */
  function ScaleWords(lev: nat): (r: seq<string>)
  {
    if lev == 0 then [] else [LevelJoinWords[(lev - 1) % 3 + 1]] + Repeat(LevelJoinWords[3], (lev - 1) / 3)
  }

  /** Putting "tỉ" before `m` copies of "tỉ" gives `m + 1` copies. */
  lemma TiStep(m: nat)
    ensures JoinUp([LevelJoinWords[3], Join(Repeat(LevelJoinWords[3], m))]) == Join(Repeat(LevelJoinWords[3], m + 1))
  {
    var w := LevelJoinWords[3];
    JoinUpBefore(w, Repeat(w, m));
  }

  lemma {:induction false} ScaleLoopClosed(leap: nat, m: nat)
    requires leap >= 1
    ensures ScaleLoop(leap, Join(Repeat(LevelJoinWords[3], m)))
         == Join([LevelJoinWords[(leap - 1) % 3 + 1]] + Repeat(LevelJoinWords[3], m + (leap - 1) / 3))
    decreases leap
  {
    if leap > 3 {
      ScaleLoopClosed(leap - 3, m + 1);
      ScaleLoopStep(leap, m);
    } else {
      ScaleLoopLast(leap, m);
    }
  }

  /** One pass of the loop: "tỉ" joins the accumulated copies. */
  lemma ScaleLoopStep(leap: nat, m: nat)
    requires leap > 3
    ensures ScaleLoop(leap, Join(Repeat(LevelJoinWords[3], m)))
         == ScaleLoop(leap - 3, Join(Repeat(LevelJoinWords[3], m + 1)))
    ensures (leap - 3 - 1) % 3 == (leap - 1) % 3
    ensures m + 1 + (leap - 3 - 1) / 3 == m + (leap - 1) / 3
  {
    var w := LevelJoinWords[3];
    var acc := Join(Repeat(w, m));
    assert ScaleLoop(leap, acc) == ScaleLoop(leap - 3, JoinUp([w, acc]));
    TiStep(m);
    LeapArith(leap, m);
  }

  /** The last step of the loop puts the level's own word in front. */
  lemma ScaleLoopLast(leap: nat, m: nat)
    requires 1 <= leap <= 3
    ensures ScaleLoop(leap, Join(Repeat(LevelJoinWords[3], m)))
         == Join([LevelJoinWords[(leap - 1) % 3 + 1]] + Repeat(LevelJoinWords[3], m + (leap - 1) / 3))
  {
    var w := LevelJoinWords[3];
    var acc := Join(Repeat(w, m));
    assert (leap - 1) % 3 + 1 == leap && (leap - 1) / 3 == 0;
    assert ScaleLoop(leap, acc) == JoinUp([LevelJoinWords[leap], acc]);
    JoinUpBefore(LevelJoinWords[leap], Repeat(w, m));
  }

  lemma LeapArith(leap: nat, m: nat)
    requires leap > 3
    ensures (leap - 3 - 1) % 3 == (leap - 1) % 3
    ensures m + 1 + (leap - 3 - 1) / 3 == m + (leap - 1) / 3
  {
  }

  /** The scale-word loop ends with the closed form: level 4 is
      "nghìn tỉ", level 6 "tỉ tỉ", and so on. */
  lemma ScaleWordClosed(lev: nat)
    ensures ScaleWord(lev) == Join(ScaleWords(lev))
    ensures |ScaleWords(lev)| == if lev == 0 then 0 else 1 + (lev - 1) / 3
    ensures ScaleWord(lev) == "" <==> lev == 0
  {
    if lev == 0 {
      assert NonEmpty(["", ""]) == [];
    } else {
      ScaleLoopClosed(lev, 0);
      assert Join(ScaleWords(lev)) != "";
    }
  }

  lemma ScaleWordExamples()
    ensures ScaleWord(0) == ""
    ensures ScaleWord(1) == "nghìn"
    ensures ScaleWord(2) == "triệu"
    ensures ScaleWord(3) == "tỉ"
    ensures ScaleWord(4) == "nghìn tỉ"
    ensures ScaleWord(6) == "tỉ tỉ"
  {
    ScaleWordClosed(1);
    ScaleWordClosed(2);
    ScaleWordClosed(3);
    ScaleWordClosed(4);
    assert ScaleWords(4) == ["nghìn", "tỉ"];
    ScaleWordClosed(6);
    assert ScaleWords(6) == ["tỉ", "tỉ"];
  }

  // ----- Composition -----

  /** The `for lev in range(level)` loop from level `lev` on, with `acc` the
      reading of the lower groups so far: an all-zero group is skipped,
      any other is read, followed by its scale word, in front of `acc`. */
  function ComposeFrom(s: string, lev: nat, acc: string): (r: string)
    requires IsDigits(s) && lev <= GroupCount(|s|)
    decreases GroupCount(|s|) - lev
  {
    if lev == GroupCount(|s|) then acc
    else
      var trio := Group(s, lev);
      if Value(trio) == 0 then ComposeFrom(s, lev + 1, acc)
      else ComposeFrom(s, lev + 1, JoinUp([TrioString(trio), ScaleWord(lev), acc]))
  }

  /** `get_number_string`. */
  function NumberString(s: string): (r: string)
    requires IsDigits(s)
  {
    ComposeFrom(s, 0, "")
  }

  /** The reading pieces of the groups from the most significant down to
      level `lev`: each group with a non-zero digit gives its reading and
      its scale word; an all-zero group gives nothing. */
  function Pieces(s: string, lev: nat): (r: seq<string>)
    requires IsDigits(s) && lev <= GroupCount(|s|)
    decreases GroupCount(|s|) - lev
  {
    if lev == GroupCount(|s|) then [] else Pieces(s, lev + 1) + GroupReading(s, lev)
  }

  /** One group's share: its reading and its scale word, or nothing when
      every digit of the group is '0'. */
  function GroupReading(s: string, lev: nat): (r: seq<string>)
    requires IsDigits(s) && lev < GroupCount(|s|)
  {
    var g := Group(s, lev);
    if AllZero(g) then [] else [TrioString(g), ScaleWord(lev)]
  }

  lemma {:induction false} ComposeFromPieces(s: string, lev: nat, acc: string)
    requires IsDigits(s) && lev <= GroupCount(|s|)
    ensures ComposeFrom(s, lev, acc) == JoinUp(Pieces(s, lev) + [acc])
    decreases GroupCount(|s|) - lev
  {
    if lev == GroupCount(|s|) {
      JoinUpOne(acc);
      assert Pieces(s, lev) + [acc] == [acc];
    } else {
      var g := Group(s, lev);
      ValueZero(g);
      var rest := Pieces(s, lev + 1);
      if AllZero(g) {
        assert Pieces(s, lev) == rest;
        assert ComposeFrom(s, lev, acc) == ComposeFrom(s, lev + 1, acc);
        ComposeFromPieces(s, lev + 1, acc);
      } else {
        var t, w := TrioString(g), ScaleWord(lev);
        assert Pieces(s, lev) == rest + [t, w];
        assert ComposeFrom(s, lev, acc) == ComposeFrom(s, lev + 1, JoinUp([t, w, acc]));
        ComposeFromPieces(s, lev + 1, JoinUp([t, w, acc]));
        FlattenPhrase(rest, t, w, acc);
      }
    }
  }

  lemma FlattenPhrase(rest: seq<string>, t: string, w: string, acc: string)
    ensures JoinUp(rest + [JoinUp([t, w, acc])]) == JoinUp(rest + [t, w] + [acc])
  {
    JoinUpFlatten(rest, [t, w, acc], []);
    assert rest + [JoinUp([t, w, acc])] + [] == rest + [JoinUp([t, w, acc])];
    assert rest + [t, w, acc] + [] == rest + [t, w] + [acc];
  }

  /** The number reads as the pieces of its groups, most significant group
      first, joined with single spaces and empty pieces dropped. */
  lemma NumberStringPieces(s: string)
    requires IsDigits(s)
    ensures NumberString(s) == JoinUp(Pieces(s, 0))
  {
    ComposeFromPieces(s, 0, "");
    JoinUpDropLast(Pieces(s, 0));
  }

  lemma AllZeroAppend(a: string, b: string)
    ensures AllZero(a + b) <==> AllZero(a) && AllZero(b)
  {
    if AllZero(a + b) {
      forall i | 0 <= i < |a| ensures a[i] == '0' {
        assert (a + b)[i] == a[i];
      }
      forall i | 0 <= i < |b| ensures b[i] == '0' {
        assert (a + b)[|a| + i] == b[i];
      }
    }
  }

  predicate Blank(ws: seq<string>)
  {
    forall i :: 0 <= i < |ws| ==> ws[i] == ""
  }

  lemma BlankAppend(a: seq<string>, b: seq<string>)
    ensures Blank(a + b) <==> Blank(a) && Blank(b)
  {
    if Blank(a + b) {
      forall i | 0 <= i < |a| ensures a[i] == "" {
        assert (a + b)[i] == a[i];
      }
      forall i | 0 <= i < |b| ensures b[i] == "" {
        assert (a + b)[|a| + i] == b[i];
      }
    }
  }

  /** Every piece is empty exactly when every digit up to the end of level
      `lev` is '0': a group with a non-zero digit always has a non-empty
      reading. */
  lemma {:induction false} PiecesBlank(s: string, lev: nat)
    requires IsDigits(s) && lev <= GroupCount(|s|)
    ensures Blank(Pieces(s, lev)) <==> AllZero(s[..GroupEnd(|s|, lev)])
    decreases GroupCount(|s|) - lev
  {
    if lev < GroupCount(|s|) {
      PiecesBlank(s, lev + 1);
      var g := Group(s, lev);
      var rest := Pieces(s, lev + 1);
      var extra := GroupReading(s, lev);
      assert Pieces(s, lev) == rest + extra;
      BlankAppend(rest, extra);
      GroupReadingBlank(s, lev);
      GroupPrefix(s, lev);
      AllZeroAppend(s[..GroupEnd(|s|, lev + 1)], g);
    } else {
      assert GroupEnd(|s|, lev) == 0;
    }
  }

  /** A group contributes only empty words exactly when it is all zeros. */
  lemma GroupReadingBlank(s: string, lev: nat)
    requires IsDigits(s) && lev < GroupCount(|s|)
    ensures Blank(GroupReading(s, lev)) <==> AllZero(Group(s, lev))
  {
    var g := Group(s, lev);
    if !AllZero(g) {
      TrioStringNonEmpty(g);
      assert GroupReading(s, lev)[0] != "";
    }
  }

  /** The reading is empty exactly when every digit is '0' (the empty
      input included). */
  lemma NumberStringEmpty(s: string)
    requires IsDigits(s)
    ensures NumberString(s) == "" <==> AllZero(s)
  {
    NumberStringPieces(s);
    JoinUpEmptyIff(Pieces(s, 0));
    PiecesBlank(s, 0);
    assert s[..|s|] == s;
  }

  /** A number of one to three digits, not all '0', reads as its one group. */
  lemma NumberStringShort(s: string)
    requires IsTrio(s) && !AllZero(s)
    ensures NumberString(s) == TrioString(s)
  {
    NumberStringPieces(s);
    assert GroupCount(|s|) == 1;
    assert Group(s, 0) == s;
    ScaleWordClosed(0);
    assert Pieces(s, 0) == [TrioString(s), ""];
    TrioStringNonEmpty(s);
    JoinUpBeforeNil(TrioString(s));
  }

  /** A whole group of leading zeros in front of a number of full groups
      leaves every lower group where it was. */
  lemma PaddedGroup(s: string, lev: nat)
    requires IsDigits(s) && IsDigits("000" + s) && |s| % 3 == 0 && lev < GroupCount(|s|)
    ensures GroupCount(|"000" + s|) == GroupCount(|s|) + 1
    ensures Group("000" + s, lev) == Group(s, lev)
  {
    var t := "000" + s;
    var n := |s|;
    var a := n - 3 * (lev + 1);
    assert GroupStart(n + 3, lev) == a + 3 && GroupStart(n, lev) == a;
    forall k | a <= k < a + 3 ensures t[k + 3] == s[k] {}
    assert t[a + 3..a + 6] == s[a..a + 3];
  }

  lemma {:induction false} PiecesPadded(s: string, lev: nat)
    requires IsDigits(s) && IsDigits("000" + s) && |s| % 3 == 0 && lev <= GroupCount(|s|)
    ensures Pieces("000" + s, lev) == Pieces(s, lev)
    decreases GroupCount(|s|) - lev
  {
    if lev == GroupCount(|s|) {
      PaddedTop(s);
    } else {
      PiecesPadded(s, lev + 1);
      PaddedStep(s, lev);
    }
  }

  /** The added group is all zeros and reads as nothing. */
  lemma PaddedTop(s: string)
    requires IsDigits(s) && IsDigits("000" + s) && |s| % 3 == 0
    ensures GroupCount(|"000" + s|) == GroupCount(|s|) + 1
    ensures Pieces("000" + s, GroupCount(|s|)) == []
  {
    var t := "000" + s;
    var top := GroupCount(|s|);
    assert Group(t, top) == t[0..3] == "000";
    assert AllZero("000");
    assert GroupReading(t, top) == [];
    assert Pieces(t, top + 1) == [];
  }

  lemma PaddedStep(s: string, lev: nat)
    requires IsDigits(s) && IsDigits("000" + s) && |s| % 3 == 0 && lev < GroupCount(|s|)
    requires Pieces("000" + s, lev + 1) == Pieces(s, lev + 1)
    ensures Pieces("000" + s, lev) == Pieces(s, lev)
  {
    var t := "000" + s;
    PaddedGroup(s, lev);
    assert GroupReading(t, lev) == GroupReading(s, lev);
    assert Pieces(t, lev) == Pieces(t, lev + 1) + GroupReading(t, lev);
  }

  /** Three more leading zeros in front of a number of whole groups change
      nothing; inside the top group a leading zero does change the reading,
      see NumberLeadingZero. */
  lemma NumberStringPadded(s: string)
    requires IsDigits(s) && |s| % 3 == 0
    ensures IsDigits("000" + s)
    ensures NumberString("000" + s) == NumberString(s)
  {
    assert IsDigits("000" + s) by {
      forall i | 0 <= i < |"000" + s| ensures IsDigit(("000" + s)[i]) {
        if i >= 3 {
          assert ("000" + s)[i] == s[i - 3];
        }
      }
    }
    PiecesPadded(s, 0);
    NumberStringPieces(s);
    NumberStringPieces("000" + s);
  }

  // ----- Readings of whole numbers -----

  lemma NumberZero()
    ensures NumberString("0") == ""
    ensures NumberString("000") == ""
    ensures NumberString("") == ""
  {
    assert AllZero("0") && AllZero("");
    assert AllZero("000") by {
      assert "000" == ['0', '0', '0'];
    }
    NumberStringEmpty("0");
    NumberStringEmpty("000");
    NumberStringEmpty("");
  }

  /** A number whose pieces are `ws` reads as `ws` joined up. */
  lemma NumberReadsAs(s: string, ws: seq<string>, r: string)
    requires IsDigits(s) && Pieces(s, 0) == ws && JoinUp(ws) == r
    ensures NumberString(s) == r
  {
    NumberStringPieces(s);
  }

  lemma JoinUpTwo(a: string, b: string)
    requires a != "" && b != ""
    ensures JoinUp([a, b]) == a + " " + b
  {
    NonEmptyAll([a, b]);
    Join2(a, b);
  }

  lemma JoinUpThreeBlank(a: string, b: string, c: string, r: string)
    requires a != "" && b != "" && c != "" && r == a + " " + b + " " + c
    ensures JoinUp([a, b, c, ""]) == r
  {
    assert [a, b, c] + [""] == [a, b, c, ""];
    JoinUpDropLast([a, b, c]);
    NonEmptyAll([a, b, c]);
    Join3(a, b, c);
  }

  lemma DigitsMillion()
    ensures IsDigits("1000000")
  {
  }

  lemma ReadingMillion()
    ensures GroupReading("1000000", 2) == ["một", "triệu"]
    ensures GroupReading("1000000", 1) == []
    ensures GroupReading("1000000", 0) == []
  {
    var s := "1000000";
    assert GroupCount(|s|) == 3;
    assert Group(s, 0) == "000" && AllZero("000");
    assert Group(s, 1) == "000";
    assert Group(s, 2) == "1" && "1"[0] != '0';
    ExampleOne();
    ScaleWordExamples();
  }

  lemma PiecesMillion()
    ensures Pieces("1000000", 0) == ["một", "triệu"]
  {
    var s := "1000000";
    assert GroupCount(|s|) == 3;
    assert Pieces(s, 2) == GroupReading(s, 2) by {
      assert Pieces(s, 3) == [];
    }
    assert Pieces(s, 1) == GroupReading(s, 2) + GroupReading(s, 1);
    assert Pieces(s, 0) == GroupReading(s, 2) + GroupReading(s, 1) + GroupReading(s, 0);
    ReadingMillion();
  }

  lemma JoinUpMillion()
    ensures JoinUp(["một", "triệu"]) == "một triệu"
  {
    JoinUpTwo("một", "triệu");
  }

  lemma NumberMillion()
    ensures NumberString("1000000") == "một triệu"
  {
    DigitsMillion();
    PiecesMillion();
    JoinUpMillion();
    NumberReadsAs("1000000", ["một", "triệu"], "một triệu");
  }

  lemma DigitsTwoThousandTwentyOne()
    ensures IsDigits("2021")
  {
  }

  lemma ReadingTwoThousand()
    ensures GroupReading("2021", 1) == ["hai", "nghìn"]
  {
    assert GroupCount(|"2021"|) == 2;
    assert Group("2021", 1) == "2" && "2"[0] != '0';
    ExampleTwo();
    ScaleWordExamples();
  }

  lemma ReadingTwentyOne()
    ensures GroupReading("2021", 0) == ["không trăm hai mươi mốt", ""]
  {
    assert GroupCount(|"2021"|) == 2;
    assert Group("2021", 0) == "021" && "021"[1] != '0';
    ExampleZeroTwentyOne();
    ScaleWordExamples();
  }

  lemma PiecesTwoThousandTwentyOne()
    ensures Pieces("2021", 0) == ["hai", "nghìn", "không trăm hai mươi mốt", ""]
  {
    var s := "2021";
    assert GroupCount(|s|) == 2;
    assert Pieces(s, 1) == GroupReading(s, 1) by {
      assert Pieces(s, 2) == [];
    }
    assert Pieces(s, 0) == GroupReading(s, 1) + GroupReading(s, 0);
    ReadingTwoThousand();
    ReadingTwentyOne();
  }

  lemma JoinUpTwoThousandTwentyOne()
    ensures JoinUp(["hai", "nghìn", "không trăm hai mươi mốt", ""]) == "hai nghìn không trăm hai mươi mốt"
  {
    JoinUpThreeBlank("hai", "nghìn", "không trăm hai mươi mốt", "hai nghìn không trăm hai mươi mốt");
  }

  lemma NumberTwoThousandTwentyOne()
    ensures NumberString("2021") == "hai nghìn không trăm hai mươi mốt"
  {
    DigitsTwoThousandTwentyOne();
    PiecesTwoThousandTwentyOne();
    JoinUpTwoThousandTwentyOne();
    NumberReadsAs("2021", ["hai", "nghìn", "không trăm hai mươi mốt", ""], "hai nghìn không trăm hai mươi mốt");
  }

  /** Leading zeros inside the top group change its reading. */
  lemma NumberLeadingZero()
    ensures NumberString("05") == "lẻ năm"
  {
    assert "05"[1] == '5';
    NumberStringShort("05");
    ExampleZeroFive();
  }
}
