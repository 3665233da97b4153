/**
 The string operations the converter is built from, modelled on sequences:
 `str.replace` (ReplaceAll), `' '.join` (Join) and the `join_up` helper that
 drops empty words before joining (JoinUp). `str.split(' ')` (Split) is not
 used by the converter; it is here only to state what JoinUp produces.
 */
module Text {

  /** `s.replace(pat, rep)` for a non-empty `pat`: scan left to right,
      replace every non-overlapping occurrence and resume after it.
      Generic, so that it serves both for characters and for word lists. */
  function ReplaceAll<T(==)>(s: seq<T>, pat: seq<T>, rep: seq<T>): (r: seq<T>)
    requires |pat| > 0
    ensures pat[0] !in s ==> r == s
    ensures pat[|pat| - 1] !in s ==> r == s
    ensures |s| > 0 && |rep| > 0 ==> |r| > 0
    decreases |s|
  {
    if |s| < |pat| then s
    else if s[..|pat|] == pat then
      assert s[0] == pat[0] && s[|pat| - 1] == pat[|pat| - 1];
      rep + ReplaceAll(s[|pat|..], pat, rep)
    else
      assert s == [s[0]] + s[1..];
      [s[0]] + ReplaceAll(s[1..], pat, rep)
  }

  /** Every element of the result comes from the input or the replacement. */
  lemma {:induction false} ReplaceAllFrom<T>(s: seq<T>, pat: seq<T>, rep: seq<T>)
    requires |pat| > 0
    ensures forall x :: x in ReplaceAll(s, pat, rep) ==> x in s || x in rep
    decreases |s|
  {
    if |s| >= |pat| {
      if s[..|pat|] == pat {
        ReplaceAllFrom(s[|pat|..], pat, rep);
      } else {
        ReplaceAllFrom(s[1..], pat, rep);
      }
    }
  }

  /** `pat` occurs in `s` starting at position `i`. */
  predicate MatchAt<T(==)>(s: seq<T>, i: nat, pat: seq<T>)
  {
    i + |pat| <= |s| && s[i..i + |pat|] == pat
  }

  /** No occurrence of `pat` in `s` starts before position `k`. */
  predicate NoMatchBefore<T(==)>(s: seq<T>, k: nat, pat: seq<T>)
  {
    forall i :: 0 <= i < k ==> !MatchAt(s, i, pat)
  }

  /** When no occurrence starts inside `a`, the scan copies `a` unchanged
      and continues on `b` as if it started there. */
  lemma {:induction false} ReplaceAllCut<T>(a: seq<T>, b: seq<T>, pat: seq<T>, rep: seq<T>)
    requires |pat| > 0 && NoMatchBefore(a + b, |a|, pat)
    ensures ReplaceAll(a + b, pat, rep) == a + ReplaceAll(b, pat, rep)
    decreases |a|
  {
    var s := a + b;
    if |a| == 0 {
      assert s == b;
    } else if |s| < |pat| {
      assert ReplaceAll(b, pat, rep) == b && ReplaceAll(s, pat, rep) == s;
    } else {
      assert !MatchAt(s, 0, pat);
      ReplaceAllMiss(s, pat, rep);
      assert s[1..] == a[1..] + b;
      NoMatchShift(a, b, pat);
      ReplaceAllCut(a[1..], b, pat, rep);
      var r := ReplaceAll(b, pat, rep);
      assert ReplaceAll(s, pat, rep) == [a[0]] + (a[1..] + r);
      ConsAppend(a, r);
    }
  }

  lemma ConsAppend<T>(a: seq<T>, r: seq<T>)
    requires |a| > 0
    ensures [a[0]] + (a[1..] + r) == a + r
  {
    assert [a[0]] + a[1..] == a;
  }

  /** No occurrence at the start: the first element is copied. */
  lemma ReplaceAllMiss<T>(s: seq<T>, pat: seq<T>, rep: seq<T>)
    requires |pat| > 0 && |s| >= |pat| && !MatchAt(s, 0, pat)
    ensures ReplaceAll(s, pat, rep) == [s[0]] + ReplaceAll(s[1..], pat, rep)
  {
    assert s[0..0 + |pat|] == s[..|pat|];
  }

  lemma NoMatchShift<T>(a: seq<T>, b: seq<T>, pat: seq<T>)
    requires |a| > 0 && NoMatchBefore(a + b, |a|, pat)
    ensures NoMatchBefore(a[1..] + b, |a| - 1, pat)
  {
    var s := a + b;
    assert s[1..] == a[1..] + b;
    forall i | 0 <= i < |a| - 1
      ensures !MatchAt(a[1..] + b, i, pat)
    {
      assert !MatchAt(s, i + 1, pat);
      if i + |pat| <= |a[1..] + b| {
        assert (a[1..] + b)[i..i + |pat|] == s[i + 1..i + 1 + |pat|];
      }
    }
  }

  /** A prefix that does not contain the pattern's first element is copied. */
  lemma ReplaceAllSkip<T>(a: seq<T>, b: seq<T>, pat: seq<T>, rep: seq<T>)
    requires |pat| > 0 && pat[0] !in a
    ensures ReplaceAll(a + b, pat, rep) == a + ReplaceAll(b, pat, rep)
  {
    forall i | 0 <= i < |a|
      ensures !MatchAt(a + b, i, pat)
    {
      if i + |pat| <= |a + b| {
        assert (a + b)[i..i + |pat|][0] == a[i];
      }
    }
    ReplaceAllCut(a, b, pat, rep);
  }

  /** The first occurrence, after a prefix free of the pattern's first
      element, is replaced and the scan resumes after it. */
  lemma ReplaceAllHit<T>(a: seq<T>, pat: seq<T>, b: seq<T>, rep: seq<T>)
    requires |pat| > 0 && pat[0] !in a
    ensures ReplaceAll(a + pat + b, pat, rep) == a + rep + ReplaceAll(b, pat, rep)
  {
    assert a + pat + b == a + (pat + b);
    ReplaceAllSkip(a, pat + b, pat, rep);
    assert (pat + b)[..|pat|] == pat;
    assert (pat + b)[|pat|..] == b;
  }

  /** A sequence lacking any one element of the pattern is left unchanged. */
  lemma {:induction false} ReplaceAllAbsent<T>(s: seq<T>, pat: seq<T>, rep: seq<T>, k: nat)
    requires k < |pat| && pat[k] !in s
    ensures ReplaceAll(s, pat, rep) == s
    decreases |s|
  {
    if |s| >= |pat| {
      assert s[..|pat|] != pat by { assert s[k] in s; }
      assert s == [s[0]] + s[1..];
      assert pat[k] !in s[1..];
      ReplaceAllAbsent(s[1..], pat, rep, k);
    }
  }

  /** `' '.join(ws)`: the words with one space between neighbours. */
  function Join(ws: seq<string>): (r: string)
    ensures |ws| > 0 ==> |r| >= |ws[0]|
    ensures |ws| == 0 ==> r == ""
  {
    if |ws| == 0 then ""
    else if |ws| == 1 then ws[0]
    else ws[0] + " " + Join(ws[1..])
  }

  /** The words that `filter(lambda w: w, words)` keeps. */
  function NonEmpty(ws: seq<string>): (r: seq<string>)
    ensures forall i :: 0 <= i < |r| ==> r[i] != ""
    ensures forall x :: x in r ==> x in ws
    ensures |r| <= |ws|
  {
    if |ws| == 0 then []
    else if ws[0] == "" then NonEmpty(ws[1..])
    else [ws[0]] + NonEmpty(ws[1..])
  }

  /** NonEmpty keeps a list of non-empty words as it is. */
  lemma {:induction false} NonEmptyAll(ws: seq<string>)
    requires forall i :: 0 <= i < |ws| ==> ws[i] != ""
    ensures NonEmpty(ws) == ws
    decreases |ws|
  {
    if |ws| > 0 {
      NonEmptyAll(ws[1..]);
      assert ws == [ws[0]] + ws[1..];
    }
  }

  /** `join_up(*words)`: join the non-empty words with single spaces. */
  function JoinUp(ws: seq<string>): (r: string)
  {
    Join(NonEmpty(ws))
  }

  /** `s.split(' ')`: the maximal runs between spaces, always at least one. */
  function Split(s: string): (r: seq<string>)
    ensures |r| > 0
  {
    if |s| == 0 then [""]
    else if s[0] == ' ' then [""] + Split(s[1..])
    else
      var rest := Split(s[1..]);
      [[s[0]] + rest[0]] + rest[1..]
  }

  lemma {:induction false} JoinAppend(a: seq<string>, b: seq<string>)
    requires |a| > 0 && |b| > 0
    ensures Join(a + b) == Join(a) + " " + Join(b)
    decreases |a|
  {
    if |a| == 1 {
      assert (a + b)[1..] == b;
    } else {
      assert (a + b)[1..] == a[1..] + b;
      JoinAppend(a[1..], b);
    }
  }

  lemma {:induction false} NonEmptyAppend(a: seq<string>, b: seq<string>)
    ensures NonEmpty(a + b) == NonEmpty(a) + NonEmpty(b)
    decreases |a|
  {
    if |a| == 0 {
      assert a + b == b;
    } else {
      assert (a + b)[1..] == a[1..] + b;
      NonEmptyAppend(a[1..], b);
    }
  }

  lemma {:induction false} NonEmptyNone(ws: seq<string>)
    ensures NonEmpty(ws) == [] <==> forall i :: 0 <= i < |ws| ==> ws[i] == ""
    decreases |ws|
  {
    if |ws| > 0 {
      NonEmptyNone(ws[1..]);
      assert forall i :: 1 <= i < |ws| ==> ws[i] == ws[1..][i - 1];
    }
  }

  /** `join_up` yields the empty string exactly when every argument is empty. */
  lemma JoinUpEmptyIff(ws: seq<string>)
    ensures JoinUp(ws) == "" <==> forall i :: 0 <= i < |ws| ==> ws[i] == ""
  {
    NonEmptyNone(ws);
  }

  /** Splicing a joined phrase into a word list is the same as splicing its words. */
  lemma JoinSplice(a: seq<string>, b: seq<string>, c: seq<string>)
    requires |b| > 0
    ensures Join(a + [Join(b)] + c) == Join(a + b + c)
  {
    var j := Join(b);
    JoinSpliceFront(b, c);
    Assoc3(a, [j], c);
    Assoc3(a, b, c);
    if |a| == 0 {
      assert a + ([j] + c) == [j] + c;
      assert a + (b + c) == b + c;
    } else {
      JoinAppend(a, [j] + c);
      JoinAppend(a, b + c);
    }
  }

  /** The splice at the front of the list. */
  lemma JoinSpliceFront(b: seq<string>, c: seq<string>)
    requires |b| > 0
    ensures Join([Join(b)] + c) == Join(b + c)
  {
    if |c| > 0 {
      JoinAppend([Join(b)], c);
      JoinAppend(b, c);
    } else {
      assert [Join(b)] + c == [Join(b)];
      assert b + c == b;
    }
  }

  lemma Assoc3<T>(a: seq<T>, b: seq<T>, c: seq<T>)
    ensures a + b + c == a + (b + c)
  {
  }

  /** JoinUp of a single word is that word (empty or not). */
  lemma JoinUpOne(w: string)
    ensures JoinUp([w]) == w
  {
    if w == "" {
      NonEmptyNone([w]);
    } else {
      NonEmptyAll([w]);
    }
  }

  /** A trailing empty word changes nothing. */
  lemma JoinUpDropLast(ws: seq<string>)
    ensures JoinUp(ws + [""]) == JoinUp(ws)
  {
    NonEmptyAppend(ws, [""]);
    NonEmptyNone([""]);
    assert NonEmpty(ws) + [] == NonEmpty(ws);
  }

  /** The strings of `xs` written one after another. */
  function Concat(xs: seq<string>): (r: string)
  {
    if |xs| == 0 then "" else Concat(xs[..|xs| - 1]) + xs[|xs| - 1]
  }

  /** JoinUp of a word and a joined list of words is the word joined in
      front of the list. */
  lemma JoinUpBefore(w: string, ws: seq<string>)
    requires w != "" && (|ws| == 0 || ws[0] != "")
    ensures JoinUp([w, Join(ws)]) == Join([w] + ws)
  {
    if |ws| == 0 {
      JoinUpBeforeNil(w);
      assert [w] + ws == [w];
    } else {
      JoinUpBeforeCons(w, ws);
    }
  }

  lemma JoinUpBeforeNil(w: string)
    requires w != ""
    ensures JoinUp([w, ""]) == w
  {
    NonEmptyAppend([w], [""]);
    NonEmptyAll([w]);
    NonEmptyNone([""]);
    assert [w] + [""] == [w, ""];
  }

  lemma JoinUpBeforeCons(w: string, ws: seq<string>)
    requires w != "" && |ws| > 0 && ws[0] != ""
    ensures JoinUp([w, Join(ws)]) == Join([w] + ws)
  {
    var x := Join(ws);
    assert x != "";
    NonEmptyAll([w, x]);
    assert [w, x][1..] == [x];
    assert Join([w, x]) == w + " " + x;
    assert ([w] + ws)[0] == w && ([w] + ws)[1..] == ws;
  }

  /** A `join_up` result passed to another `join_up` flattens into it. */
  lemma JoinUpFlatten(xs: seq<string>, ys: seq<string>, zs: seq<string>)
    ensures JoinUp(xs + [JoinUp(ys)] + zs) == JoinUp(xs + ys + zs)
  {
    var j := JoinUp(ys);
    NonEmptyAppend(xs + [j], zs);
    NonEmptyAppend(xs, [j]);
    NonEmptyAppend(xs + ys, zs);
    NonEmptyAppend(xs, ys);
    var a, b, c := NonEmpty(xs), NonEmpty(ys), NonEmpty(zs);
    if b == [] {
      assert NonEmpty([j]) == [];
      assert a + [] + c == a + c;
    } else {
      assert NonEmpty([j]) == [j] by { assert [j][1..] == []; }
      JoinSplice(a, b, c);
    }
  }

  /** Splitting a space-free word glued to `s` extends the first field of `s`. */
  lemma {:induction false} SplitWord(w: string, s: string)
    requires ' ' !in w
    ensures Split(w + s) == [w + Split(s)[0]] + Split(s)[1..]
    decreases |w|
  {
    if |w| > 0 {
      assert (w + s)[0] == w[0];
      assert (w + s)[1..] == w[1..] + s;
      SplitWord(w[1..], s);
      assert [w[0]] + (w[1..] + Split(s)[0]) == w + Split(s)[0];
    } else {
      assert w + s == s;
      assert Split(s) == [Split(s)[0]] + Split(s)[1..];
      assert w + Split(s)[0] == Split(s)[0];
    }
  }

  /** Split undoes Join on space-free words. */
  lemma {:induction false} SplitJoin(ws: seq<string>)
    requires |ws| > 0 && forall i :: 0 <= i < |ws| ==> ' ' !in ws[i]
    ensures Split(Join(ws)) == ws
    decreases |ws|
  {
    if |ws| == 1 {
      SplitWord(ws[0], "");
      assert ws[0] + "" == ws[0];
      assert Split("") == [""];
      assert ws == [ws[0]];
    } else {
      var tail := Join(ws[1..]);
      SplitJoin(ws[1..]);
      assert ws[0] + " " + tail == ws[0] + (" " + tail);
      SplitWord(ws[0], " " + tail);
      assert (" " + tail)[1..] == tail;
      var sp := Split(" " + tail);
      assert sp == [""] + ws[1..];
      assert sp[0] == "" && sp[1..] == ws[1..];
      assert ws[0] + sp[0] == ws[0];
      assert Join(ws) == ws[0] + (" " + tail);
      assert ws == [ws[0]] + ws[1..];
    }
  }

  /** `join_up` keeps exactly the non-empty words, in order, separated by one
      space each: splitting its result on spaces gives them back, and every
      field is non-empty. */
  lemma JoinUpSplit(ws: seq<string>)
    requires forall i :: 0 <= i < |ws| ==> ' ' !in ws[i]
    requires exists i :: 0 <= i < |ws| && ws[i] != ""
    ensures Split(JoinUp(ws)) == NonEmpty(ws)
    ensures forall k :: 0 <= k < |Split(JoinUp(ws))| ==> Split(JoinUp(ws))[k] != ""
  {
    NonEmptyNone(ws);
    var ne := NonEmpty(ws);
    forall i | 0 <= i < |ne| ensures ' ' !in ne[i] {
      assert ne[i] in ws;
    }
    SplitJoin(ne);
  }
}
