/**
 Phrases as word lists. A phrase is a list of words joined by single spaces.
 When every word comes from an affix-free vocabulary (no word is a proper
 prefix or a proper suffix of another) and the pattern has at least two
 words, a textual occurrence of the joined pattern can only start at a word
 boundary and cover whole words. Rewriting the joined text is then the same
 as rewriting the word list and joining the result (ReplaceJoin).
 */
module Phrase {
  import opened Text

  predicate IsWord(w: string)
  {
    |w| > 0 && ' ' !in w
  }

  predicate ProperPrefix(u: string, w: string)
  {
    |u| < |w| && w[..|u|] == u
  }

  predicate ProperSuffix(u: string, w: string)
  {
    |u| < |w| && w[|w| - |u|..] == u
  }

  /** Every word is space-free and non-empty, and none is a proper prefix or
      a proper suffix of another. */
  predicate AffixFree(vocab: set<string>)
  {
    && (forall w :: w in vocab ==> IsWord(w))
    && (forall u, w :: u in vocab && w in vocab ==> !ProperPrefix(u, w) && !ProperSuffix(u, w))
  }

  /** Every word of `ws` belongs to `vocab`. */
  predicate Over(ws: seq<string>, vocab: set<string>)
  {
    forall i :: 0 <= i < |ws| ==> ws[i] in vocab
  }

  /** A pattern word `p` (followed by `y`) lined up with the start of a
      phrase word `w` (followed by `x`): the pattern word is a prefix of the
      phrase word, and if more of the pattern follows, the two are equal. */
  lemma WordAlign(w: string, x: string, p: string, y: string)
    requires ' ' !in w && ' ' !in p && |p| > 0
    requires x == "" || x[0] == ' '
    requires y == "" || y[0] == ' '
    requires |p + y| <= |w + x| && (w + x)[..|p + y|] == p + y
    ensures |p| <= |w| && w[..|p|] == p
    ensures y != "" ==> w == p && x != ""
  {
    var s, q := w + x, p + y;
    assert forall k :: 0 <= k < |q| ==> s[k] == q[k] by {
      forall k | 0 <= k < |q| ensures s[k] == q[k] {
        assert s[..|q|][k] == s[k];
      }
    }
    assert forall k :: 0 <= k < |w| ==> s[k] == w[k] && s[k] != ' ';
    assert forall k :: 0 <= k < |p| ==> q[k] == p[k] && q[k] != ' ';
    assert |x| > 0 ==> s[|w|] == ' ';
    assert |p| <= |w|;
    assert w[..|p|] == p;
    if y != "" {
      assert q[|p|] == ' ';
      assert |w| <= |p|;
    }
  }

  /** Dropping a common prefix from a prefix relation. */
  lemma PrefixDrop(a: string, s: string, t: string)
    requires |a + t| <= |a + s| && (a + s)[..|a + t|] == a + t
    ensures |t| <= |s| && s[..|t|] == t
  {
    forall k | 0 <= k < |t| ensures s[k] == t[k] {
      assert (a + s)[..|a + t|][|a| + k] == (a + t)[|a| + k];
    }
  }

  /** If the joined pattern is a prefix of the joined phrase, the phrase
      starts with all pattern words but the last, and the last pattern word
      is a prefix of the corresponding phrase word. */
  lemma {:induction false} JoinPrefix(ws: seq<string>, ps: seq<string>)
    requires |ws| > 0 && |ps| > 0
    requires forall i :: 0 <= i < |ws| ==> ' ' !in ws[i]
    requires forall i :: 0 <= i < |ps| ==> IsWord(ps[i])
    requires |Join(ps)| <= |Join(ws)| && Join(ws)[..|Join(ps)|] == Join(ps)
    ensures |ps| <= |ws| && ws[..|ps| - 1] == ps[..|ps| - 1]
    ensures |ps[|ps| - 1]| <= |ws[|ps| - 1]| && ws[|ps| - 1][..|ps[|ps| - 1]|] == ps[|ps| - 1]
    decreases |ps|
  {
    var w, p := ws[0], ps[0];
    var x := if |ws| == 1 then "" else " " + Join(ws[1..]);
    var y := if |ps| == 1 then "" else " " + Join(ps[1..]);
    assert Join(ws) == w + x;
    assert Join(ps) == p + y;
    WordAlign(w, x, p, y);
    if |ps| > 1 {
      var jw, jp := Join(ws[1..]), Join(ps[1..]);
      assert w + x == (p + " ") + jw;
      assert p + y == (p + " ") + jp;
      PrefixDrop(p + " ", jw, jp);
      JoinPrefix(ws[1..], ps[1..]);
      assert ws[..|ps| - 1] == [w] + ws[1..][..|ps| - 2];
      assert ps[..|ps| - 1] == [p] + ps[1..][..|ps| - 2];
    }
  }

  /** A textual match at the start of a phrase is a match of whole words. */
  lemma TokenMatchAtStart(ws: seq<string>, ps: seq<string>, vocab: set<string>)
    requires AffixFree(vocab) && Over(ws, vocab) && Over(ps, vocab)
    requires |ws| > 0 && |ps| > 0
    ensures MatchAt(Join(ws), 0, Join(ps)) ==> |ws| >= |ps| && ws[..|ps|] == ps
  {
    if MatchAt(Join(ws), 0, Join(ps)) {
      assert Join(ws)[..|Join(ps)|] == Join(ws)[0..0 + |Join(ps)|];
      JoinPrefix(ws, ps);
      var n := |ps| - 1;
      assert !ProperPrefix(ps[n], ws[n]);
      assert ws[n] == ps[n];
      assert ws[..|ps|] == ws[..n] + [ws[n]];
      assert ps == ps[..n] + [ps[n]];
    }
  }

  /** A textual match starting strictly inside a phrase word `w` of a pattern
      whose first word `p` is followed by more words (`y`): `p` is then the
      rest of `w` from that position. */
  lemma MidWordMatch(w: string, x: string, p: string, y: string, i: nat)
    requires ' ' !in w && ' ' !in p && |p| > 0
    requires x == "" || x[0] == ' '
    requires |y| > 0 && y[0] == ' '
    requires 0 < i < |w|
    ensures MatchAt(w + x, i, p + y) ==> ProperSuffix(p, w)
  {
    var s, q := w + x, p + y;
    if MatchAt(s, i, q) {
      assert forall k :: 0 <= k < |q| ==> s[i + k] == q[k] by {
        forall k | 0 <= k < |q| ensures s[i + k] == q[k] {
          assert s[i..i + |q|][k] == s[i + k];
        }
      }
      assert forall k :: 0 <= k < |w| ==> s[k] == w[k] && s[k] != ' ';
      assert forall k :: 0 <= k < |p| ==> q[k] == p[k] && q[k] != ' ';
      assert s[i + |p|] == ' ';
      assert |w| <= i + |p|;
      assert |x| > 0 ==> s[|w|] == ' ';
      assert |w| >= i + |p|;
      assert w[|w| - |p|..] == p by {
        forall k | 0 <= k < |p| ensures w[|w| - |p|..][k] == p[k] {
          assert w[|w| - |p|..][k] == w[i + k] == s[i + k];
        }
      }
    }
  }

  /** A multi-word pattern that does not match at the first word of a phrase
      matches nowhere inside that word or the space after it. */
  lemma NoMatchInFirstWord(ws: seq<string>, ps: seq<string>, vocab: set<string>)
    requires AffixFree(vocab) && Over(ws, vocab) && Over(ps, vocab)
    requires |ws| >= 2 && |ps| >= 2
    requires !(|ws| >= |ps| && ws[..|ps|] == ps)
    ensures NoMatchBefore(Join(ws), |ws[0]| + 1, Join(ps))
  {
    var w, p := ws[0], ps[0];
    var x, y := " " + Join(ws[1..]), " " + Join(ps[1..]);
    assert Join(ws) == w + x;
    assert Join(ps) == p + y;
    assert IsWord(w) && IsWord(p);
    TokenMatchAtStart(ws, ps, vocab);
    forall i | 0 <= i < |w| + 1
      ensures !MatchAt(Join(ws), i, Join(ps))
    {
      if 0 < i < |w| {
        MidWordMatch(w, x, p, y, i);
        assert !ProperSuffix(p, w);
      } else if i == |w| {
        assert (w + x)[|w|] == ' ';
        assert (p + y)[0] == p[0] && p[0] in p;
      }
    }
  }

  /** Rewriting a joined phrase with a joined multi-word pattern equals
      rewriting the word list and joining the result. */
  lemma {:induction false} ReplaceJoin(ws: seq<string>, ps: seq<string>, rs: seq<string>, vocab: set<string>)
    requires AffixFree(vocab) && Over(ws, vocab) && Over(ps, vocab)
    requires |ps| >= 2 && |rs| > 0
    ensures ReplaceAll(Join(ws), Join(ps), Join(rs)) == Join(ReplaceAll(ws, ps, rs))
    decreases |ws|
  {
    assert IsWord(ps[0]);
    if |ws| == 0 {
    } else if |ws| >= |ps| && ws[..|ps|] == ps {
      var rest := ws[|ps|..];
      assert ws == ps + rest;
      assert Join(ps)[0] == ps[0][0] && ps[0][0] in ps[0];
      if |rest| == 0 {
        assert ws == ps;
        ReplaceJoinHitLast(ps, rs);
      } else {
        ReplaceJoin(rest, ps, rs, vocab);
        ReplaceJoinHitMore(ps, rest, rs);
      }
    } else if |ws| == 1 {
      assert IsWord(ws[0]);
      assert Join(ps)[|ps[0]|] == ' ';
      ReplaceAllAbsent(Join(ws), Join(ps), Join(rs), |ps[0]|);
    } else {
      NoMatchInFirstWord(ws, ps, vocab);
      ReplaceJoin(ws[1..], ps, rs, vocab);
      ReplaceJoinStep(ws, ps, rs);
    }
  }

  /** ReplaceJoin when the phrase is exactly the pattern. */
  lemma ReplaceJoinHitLast(ps: seq<string>, rs: seq<string>)
    requires |ps| > 0 && |Join(ps)| > 0
    ensures ReplaceAll(Join(ps), Join(ps), Join(rs)) == Join(ReplaceAll(ps, ps, rs))
  {
    assert ReplaceAll(ps, ps, rs) == rs by {
      assert ps[..|ps|] == ps && ps[|ps|..] == [];
      assert ReplaceAll([], ps, rs) == [];
      assert rs + [] == rs;
    }
    ReplaceWholePattern(Join(ps), Join(rs));
  }

  /** ReplaceJoin when the phrase starts with the pattern and continues. */
  lemma ReplaceJoinHitMore(ps: seq<string>, rest: seq<string>, rs: seq<string>)
    requires |ps| >= 2 && |Join(ps)| > 0 && Join(ps)[0] != ' ' && |rs| > 0 && |rest| > 0
    requires ReplaceAll(Join(rest), Join(ps), Join(rs)) == Join(ReplaceAll(rest, ps, rs))
    ensures ReplaceAll(Join(ps + rest), Join(ps), Join(rs)) == Join(ReplaceAll(ps + rest, ps, rs))
  {
    var pat, rep := Join(ps), Join(rs);
    var j, r := Join(rest), ReplaceAll(rest, ps, rs);
    assert ReplaceAll(ps + rest, ps, rs) == rs + r by {
      assert (ps + rest)[..|ps|] == ps;
      assert (ps + rest)[|ps|..] == rest;
    }
    assert Join(ps + rest) == pat + " " + j by {
      JoinAppend(ps, rest);
    }
    assert ReplaceAll(pat + " " + j, pat, rep) == rep + " " + Join(r) by {
      ReplaceWordsThenSpace(pat, j, rep);
    }
    assert Join(rs + r) == rep + " " + Join(r) by {
      JoinAppend(rs, r);
    }
  }

  /** The pattern alone is replaced by the replacement. */
  lemma ReplaceWholePattern(pat: string, rep: string)
    requires |pat| > 0
    ensures ReplaceAll(pat, pat, rep) == rep
  {
    ReplaceAllHit([], pat, [], rep);
    assert [] + pat + [] == pat;
  }

  /** An occurrence followed by a space: the space is kept after the replacement. */
  lemma ReplaceWordsThenSpace(pat: string, t: string, rep: string)
    requires |pat| > 0 && pat[0] != ' '
    ensures ReplaceAll(pat + " " + t, pat, rep) == rep + " " + ReplaceAll(t, pat, rep)
  {
    assert pat + " " + t == [] + pat + (" " + t);
    ReplaceAllHit([], pat, " " + t, rep);
    ReplaceAllSkip(" ", t, pat, rep);
  }

  /** ReplaceJoin when the pattern does not start at the first word. */
  lemma ReplaceJoinStep(ws: seq<string>, ps: seq<string>, rs: seq<string>)
    requires |ps| >= 2 && IsWord(ps[0]) && |rs| > 0 && |ws| >= 2
    requires !(|ws| >= |ps| && ws[..|ps|] == ps)
    requires NoMatchBefore(Join(ws), |ws[0]| + 1, Join(ps))
    requires ReplaceAll(Join(ws[1..]), Join(ps), Join(rs)) == Join(ReplaceAll(ws[1..], ps, rs))
    ensures ReplaceAll(Join(ws), Join(ps), Join(rs)) == Join(ReplaceAll(ws, ps, rs))
  {
    var w := ws[0];
    var tail := Join(ws[1..]);
    assert Join(ws) == (w + " ") + tail;
    ReplaceAllCut(w + " ", tail, Join(ps), Join(rs));
    JoinAppend([w], ReplaceAll(ws[1..], ps, rs));
    assert ws == [w] + ws[1..];
  }

  /** Rewriting a word list over a vocabulary with replacement words from the
      same vocabulary stays within it. */
  lemma ReplaceOver(ws: seq<string>, ps: seq<string>, rs: seq<string>, vocab: set<string>)
    requires Over(ws, vocab) && Over(rs, vocab) && |ps| > 0
    ensures Over(ReplaceAll(ws, ps, rs), vocab)
  {
    var r := ReplaceAll(ws, ps, rs);
    ReplaceAllFrom(ws, ps, rs);
    forall i | 0 <= i < |r| ensures r[i] in vocab {
      assert r[i] in r;
    }
  }
}
