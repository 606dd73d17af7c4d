/**
 The tokenizer `split` of `present/style.go`: it cuts a string into maximal
 runs of whitespace and of non-whitespace, losing no character. `Runs` is the
 recursive definition of that decomposition; the method `Split` is the loop of
 the Go code, proved to compute it.
 */
module Tokenizer {
  import opened Text

  /** A token: non-empty, and either all whitespace or all non-whitespace. */
  predicate IsRun(w: string) {
    w != [] && forall k :: 0 <= k < |w| ==> IsSpace(w[k]) == IsSpace(w[0])
  }

  /** `ws` is a decomposition of `s` into maximal runs: the tokens rejoin to
      `s`, each is a run, and neighbouring tokens differ in category. */
  ghost predicate IsRunDecomposition(ws: seq<string>, s: string) {
    && Join(ws) == s
    && (forall k :: 0 <= k < |ws| ==> IsRun(ws[k]))
    && (forall j :: 0 <= j < |ws| - 1 ==> Category(ws[j]) != Category(ws[j + 1]))
  }

  /** The category of a token: whether it is whitespace (judged by its first
      character, which for a run stands for all of them). */
  predicate Category(w: string) {
    w != [] && IsSpace(w[0])
  }

  /** The length of the maximal run at the front of `t`. */
  function RunLength(t: string): (n: nat)
    requires t != []
    ensures 0 < n <= |t|
    ensures forall k :: 0 <= k < n ==> IsSpace(t[k]) == IsSpace(t[0])
    ensures n < |t| ==> IsSpace(t[n]) != IsSpace(t[0])
    decreases |t|
  {
    if |t| == 1 || IsSpace(t[1]) != IsSpace(t[0]) then 1
    else 1 + RunLength(t[1..])
  }

  /** The maximal runs of `s`, in order. */
  function Runs(s: string): seq<string>
    decreases |s|
  {
    if s == [] then []
    else
      var n := RunLength(s);
      [s[..n]] + Runs(s[n..])
  }

  /** A run of `n` characters followed by a character of the other category
      is the first token. */
  lemma RunsCut(t: string, n: nat)
    requires 0 < n < |t|
    requires forall k :: 0 <= k < n ==> IsSpace(t[k]) == IsSpace(t[0])
    requires IsSpace(t[n]) != IsSpace(t[0])
    ensures Runs(t) == [t[..n]] + Runs(t[n..])
  {
    var m := RunLength(t);
  }

  /** A string that is one run is its only token. */
  lemma RunsWhole(t: string)
    requires IsRun(t)
    ensures Runs(t) == [t]
  {
    var m := RunLength(t);
    assert t[..|t|] == t;
    assert t[|t|..] == [];
  }

  /** `Runs` is a decomposition into maximal runs: no character is lost, every
      token is a non-empty run, and categories alternate. */
  lemma {:induction false} RunsDecompose(s: string)
    ensures IsRunDecomposition(Runs(s), s)
    decreases |s|
  {
    if s != [] {
      var n := RunLength(s);
      var rest := Runs(s[n..]);
      RunsDecompose(s[n..]);
      if rest != [] {
        var n2 := RunLength(s[n..]);
        assert rest[0] == s[n..][..n2];
        assert rest[0][0] == s[n];
      }
      PrependRun(s[..n], rest, s[n..]);
      assert s[..n] + s[n..] == s;
    }
  }

  /** A run put in front of a decomposition whose first token is of the other
      category gives a decomposition of the longer string. */
  lemma PrependRun(w: string, ws: seq<string>, t: string)
    requires IsRun(w) && IsRunDecomposition(ws, t)
    requires ws != [] ==> Category(w) != Category(ws[0])
    ensures IsRunDecomposition([w] + ws, w + t)
  {
    var vs := [w] + ws;
    assert vs[1..] == ws;
    forall j | 0 <= j < |vs| - 1
      ensures Category(vs[j]) != Category(vs[j + 1])
    {
      if j > 0 {
        assert vs[j] == ws[j - 1] && vs[j + 1] == ws[j];
      }
    }
  }

  /** The decomposition into maximal runs is unique. */
  lemma {:induction false} RunDecompositionUnique(ws: seq<string>, s: string)
    requires IsRunDecomposition(ws, s)
    ensures ws == Runs(s)
    decreases |ws|
  {
    if ws != [] {
      var n := |ws[0]|;
      assert s == ws[0] + Join(ws[1..]);
      assert s[..n] == ws[0];
      assert s[n..] == Join(ws[1..]);
      assert IsRunDecomposition(ws[1..], s[n..]) by {
        forall j | 0 <= j < |ws[1..]| - 1
          ensures Category(ws[1..][j]) != Category(ws[1..][j + 1])
        {
          assert ws[1..][j] == ws[j + 1] && ws[1..][j + 1] == ws[j + 2];
        }
      }
      RunDecompositionUnique(ws[1..], s[n..]);
      if |ws| == 1 {
        assert Join(ws[1..]) == [];
        assert s == ws[0];
        RunsWhole(s);
      } else {
        assert IsRun(ws[0]) && IsRun(ws[1]) && Category(ws[0]) != Category(ws[1]);
        assert Join(ws[1..]) == ws[1] + Join(ws[2..]);
        assert s[n] == ws[1][0];
        RunsCut(s, n);
      }
    }
  }

  /** Runs of two strings that meet at a change of category (or of which one
      is empty) are the runs of each, in order. */
  lemma RunsAppend(x: string, y: string)
    requires x == [] || y == [] || IsSpace(x[|x| - 1]) != IsSpace(y[0])
    ensures Runs(x + y) == Runs(x) + Runs(y)
  {
    if x == [] {
      assert x + y == y;
    } else if y == [] {
      assert x + y == x;
    } else {
      var xs, ys := Runs(x), Runs(y);
      RunsDecompose(x);
      RunsDecompose(y);
      LastRunEnds(xs, x);
      assert Join(ys) == ys[0] + Join(ys[1..]);
      assert ys[0][0] == y[0];
      DecompositionAppend(xs, x, ys, y);
      var ws := xs + ys;
      RunDecompositionUnique(ws, x + y);
    }
  }

  /** Decompositions of two strings that meet at a change of category give
      a decomposition of their concatenation. */
  lemma DecompositionAppend(xs: seq<string>, x: string, ys: seq<string>, y: string)
    requires IsRunDecomposition(xs, x) && IsRunDecomposition(ys, y)
    requires xs != [] && ys != [] && Category(xs[|xs| - 1]) != Category(ys[0])
    ensures IsRunDecomposition(xs + ys, x + y)
  {
    var ws := xs + ys;
    JoinAppend(xs, ys);
    AlternatesAppend(xs, ys);
    forall k | 0 <= k < |ws| ensures IsRun(ws[k]) {
      if k >= |xs| {
        assert ws[k] == ys[k - |xs|];
      }
    }
  }

  /** Two token lists in which neighbours differ in category, joined where
      they also differ, give one in which neighbours differ in category. */
  lemma AlternatesAppend(xs: seq<string>, ys: seq<string>)
    requires forall j :: 0 <= j < |xs| - 1 ==> Category(xs[j]) != Category(xs[j + 1])
    requires forall j :: 0 <= j < |ys| - 1 ==> Category(ys[j]) != Category(ys[j + 1])
    requires xs != [] && ys != [] && Category(xs[|xs| - 1]) != Category(ys[0])
    ensures forall j :: 0 <= j < |xs + ys| - 1 ==> Category((xs + ys)[j]) != Category((xs + ys)[j + 1])
  {
    var ws := xs + ys;
    forall j | 0 <= j < |ws| - 1
      ensures Category(ws[j]) != Category(ws[j + 1])
    {
      if j + 1 < |xs| {
        assert ws[j] == xs[j] && ws[j + 1] == xs[j + 1];
      } else if j + 1 > |xs| {
        assert ws[j] == ys[j - |xs|] && ws[j + 1] == ys[j - |xs| + 1];
      }
    }
  }

  /** The last character of a non-empty run decomposition's string is in the
      category of its last token. */
  lemma {:induction false} LastRunEnds(ws: seq<string>, s: string)
    requires ws != [] && Join(ws) == s
    requires forall k :: 0 <= k < |ws| ==> IsRun(ws[k])
    ensures s != [] && ws[|ws| - 1] != [] && IsSpace(s[|s| - 1]) == IsSpace(ws[|ws| - 1][0])
    decreases |ws|
  {
    var w := ws[0];
    assert s == w + Join(ws[1..]);
    if |ws| == 1 {
      assert Join(ws[1..]) == [];
      assert s[|s| - 1] == w[|w| - 1];
    } else {
      assert forall k :: 0 <= k < |ws[1..]| ==> IsRun(ws[1..][k]) by {
        forall k | 0 <= k < |ws[1..]| ensures IsRun(ws[1..][k]) {
          assert ws[1..][k] == ws[k + 1];
        }
      }
      LastRunEnds(ws[1..], Join(ws[1..]));
      var t := Join(ws[1..]);
      assert s[|s| - 1] == t[|t| - 1];
    }
  }

  /** One cut of the loop of `split`: the run from `mark` up to `i` is the
      first token of what remains from `mark`. */
  lemma SplitStep(s: string, mark: nat, i: nat)
    requires mark < i < |s|
    requires forall k :: mark <= k < i ==> IsSpace(s[k]) == IsSpace(s[mark])
    requires IsSpace(s[i]) != IsSpace(s[mark])
    ensures Runs(s[mark..]) == [s[mark..i]] + Runs(s[i..])
  {
    var t := s[mark..];
    SliceUniform(s, mark, i);
    RunsCut(t, i - mark);
    SliceParts(s, mark, i);
  }

  /** The run from `mark` to `i` of `s`, seen from `mark`. */
  lemma SliceUniform(s: string, mark: nat, i: nat)
    requires mark < i < |s|
    requires forall k :: mark <= k < i ==> IsSpace(s[k]) == IsSpace(s[mark])
    requires IsSpace(s[i]) != IsSpace(s[mark])
    ensures forall k :: 0 <= k < i - mark ==> IsSpace(s[mark..][k]) == IsSpace(s[mark..][0])
    ensures IsSpace(s[mark..][i - mark]) != IsSpace(s[mark..][0])
  {
    var t := s[mark..];
    assert t[i - mark] == s[i] && t[0] == s[mark];
    forall k | 0 <= k < i - mark ensures IsSpace(t[k]) == IsSpace(t[0]) {
      assert t[k] == s[mark + k];
    }
  }

  lemma SliceParts(s: string, mark: nat, i: nat)
    requires mark <= i <= |s|
    ensures s[mark..][..i - mark] == s[mark..i] && s[mark..][i - mark..] == s[i..]
  {
  }

  /** The run left over when the loop of `split` ends is the last token. */
  lemma SplitLast(s: string, mark: nat)
    requires mark < |s|
    requires forall k :: mark <= k < |s| ==> IsSpace(s[k]) == IsSpace(s[mark])
    ensures Runs(s[mark..]) == [s[mark..]]
  {
    var t := s[mark..];
    forall k | 0 <= k < |t| ensures IsSpace(t[k]) == IsSpace(t[0]) {
      assert t[k] == s[mark + k];
    }
    RunsWhole(t);
  }

  /** The loop of `split`: `mark` is where the current token began and
      `prevWasSpace` the category of the previous character; a token is cut
      when the category changes, and the trailing run is emitted after the
      loop. */
  method Split(s: string) returns (words: seq<string>)
    ensures IsRunDecomposition(words, s)
    ensures words == Runs(s)
    ensures words == [] <==> s == []
  {
    words := [];
    var prevWasSpace := false;
    var mark := 0;
    var i := 0;
    while i < |s|
      invariant 0 <= mark <= i <= |s|
      invariant forall k :: mark <= k < i ==> IsSpace(s[k]) == prevWasSpace
      invariant words + Runs(s[mark..]) == Runs(s)
    {
      var isSpace := IsSpace(s[i]);
      if isSpace != prevWasSpace && i > mark {
        SplitStep(s, mark, i);
        Associative(words, [s[mark..i]], Runs(s[i..]));
        words := words + [s[mark..i]];
        mark := i;
      }
      prevWasSpace := isSpace;
      i := i + 1;
    }
    if mark < |s| {
      SplitLast(s, mark);
      words := words + [s[mark..]];
    } else {
      assert Runs(s[mark..]) == [];
      assert words + [] == words;
    }
    RunsDecompose(s);
  }
}
