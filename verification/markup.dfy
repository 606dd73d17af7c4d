/**
 The font pass of `present/style.go`. A word bracketed by a marker (`_` for
 italic, `*` for bold, a back quote for fixed width), with nothing but
 punctuation outside the two markers, is rewritten as HTML tags around its
 interior; inside the interior a lone marker becomes a space and a doubled
 marker one literal marker. Every other word is left as it is.
 */
module Markup {
  import opened Text
  import opened Tokenizer
  import Html

  /** The three font markers: `_` for italic, `*` for bold and a back quote
      for fixed width. */
  predicate IsMarker(ch: char) {
    ch == '_' || ch == '*' || ch == '`'
  }

  /** What may stand outside the markers: period, comma, semicolon, colon,
      parentheses, exclamation and question marks, em dash, en dash, single
      and double quote. */
  predicate IsPunctuation(ch: char) {
    || ch == '.' || ch == ',' || ch == ';' || ch == ':' || ch == '(' || ch == ')'
    || ch == '!' || ch == '?' || ch == '\U{2014}' || ch == '\U{2013}' || ch == '\'' || ch == '"'
  }

  /** Every character of `s` is punctuation (the loops of `font` that test
      each rune against the punctuation set). */
  predicate AllPunctuation(s: string) {
    forall k :: 0 <= k < |s| ==> IsPunctuation(s[k])
  }

  /** `strings.IndexAny` with the three markers: the index of the first
      marker of `s`, or -1 when there is none. */
  function FirstMarker(s: string): (r: int)
    ensures -1 <= r < |s|
    ensures r == -1 <==> forall k :: 0 <= k < |s| ==> !IsMarker(s[k])
    ensures 0 <= r ==> IsMarker(s[r]) && forall k :: 0 <= k < r ==> !IsMarker(s[k])
  {
    if s == [] then -1
    else if IsMarker(s[0]) then 0
    else
      var r := FirstMarker(s[1..]);
      if r == -1 then -1 else r + 1
  }

  /** The opening tag a marker stands for. */
  function OpenTag(c: char): string
    requires IsMarker(c)
  {
    if c == '_' then "<i>" else if c == '*' then "<b>" else "<code>"
  }

  /** The closing tag a marker stands for; it closes the element `OpenTag`
      opens. */
  function CloseTag(c: char): (t: string)
    requires IsMarker(c)
    ensures t == "</" + OpenTag(c)[1..]
  {
    if c == '_' then "</i>" else if c == '*' then "</b>" else "</code>"
  }

  // ---------------------------------------------------------------------
  // The body rewrite
  // ---------------------------------------------------------------------

  /** The loop that rewrites the interior of a bracketed word, run on `rest`,
      the part of the word from the loop index to the closing marker
      inclusive. The loop stops one character before the end, so the closing
      marker is never copied, but the look-ahead of a marker may read it and
      consume it as the second half of a doubled marker. The result is shorter
      than `rest`. */
  function Inner(rest: string, c: char): (r: string)
    ensures rest != [] ==> |r| < |rest|
    decreases |rest|
  {
    if |rest| <= 1 then []
    else if rest[0] != c then [rest[0]] + Inner(rest[1..], c)
    else if rest[1] != c then [' '] + Inner(rest[1..], c)
    else [c] + Inner(rest[2..], c)
  }

  /** One step of the rewrite, read at index `i` of `head`. */
  lemma InnerStep(head: string, i: nat, c: char)
    requires i < |head| - 1
    ensures head[i] != c ==> Inner(head[i..], c) == [head[i]] + Inner(head[i + 1..], c)
    ensures head[i] == c && head[i + 1] != c ==> Inner(head[i..], c) == [' '] + Inner(head[i + 1..], c)
    ensures head[i] == c && head[i + 1] == c ==> Inner(head[i..], c) == [c] + Inner(head[i + 2..], c)
  {
    var rest := head[i..];
    assert rest[0] == head[i] && rest[1] == head[i + 1];
    assert rest[1..] == head[i + 1..];
    assert rest[2..] == head[i + 2..];
  }

  /** The same loop as `present/style.go` writes it, with the index `i` into `head`,
      the word from its opening to its closing marker. */
  method WriteBody(head: string, marker: char) returns (b: string)
    requires head != []
    ensures b == Inner(head[1..], marker)
  {
    b := [];
    var i := 1;
    while i < |head| - 1
      invariant 1 <= i <= |head|
      invariant b + Inner(head[i..], marker) == Inner(head[1..], marker)
      decreases |head| - i
    {
      InnerStep(head, i, marker);
      var out: string;
      var wid: nat;
      if head[i] != marker {
        out, wid := [head[i]], 1;
      } else if head[i + 1] != marker {
        out, wid := [' '], 1;
      } else {
        out, wid := [marker], 2;
      }
      ghost var r := Inner(head[i + wid..], marker);
      assert Inner(head[i..], marker) == out + r;
      Associative(b, out, r);
      b := b + out;
      i := i + wid;
    }
    assert |head[i..]| <= 1;
    assert b + [] == b;
  }

  /** How an author writes `t` between the markers `c`: a space becomes a
      lone marker and a marker a doubled one. */
  function Encode(t: string, c: char): (body: string)
    ensures |body| >= |t|
    ensures c != ' ' ==> ' ' !in body
    decreases |t|
  {
    if t == [] then []
    else EncodeChar(t[0], c) + Encode(t[1..], c)
  }

  /** Text the rewrite can produce from `Encode`: a space is never followed by
      another space or by the marker, and never ends the text (a marker
      written for such a space would pair with the next one). */
  predicate Displayable(t: string, c: char) {
    && (forall k :: 0 <= k < |t| - 1 && t[k] == ' ' ==> t[k + 1] != ' ' && t[k + 1] != c)
    && (t == [] || t[|t| - 1] != ' ')
  }

  /** The rewrite inverts `Encode`: the encoded text followed by the closing
      marker reads back as the text. */
  lemma {:induction false} InnerEncode(t: string, c: char)
    requires IsMarker(c)
    requires Displayable(t, c)
    ensures Inner(Encode(t, c) + [c], c) == t
    decreases |t|
  {
    if t != [] {
      DisplayableTail(t, c);
      InnerEncode(t[1..], c);
      InnerEncodeStep(t, c);
    }
  }

  /** One step of `InnerEncode`: the rewrite reads the encoding of the first
      character back, then goes on with the encoding of the rest. */
  lemma InnerEncodeStep(t: string, c: char)
    requires IsMarker(c) && t != [] && Displayable(t, c)
    ensures Inner(Encode(t, c) + [c], c) == [t[0]] + Inner(Encode(t[1..], c) + [c], c)
  {
    var e := Encode(t[1..], c);
    assert Encode(t, c) == EncodeChar(t[0], c) + e;
    if t[0] == ' ' {
      assert |t| >= 2 && t[1] != c && t[1] != ' ';
      EncodeFirst(t[1..], c);
      InnerLoneMarker(c, e);
      assert [c] + e + [c] == Encode(t, c) + [c];
    } else if t[0] == c {
      InnerDoubledMarker(c, e);
      assert [c, c] + e + [c] == Encode(t, c) + [c];
    } else {
      InnerOther(t[0], c, e);
      assert [t[0]] + e + [c] == Encode(t, c) + [c];
    }
  }

  /** How `Encode` writes one character. */
  function EncodeChar(ch: char, c: char): (e: string)
    ensures |e| >= 1
  {
    if ch == ' ' then [c] else if ch == c then [c, c] else [ch]
  }

  /** A character that is neither a space nor the marker is written as
      itself, first. */
  lemma EncodeFirst(t: string, c: char)
    requires t != [] && t[0] != ' ' && t[0] != c
    ensures Encode(t, c) != [] && Encode(t, c)[0] == t[0]
  {
    assert Encode(t, c) == [t[0]] + Encode(t[1..], c);
  }

  /** `Encode` works character by character. */
  lemma {:induction false} EncodeAppend(a: string, b: string, c: char)
    ensures Encode(a + b, c) == Encode(a, c) + Encode(b, c)
    decreases |a|
  {
    if a == [] {
      assert a + b == b;
    } else {
      assert (a + b)[1..] == a[1..] + b;
      EncodeAppend(a[1..], b, c);
    }
  }

  /** `t` has no space and no marker `c`: one word, written as it is. */
  predicate SingleWord(t: string, c: char) {
    forall k :: 0 <= k < |t| ==> t[k] != ' ' && t[k] != c
  }

  /** Text without spaces and markers is written as it is. */
  lemma {:induction false} EncodePlain(t: string, c: char)
    requires SingleWord(t, c)
    ensures Encode(t, c) == t
    decreases |t|
  {
    if t != [] {
      assert SingleWord(t[1..], c) by {
        forall k | 0 <= k < |t[1..]| ensures t[1..][k] != ' ' && t[1..][k] != c {
          assert t[1..][k] == t[k + 1];
        }
      }
      EncodePlain(t[1..], c);
    }
  }

  lemma DisplayableTail(t: string, c: char)
    requires t != [] && Displayable(t, c)
    ensures Displayable(t[1..], c)
  {
    forall k | 0 <= k < |t[1..]| - 1 && t[1..][k] == ' '
      ensures t[1..][k + 1] != ' ' && t[1..][k + 1] != c
    {
      assert t[1..][k] == t[k + 1] && t[1..][k + 1] == t[k + 2];
    }
  }

  lemma InnerLoneMarker(c: char, e: string)
    requires e != [] && e[0] != c
    ensures Inner([c] + e + [c], c) == [' '] + Inner(e + [c], c)
  {
    var rest := [c] + e + [c];
    assert rest[1] == e[0] && rest[1..] == e + [c];
  }

  lemma InnerDoubledMarker(c: char, e: string)
    ensures Inner([c, c] + e + [c], c) == [c] + Inner(e + [c], c)
  {
    var rest := [c, c] + e + [c];
    assert rest[2..] == e + [c];
  }

  lemma InnerOther(x: char, c: char, e: string)
    requires x != c
    ensures Inner([x] + e + [c], c) == [x] + Inner(e + [c], c)
  {
    var rest := [x] + e + [c];
    assert rest[1..] == e + [c];
  }

  /** A body without the marker is copied as it is. */
  lemma {:induction false} InnerPlain(body: string, c: char)
    requires c !in body
    ensures Inner(body + [c], c) == body
    decreases |body|
  {
    if body != [] {
      assert (body + [c])[1..] == body[1..] + [c];
      InnerPlain(body[1..], c);
    }
  }

  // ---------------------------------------------------------------------
  // One word
  // ---------------------------------------------------------------------

  /** The outcome of the guards of the loop body of `font`: either the word
      is left alone, or it is styled between its first marker, at `first`,
      and the last occurrence of that marker, at `last`. */
  datatype Span = Unstyled | Styled(first: nat, last: nat)

  /** The guards of the loop body of `font`, in the order the Go code tests
      them: at least two characters, a marker, only punctuation before the
      first marker, another occurrence of it, and only punctuation after its
      last occurrence. A styled outcome is a bracketing pair. */
  function Scan(word: string): (r: Span)
    ensures r.Styled? ==> Brackets(word, r.first, r.last)
  {
    if |word| < 2 then Unstyled
    else
      var first := FirstMarker(word);
      if first == -1 then Unstyled
      else if !AllPunctuation(word[..first]) then Unstyled
      else
        var rest := word[first..];
        var last := LastIndex(rest, rest[0]);
        if last == 0 then Unstyled
        else
          var tail := rest[last + 1..];
          if !AllPunctuation(tail) then Unstyled
          else
            assert tail == word[first + last + 1..] && word[first + last] == rest[last];
            Styled(first, first + last)
  }

  /** The rewrite of one token by the loop body of `font`: the leading
      punctuation, the opening tag, the rewritten interior between the two
      markers, the closing tag and the trailing punctuation when the guards
      find a bracketing pair; the word as it is otherwise. */
  function FontWord(word: string): string {
    match Scan(word)
    case Unstyled => word
    case Styled(i, j) => Rewrite(word, i, j)
  }

  /** The rewrite of a bracketed word. */
  function Rewrite(w: string, i: nat, j: nat): string
    requires Brackets(w, i, j)
  {
    w[..i] + OpenTag(w[i]) + Inner(w[i + 1..j + 1], w[i]) + CloseTag(w[i]) + w[j + 1..]
  }

  /** Positions `i` and `j` of `w` hold the same marker, and only punctuation
      precedes `i` and follows `j`. */
  predicate Brackets(w: string, i: int, j: int) {
    && 0 <= i < j < |w|
    && IsMarker(w[i]) && w[j] == w[i]
    && AllPunctuation(w[..i]) && AllPunctuation(w[j + 1..])
  }

  /** The word is styled: some pair of positions brackets it. */
  ghost predicate Eligible(w: string) {
    exists i, j :: Brackets(w, i, j)
  }

  /** Punctuation is neither a marker nor whitespace. */
  lemma PunctuationIsPlain(s: string)
    requires AllPunctuation(s)
    ensures forall k :: 0 <= k < |s| ==> !IsMarker(s[k]) && !IsSpace(s[k])
  {
  }

  /** A marker is not whitespace. */
  lemma MarkerIsNotSpace(ch: char)
    requires IsMarker(ch)
    ensures !IsSpace(ch)
  {
  }

  /** With only punctuation before it, a marker is the first one. */
  lemma FirstMarkerAt(w: string, i: nat)
    requires i < |w| && IsMarker(w[i]) && AllPunctuation(w[..i])
    ensures FirstMarker(w) == i
  {
    PunctuationIsPlain(w[..i]);
  }

  /** With only punctuation after it, an occurrence of a marker is its last. */
  lemma LastMarkerAt(rest: string, j: nat)
    requires j < |rest| && IsMarker(rest[j]) && AllPunctuation(rest[j + 1..])
    ensures LastIndex(rest, rest[j]) == j
  {
    PunctuationIsPlain(rest[j + 1..]);
  }

  /** A bracketed word is rewritten to its leading punctuation, the opening
      tag of its marker, the rewritten interior, the closing tag and its
      trailing punctuation. */
  lemma FontWordRewrites(w: string, i: int, j: int)
    requires Brackets(w, i, j)
    ensures FontWord(w) == w[..i] + OpenTag(w[i]) + Inner(w[i + 1..j + 1], w[i]) + CloseTag(w[i]) + w[j + 1..]
  {
    ScanFinds(w, i, j);
    assert FontWord(w) == Rewrite(w, i, j);
  }

  /** The guards find a bracketing pair: only punctuation before it makes
      `i` the first marker, and only punctuation after it makes `j` the last
      occurrence of that marker. */
  lemma ScanFinds(w: string, i: int, j: int)
    requires Brackets(w, i, j)
    ensures Scan(w) == Styled(i, j)
  {
    FirstMarkerAt(w, i);
    var rest := w[i..];
    assert rest[j - i] == w[j] && rest[j - i + 1..] == w[j + 1..];
    LastMarkerAt(rest, j - i);
  }

  /** A word the loop rewrites is bracketed: by its first marker and the
      last occurrence of that marker. */
  lemma RewrittenIsBracketed(w: string)
    ensures FontWord(w) != w ==> Scan(w).Styled? && Brackets(w, Scan(w).first, Scan(w).last)
  {
  }

  /** A bracketed word does not survive the loop: its first marker becomes
      the `<` of a tag. */
  lemma BracketedIsRewritten(w: string, i: int, j: int)
    requires Brackets(w, i, j)
    ensures FontWord(w) != w
  {
    FontWordRewrites(w, i, j);
    var r := w[..i] + OpenTag(w[i]) + Inner(w[i + 1..j + 1], w[i]) + CloseTag(w[i]) + w[j + 1..];
    assert r[i] == OpenTag(w[i])[0];
  }

  /** A word is left as it is exactly when no pair of positions brackets it. */
  lemma FontWordUnchangedIff(w: string)
    ensures FontWord(w) == w <==> !Eligible(w)
  {
    if Eligible(w) {
      var i, j :| Brackets(w, i, j);
      BracketedIsRewritten(w, i, j);
    } else if FontWord(w) != w {
      RewrittenIsBracketed(w);
    }
  }

  // The cases in which the loop of `font` leaves a word as it is. Each is
  // proved by showing that no pair of positions brackets the word.

  /** A word shorter than two characters is left as it is. */
  lemma KeepsShort(w: string)
    requires |w| < 2
    ensures FontWord(w) == w
  {
  }

  /** A word without a marker is left as it is. */
  lemma MarkerFreeWord(w: string)
    requires forall k :: 0 <= k < |w| ==> !IsMarker(w[k])
    ensures FontWord(w) == w
  {
    FontWordUnchangedIff(w);
  }

  /** A word with something other than punctuation, at `k`, before its first
      marker is left as it is. */
  lemma KeepsNonPunctuationLead(w: string, k: int)
    requires 0 <= k < FirstMarker(w) && !IsPunctuation(w[k])
    ensures FontWord(w) == w
  {
    FontWordUnchangedIff(w);
    if Eligible(w) {
      var i, j :| Brackets(w, i, j);
      BracketsShape(w, i, j);
      assert false;
    }
  }

  /** A word whose first marker does not occur again is left as it is. */
  lemma KeepsLoneMarker(w: string)
    requires 0 <= FirstMarker(w)
    requires forall p :: FirstMarker(w) < p < |w| ==> w[p] != w[FirstMarker(w)]
    ensures FontWord(w) == w
  {
    FontWordUnchangedIff(w);
    if Eligible(w) {
      var i, j :| Brackets(w, i, j);
      BracketsShape(w, i, j);
      assert false;
    }
  }

  /** A word with something other than punctuation, at `k`, after the last
      occurrence `j` of its first marker is left as it is. */
  lemma KeepsNonPunctuationTrail(w: string, j: int, k: int)
    requires 0 <= FirstMarker(w) < j < k < |w| && w[j] == w[FirstMarker(w)]
    requires forall p :: j < p < |w| ==> w[p] != w[FirstMarker(w)]
    requires !IsPunctuation(w[k])
    ensures FontWord(w) == w
  {
    FontWordUnchangedIff(w);
    if Eligible(w) {
      var i, j' :| Brackets(w, i, j');
      BracketsShape(w, i, j');
      assert false;
    }
  }

  /** A whitespace token holds no marker, so it is left as it is. */
  lemma KeepsWhitespace(w: string)
    requires IsRun(w) && IsSpace(w[0])
    ensures FontWord(w) == w
  {
    forall k | 0 <= k < |w| ensures !IsMarker(w[k]) {
      if IsMarker(w[k]) {
        MarkerIsNotSpace(w[k]);
      }
    }
    MarkerFreeWord(w);
  }

  /** What a bracketing pair says about the word: it is at least two long,
      the pair starts at the first marker, only punctuation precedes it, and
      only punctuation, never the marker again, follows it. */
  lemma BracketsShape(w: string, i: int, j: int)
    requires Brackets(w, i, j)
    ensures |w| >= 2 && FirstMarker(w) == i
    ensures forall k :: 0 <= k < i ==> IsPunctuation(w[k])
    ensures forall k :: j < k < |w| ==> IsPunctuation(w[k]) && w[k] != w[i]
  {
    FirstMarkerAt(w, i);
    PunctuationIsPlain(w[j + 1..]);
    forall k | 0 <= k < i ensures IsPunctuation(w[k]) {
      assert w[..i][k] == w[k];
    }
    forall k | j < k < |w| ensures IsPunctuation(w[k]) && w[k] != w[i] {
      assert w[j + 1..][k - j - 1] == w[k];
    }
  }

  /** Writing `t` as a bracketed word and styling it gives `t` between the
      tags, with the punctuation kept outside them. */
  lemma StyledWordRoundTrip(lead: string, c: char, t: string, trail: string)
    requires AllPunctuation(lead) && AllPunctuation(trail)
    requires IsMarker(c) && Displayable(t, c)
    ensures FontWord(lead + [c] + Encode(t, c) + [c] + trail) == lead + OpenTag(c) + t + CloseTag(c) + trail
  {
    var e := Encode(t, c);
    var w := lead + [c] + e + [c] + trail;
    var i, j := |lead|, |lead| + 1 + |e|;
    assert w[..i] == lead && w[i] == c && w[j] == c;
    assert w[j + 1..] == trail;
    assert w[i + 1..j + 1] == e + [c];
    FontWordRewrites(w, i, j);
    InnerEncode(t, c);
  }

  // ---------------------------------------------------------------------
  // The whole text
  // ---------------------------------------------------------------------

  /** Each token replaced by its rewrite, in order. */
  function FontTokens(ws: seq<string>): (fs: seq<string>)
    ensures |fs| == |ws|
    ensures forall k :: 0 <= k < |ws| ==> fs[k] == FontWord(ws[k])
    decreases |ws|
  {
    if ws == [] then [] else [FontWord(ws[0])] + FontTokens(ws[1..])
  }

  lemma {:induction false} FontTokensAppend(xs: seq<string>, ys: seq<string>)
    ensures FontTokens(xs + ys) == FontTokens(xs) + FontTokens(ys)
    decreases |xs|
  {
    if xs == [] {
      assert xs + ys == ys;
    } else {
      assert (xs + ys)[1..] == xs[1..] + ys;
      FontTokensAppend(xs[1..], ys);
    }
  }

  /** `font`: text without a marker is returned at once; otherwise each run of
      the text is rewritten on its own and the results are joined. */
  function Font(s: string): string {
    if FirstMarker(s) == -1 then s
    else Join(FontTokens(Runs(s)))
  }

  /** Without a marker in the text, the per-token path returns the text: so
      the early return of `font` agrees with it. */
  lemma MarkerFreeUnchanged(s: string)
    requires forall k :: 0 <= k < |s| ==> !IsMarker(s[k])
    ensures Join(FontTokens(Runs(s))) == s
  {
    var ws := Runs(s);
    RunsDecompose(s);
    var fs := FontTokens(ws);
    forall k | 0 <= k < |ws| ensures fs[k] == ws[k] {
      forall m | 0 <= m < |ws[k]| ensures !IsMarker(ws[k][m]) {
        JoinHas(ws, k, m);
      }
      MarkerFreeWord(ws[k]);
    }
    assert fs == ws;
  }


  /** `font` is the join of the per-token rewrites of the runs of its input,
      whether or not it took the early return. */
  lemma FontIsPerToken(s: string)
    ensures Font(s) == Join(FontTokens(Runs(s)))
  {
    if FirstMarker(s) == -1 {
      MarkerFreeUnchanged(s);
    }
  }

  /** Tokens are styled independently: wherever the text changes between
      whitespace and non-whitespace, `font` of the whole is `font` of the
      parts. */
  lemma FontSplits(x: string, y: string)
    requires x == [] || y == [] || IsSpace(x[|x| - 1]) != IsSpace(y[0])
    ensures Font(x + y) == Font(x) + Font(y)
  {
    FontIsPerToken(x);
    FontIsPerToken(y);
    FontIsPerToken(x + y);
    RunsAppend(x, y);
    var xs, ys := Runs(x), Runs(y);
    FontTokensAppend(xs, ys);
    JoinAppend(FontTokens(xs), FontTokens(ys));
  }

  /** `style`: escape the text, then apply the font pass. */
  function Style(s: string): string {
    Font(Html.Escape(s))
  }

  /** A text that is a single run is a single token. */
  lemma FontOfRun(w: string)
    requires IsRun(w)
    ensures Font(w) == FontWord(w)
  {
    FontIsPerToken(w);
    RunsWhole(w);
    assert FontTokens([w]) == [FontWord(w)];
    assert Join([FontWord(w)]) == FontWord(w) + Join([]);
  }

  // ---------------------------------------------------------------------
  // Examples from the documentation of `font`, one word each
  // ---------------------------------------------------------------------

  /** How the examples are checked: once the bracketing pair and the
      rewritten interior are known, the rewrite of the word is assembled. */
  lemma RewriteExample(w: string, i: nat, j: nat, body: string, r: string)
    requires Brackets(w, i, j)
    requires Inner(w[i + 1..j + 1], w[i]) == body
    requires r == w[..i] + OpenTag(w[i]) + body + CloseTag(w[i]) + w[j + 1..]
    ensures FontWord(w) == r
  {
    FontWordRewrites(w, i, j);
  }

  /** Punctuation after the closing marker stays outside the tags. */
  lemma ExampleBoldWithPunctuation(w: string)
    requires w == "*bold*!"
    ensures FontWord(w) == "<b>bold</b>!"
  {
    assert w[1..6] == "bold" + ['*'];
    InnerPlain("bold", '*');
    RewriteExample(w, 0, 5, "bold", "<b>bold</b>!");
  }

  /** A doubled marker inside the word is one literal marker. */
  lemma ExampleDoubledMarker(w: string)
    requires w == "_a__b_"
    ensures FontWord(w) == "<i>a_b</i>"
  {
    assert w[1..6] == w[1..] == "a__b_";
    DoubledMarkerBody(w[1..]);
    RewriteExample(w, 0, 5, "a_b", "<i>a_b</i>");
  }

  lemma DoubledMarkerBody(h: string)
    requires h == "a__b_"
    ensures Inner(h, '_') == "a_b"
  {
    InnerStep(h, 0, '_');
    InnerStep(h, 1, '_');
    InnerStep(h, 3, '_');
    assert h[0..] == h && |h[4..]| == 1;
  }

  /** A lone marker inside the word is a space. */
  lemma ExampleInnerMarker(w: string)
    requires w == "_a_b_"
    ensures FontWord(w) == "<i>a b</i>"
  {
    assert w[1..5] == w[1..] == "a_b_";
    InnerMarkerBody(w[1..]);
    RewriteExample(w, 0, 4, "a b", "<i>a b</i>");
  }

  lemma InnerMarkerBody(h: string)
    requires h == "a_b_"
    ensures Inner(h, '_') == "a b"
  {
    InnerStep(h, 0, '_');
    InnerStep(h, 1, '_');
    InnerStep(h, 2, '_');
    assert h[0..] == h && |h[3..]| == 1;
  }

  /** A doubled marker may take the closing marker as its second half. */
  lemma ExampleDoubledClosingMarker(w: string)
    requires w == "_x__"
    ensures FontWord(w) == "<i>x_</i>"
  {
    assert w[1..4] == w[1..] == "x__";
    DoubledClosingBody(w[1..]);
    RewriteExample(w, 0, 3, "x_", "<i>x_</i>");
  }

  lemma DoubledClosingBody(h: string)
    requires h == "x__"
    ensures Inner(h, '_') == "x_"
  {
    InnerStep(h, 0, '_');
    InnerStep(h, 1, '_');
    assert h[0..] == h && h[3..] == [];
  }

  /** Only the first marker's kind pairs; another marker inside is text. */
  lemma ExampleMixedMarkers(w: string)
    requires w == "_a*b_"
    ensures FontWord(w) == "<i>a*b</i>"
  {
    assert w[1..5] == "a*b" + ['_'];
    InnerPlain("a*b", '_');
    RewriteExample(w, 0, 4, "a*b", "<i>a*b</i>");
  }

  /** The shape of the example of the documentation of `font`: three words
      joined by lone markers between two markers, then an exclamation mark,
      are the words joined by spaces in italics, then the exclamation mark. */
  lemma ExampleThreeWords(a: string, b: string, d: string)
    requires SingleWord(a, '_')
    requires SingleWord(b, '_')
    requires SingleWord(d, '_')
    requires a != [] && b != [] && d != []
    ensures FontWord(['_'] + a + ['_'] + b + ['_'] + d + ['_', '!']) == "<i>" + a + [' '] + b + [' '] + d + "</i>!"
  {
    var t := a + [' '] + (b + [' '] + d);
    var e := a + ['_'] + b + ['_'] + d;
    EncodeThreeWords(a, b, d, '_');
    ThreeWordsDisplayable(a, b, d);
    var w := ['_'] + a + ['_'] + b + ['_'] + d + ['_', '!'];
    ThreeWordsShape(a, b, d);
    StyledExample(w, [], '_', t, e, "!", "<i>" + a + [' '] + b + [' '] + d + "</i>!");
  }

  lemma ThreeWordsShape(a: string, b: string, d: string)
    ensures ['_'] + a + ['_'] + b + ['_'] + d + ['_', '!'] == [] + ['_'] + (a + ['_'] + b + ['_'] + d) + ['_'] + "!"
    ensures "<i>" + a + [' '] + b + [' '] + d + "</i>!" == [] + OpenTag('_') + (a + [' '] + (b + [' '] + d)) + CloseTag('_') + "!"
  {
  }

  lemma ThreeWordsDisplayable(a: string, b: string, d: string)
    requires SingleWord(a, '_')
    requires SingleWord(b, '_')
    requires SingleWord(d, '_')
    requires a != [] && b != [] && d != []
    ensures Displayable(a + [' '] + (b + [' '] + d), '_')
  {
    var t := a + [' '] + (b + [' '] + d);
    forall k | 0 <= k < |t| - 1 && t[k] == ' ' ensures t[k + 1] != ' ' && t[k + 1] != '_' {
      if k == |a| {
        assert t[k + 1] == b[0];
      } else {
        assert k == |a| + 1 + |b|;
        assert t[k + 1] == d[0];
      }
    }
    assert t[|t| - 1] == d[|d| - 1];
  }

  lemma ExampleItalic(w: string)
    requires w == "_this_is_italic_!"
    ensures Font(w) == "<i>this is italic</i>!"
  {
    var a, b, d := "this", "is", "italic";
    ItalicWords(a, b, d, w);
    ExampleThreeWords(a, b, d);
    ItalicIsRun(w);
    FontOfRun(w);
  }

  /** The words of the example, and the example spelled out from them. */
  lemma ItalicWords(a: string, b: string, d: string, w: string)
    requires a == "this" && b == "is" && d == "italic" && w == "_this_is_italic_!"
    ensures SingleWord(a, '_')
    ensures SingleWord(b, '_')
    ensures SingleWord(d, '_')
    ensures w == ['_'] + a + ['_'] + b + ['_'] + d + ['_', '!']
    ensures "<i>" + a + [' '] + b + [' '] + d + "</i>!" == "<i>this is italic</i>!"
  {
  }

  /** How the round trip checks an example: a word written as text between
      markers styles as that text between tags. */
  lemma StyledExample(w: string, lead: string, c: char, t: string, e: string, trail: string, r: string)
    requires AllPunctuation(lead) && AllPunctuation(trail)
    requires IsMarker(c) && Displayable(t, c)
    requires Encode(t, c) == e && w == lead + [c] + e + [c] + trail
    requires r == lead + OpenTag(c) + t + CloseTag(c) + trail
    ensures FontWord(w) == r
  {
    StyledWordRoundTrip(lead, c, t, trail);
  }

  /** Words joined by single spaces are written with a lone marker between
      them. */
  lemma EncodeSpaced(a: string, b: string, c: char)
    requires SingleWord(a, c)
    ensures Encode(a + [' '] + b, c) == a + [c] + Encode(b, c)
  {
    EncodePlain(a, c);
    EncodeAppend(a, [' '], c);
    EncodeAppend(a + [' '], b, c);
    assert Encode([' '], c) == [c] by {
      assert [' '][1..] == [];
    }
  }

  /** Three words joined by single spaces are written with lone markers
      between them. */
  lemma EncodeThreeWords(a: string, b: string, d: string, c: char)
    requires SingleWord(a, c)
    requires SingleWord(b, c)
    requires SingleWord(d, c)
    ensures Encode(a + [' '] + (b + [' '] + d), c) == a + [c] + b + [c] + d
  {
    var bd := b + [' '] + d;
    EncodeSpaced(b, d, c);
    EncodePlain(d, c);
    assert Encode(bd, c) == b + [c] + d;
    EncodeSpaced(a, bd, c);
    assert Encode(a + [' '] + bd, c) == a + [c] + (b + [c] + d);
    Associative(a + [c], b + [c], d);
    Associative(a + [c], b, [c]);
  }

  lemma ItalicIsRun(w: string)
    requires w == "_this_is_italic_!"
    ensures IsRun(w)
  {
    forall k | 0 <= k < |w| ensures IsSpace(w[k]) == IsSpace(w[0]) {
      assert w[k] != ' ' && w[k] >= '!' && w[k] <= 'z';
    }
  }

  lemma ExampleLoneMarker(w: string)
    requires w == "_word"
    ensures FontWord(w) == w
  {
    assert FirstMarker(w) == 0;
    KeepsLoneMarker(w);
  }

  // ---------------------------------------------------------------------
  // Punctuation seen through `style`
  // ---------------------------------------------------------------------

  /** An ampersand is neither a marker nor punctuation, so a word that begins
      with one is never bracketed. */
  lemma AmpersandLedIneligible(w: string)
    requires w != [] && w[0] == '&'
    ensures !Eligible(w)
  {
    if Eligible(w) {
      var i, j :| Brackets(w, i, j);
      BracketsShape(w, i, j);
      assert false;
    }
  }

  /** A word that begins with an ampersand is left as it is. */
  lemma AmpersandLedKept(w: string)
    requires w != [] && w[0] == '&'
    ensures FontWord(w) == w
  {
    FontWordUnchangedIff(w);
    AmpersandLedIneligible(w);
  }

  /** `style` escapes before it styles, so a quote in front of a word is an
      entity by the time the font pass sees it and no longer counts as
      punctuation: a single word that begins with a quote (or with any other
      character escaping replaces) comes out escaped and unstyled, markers
      and all. */
  lemma StyleKeepsEscapeLedWord(s: string)
    requires IsRun(s) && !IsSpace(s[0]) && Html.IsSpecial(s[0])
    ensures Style(s) == Html.Escape(s)
  {
    var t := Html.Escape(s);
    assert t == Html.EscapeChar(s[0]) + Html.Escape(s[1..]);
    assert t[0] == '&';
    EscapeKeepsText(s);
    FontOfRun(t);
    AmpersandLedKept(t);
  }

  /** Escaping a run of non-whitespace gives a run of non-whitespace: the
      entities hold no whitespace. */
  lemma EscapeKeepsText(s: string)
    requires IsRun(s) && !IsSpace(s[0])
    ensures IsRun(Html.Escape(s)) && !IsSpace(Html.Escape(s)[0])
  {
    EscapeHasNoSpace(s);
    var t := Html.Escape(s);
    assert t == Html.EscapeChar(s[0]) + Html.Escape(s[1..]);
  }

  lemma {:induction false} EscapeHasNoSpace(s: string)
    requires forall k :: 0 <= k < |s| ==> !IsSpace(s[k])
    ensures forall k :: 0 <= k < |Html.Escape(s)| ==> !IsSpace(Html.Escape(s)[k])
    decreases |s|
  {
    if s != [] {
      EscapeHasNoSpace(s[1..]);
      var e, r := Html.EscapeChar(s[0]), Html.Escape(s[1..]);
      assert Html.Escape(s) == e + r;
      EscapeCharHasNoSpace(s[0]);
    }
  }

  lemma EscapeCharHasNoSpace(c: char)
    requires !IsSpace(c)
    ensures forall k :: 0 <= k < |Html.EscapeChar(c)| ==> !IsSpace(Html.EscapeChar(c)[k])
  {
    var e := Html.EscapeChar(c);
    forall k | 0 <= k < |e| ensures !IsSpace(e[k]) {
      assert e[k] in "&lt;gamp#3948" + [c];
    }
  }

  // ---------------------------------------------------------------------
  // What `style` guarantees
  // ---------------------------------------------------------------------

  /** Escaping neither adds nor removes a marker, so no marker can be smuggled
      in through an entity. */
  lemma {:induction false} EscapeKeepsMarkers(s: string, ch: char)
    requires IsMarker(ch)
    ensures ch in Html.Escape(s) <==> ch in s
    decreases |s|
  {
    if s != [] {
      EscapeKeepsMarkers(s[1..], ch);
      var e := Html.EscapeChar(s[0]);
      assert Html.Escape(s) == e + Html.Escape(s[1..]);
      EscapeCharKeepsMarkers(s[0], ch);
      assert s == [s[0]] + s[1..];
    }
  }

  lemma EscapeCharKeepsMarkers(c: char, ch: char)
    requires IsMarker(ch)
    ensures ch in Html.EscapeChar(c) <==> ch == c
  {
    if Html.IsSpecial(c) {
      var e := Html.EscapeChar(c);
      assert e == "&lt;" || e == "&gt;" || e == "&amp;" || e == "&#39;" || e == "&#34;";
    }
  }

  /** A character escaping leaves alone: not an angle bracket, not an
      ampersand, not a quote. */
  predicate PlainChar(ch: char) {
    !Html.IsSpecial(ch)
  }

  /** The five entities escaping writes. */
  predicate IsEntity(x: string) {
    x == "&lt;" || x == "&gt;" || x == "&amp;" || x == "&#39;" || x == "&#34;"
  }

  /** The first `n` characters of `u` are an entity. */
  predicate StartsWithEntity(u: string, n: nat) {
    n <= |u| && IsEntity(u[..n])
  }

  /** The characters the entities are made of. */
  predicate EntityChar(ch: char) {
    || ch == '&' || ch == ';' || ch == '#' || ch == 'l' || ch == 't' || ch == 'g'
    || ch == 'a' || ch == 'm' || ch == 'p' || ch == '3' || ch == '4' || ch == '9'
  }

  /** `x` is escaped text: plain characters and whole entities, so every `&`
      in it begins an entity and there is no angle bracket and no quote. */
  predicate Escaped(x: string)
    decreases |x|
  {
    || x == []
    || (PlainChar(x[0]) && Escaped(x[1..]))
    || (StartsWithEntity(x, 4) && Escaped(x[4..]))
    || (StartsWithEntity(x, 5) && Escaped(x[5..]))
  }

  /** The six tags the font pass writes. */
  predicate IsTag(x: string) {
    x == "<i>" || x == "</i>" || x == "<b>" || x == "</b>" || x == "<code>" || x == "</code>"
  }

  /** The first `n` characters of `u` are a tag or an entity. */
  predicate StartsWithUnit(u: string, n: nat) {
    n <= |u| && (IsTag(u[..n]) || IsEntity(u[..n]))
  }

  /** `r` is a sequence of plain characters, entities and the six tags: every
      `<` begins a tag of the font pass, every `&` begins an entity, every `>`
      ends one of the tags, and there is no quote. */
  predicate SafeHtml(r: string)
    decreases |r|
  {
    || r == []
    || (PlainChar(r[0]) && SafeHtml(r[1..]))
    || (StartsWithUnit(r, 3) && SafeHtml(r[3..]))
    || (StartsWithUnit(r, 4) && SafeHtml(r[4..]))
    || (StartsWithUnit(r, 5) && SafeHtml(r[5..]))
    || (StartsWithUnit(r, 6) && SafeHtml(r[6..]))
    || (StartsWithUnit(r, 7) && SafeHtml(r[7..]))
  }

  /** An ampersand that does not begin an entity is not safe. */
  lemma BareAmpersandIsUnsafe(r: string)
    requires r != [] && r[0] == '&' && !StartsWithEntity(r, 4) && !StartsWithEntity(r, 5)
    ensures !SafeHtml(r)
  {
    forall n: nat | 3 <= n <= 7 && n <= |r| ensures !IsTag(r[..n]) {
      assert r[..n][0] == '&';
    }
  }

  /** An entity is made of entity characters. */
  lemma EntityChars(e: string)
    requires IsEntity(e)
    ensures forall k :: 0 <= k < |e| ==> EntityChar(e[k])
  {
  }

  /** Escaping gives escaped text. */
  lemma {:induction false} EscapeIsEscaped(s: string)
    ensures Escaped(Html.Escape(s))
    decreases |s|
  {
    if s != [] {
      EscapeIsEscaped(s[1..]);
      EscapedCons(s[0], Html.Escape(s[1..]));
    }
  }

  lemma EscapedCons(c: char, t: string)
    requires Escaped(t)
    ensures Escaped(Html.EscapeChar(c) + t)
  {
    var e := Html.EscapeChar(c);
    var r := e + t;
    assert r[..|e|] == e && r[|e|..] == t;
    if !Html.IsSpecial(c) {
      assert r[0] == c && r[1..] == t;
    }
  }

  /** Escaped text stays escaped when it is cut anywhere but inside an
      entity, that is, wherever the characters on both sides are not both
      entity characters. */
  lemma {:induction false} EscapedCut(t: string, n: nat)
    requires Escaped(t) && n <= |t|
    requires n == 0 || n == |t| || !EntityChar(t[n - 1]) || !EntityChar(t[n])
    ensures Escaped(t[..n]) && Escaped(t[n..])
    decreases |t|, 1
  {
    if n == 0 {
      assert t[..0] == [] && t[0..] == t;
    } else if n == |t| {
      assert t[..n] == t && t[n..] == [];
    } else if PlainChar(t[0]) && Escaped(t[1..]) {
      EscapedCut(t[1..], n - 1);
      assert t[1..][..n - 1] == t[..n][1..] && t[1..][n - 1..] == t[n..];
    } else if StartsWithEntity(t, 4) && Escaped(t[4..]) {
      EscapedCutAfterEntity(t, n, 4);
    } else {
      EscapedCutAfterEntity(t, n, 5);
    }
  }

  /** The entity case of `EscapedCut`. */
  lemma {:induction false} EscapedCutAfterEntity(t: string, n: nat, m: nat)
    requires 0 < n < |t| && 0 < m && StartsWithEntity(t, m) && Escaped(t[m..])
    requires !EntityChar(t[n - 1]) || !EntityChar(t[n])
    ensures Escaped(t[..n]) && Escaped(t[n..])
    decreases |t|, 0
  {
    if n < m {
      EntityCharsAt(t, m, n);
      assert false;
    }
    EscapedCut(t[m..], n - m);
    var u := t[..n];
    assert u[..m] == t[..m] && u[m..] == t[m..][..n - m];
    assert StartsWithEntity(u, m);
    assert t[m..][n - m..] == t[n..];
  }

  /** Inside an entity both neighbours of a cut are entity characters. */
  lemma EntityCharsAt(t: string, m: nat, n: nat)
    requires StartsWithEntity(t, m) && 0 < n < m
    ensures EntityChar(t[n - 1]) && EntityChar(t[n])
  {
    EntityChars(t[..m]);
    assert t[..m][n - 1] == t[n - 1] && t[..m][n] == t[n];
  }

  /** Escaped text that starts with a plain character stays escaped without
      it. */
  lemma EscapedTail(x: string)
    requires Escaped(x) && x != [] && PlainChar(x[0])
    ensures Escaped(x[1..])
  {
    if StartsWithEntity(x, 4) {
      assert x[..4][0] == x[0];
    } else if StartsWithEntity(x, 5) {
      assert x[..5][0] == x[0];
    }
  }

  /** The rewrite of the interior copies characters other than the marker. */
  lemma {:induction false} InnerCopies(x: string, r: string, c: char)
    requires forall k :: 0 <= k < |x| ==> x[k] != c
    requires r != []
    ensures Inner(x + r, c) == x + Inner(r, c)
    decreases |x|
  {
    if x != [] {
      var u := x + r;
      assert u[0] == x[0] && u[0] != c && |u| > 1;
      assert u[1..] == x[1..] + r;
      assert forall k :: 0 <= k < |x[1..]| ==> x[1..][k] != c by {
        forall k | 0 <= k < |x[1..]| ensures x[1..][k] != c {
          assert x[1..][k] == x[k + 1];
        }
      }
      InnerCopies(x[1..], r, c);
      assert Inner(u, c) == [x[0]] + Inner(x[1..] + r, c);
      Associative([x[0]], x[1..], Inner(r, c));
      assert [x[0]] + x[1..] == x;
    } else {
      assert x + r == r;
    }
  }

  /** The rewrite of an escaped interior that ends with the marker is
      escaped: entities hold no marker, so they are copied whole. */
  lemma {:induction false} InnerEscaped(rest: string, c: char)
    requires Escaped(rest) && IsMarker(c)
    requires rest != [] ==> rest[|rest| - 1] == c
    ensures Escaped(Inner(rest, c))
    decreases |rest|
  {
    if |rest| <= 1 {
    } else if PlainChar(rest[0]) && Escaped(rest[1..]) {
      InnerEscapedPlain(rest, c);
    } else if StartsWithEntity(rest, 4) && Escaped(rest[4..]) {
      InnerEscapedEntity(rest, c, 4);
    } else {
      InnerEscapedEntity(rest, c, 5);
    }
  }

  /** `InnerEscaped` when the interior starts with a plain character. */
  lemma {:induction false} InnerEscapedPlain(rest: string, c: char)
    requires |rest| > 1 && PlainChar(rest[0]) && Escaped(rest[1..]) && IsMarker(c)
    requires rest[|rest| - 1] == c
    ensures Escaped(Inner(rest, c))
    decreases |rest|, 0
  {
    var t := rest[1..];
    assert t[|t| - 1] == c;
    if rest[0] == c && rest[1] == c {
      EscapedTail(t);
      assert t[1..] == rest[2..];
      InnerEscaped(rest[2..], c);
      var r := Inner(rest, c);
      assert r[0] == c && r[1..] == Inner(rest[2..], c);
    } else {
      InnerEscaped(t, c);
      var r := Inner(rest, c);
      assert PlainChar(r[0]) && r[1..] == Inner(t, c);
    }
  }

  /** `InnerEscaped` when the interior starts with an entity. */
  lemma {:induction false} InnerEscapedEntity(rest: string, c: char, m: nat)
    requires |rest| > 1 && StartsWithEntity(rest, m) && Escaped(rest[m..]) && IsMarker(c)
    requires rest[|rest| - 1] == c
    ensures Escaped(Inner(rest, c))
    decreases |rest|, 0
  {
    var e, t := rest[..m], rest[m..];
    EntityChars(e);
    assert m < |rest|;
    assert rest == e + t && t[|t| - 1] == c;
    InnerCopies(e, t, c);
    InnerEscaped(t, c);
    var r := e + Inner(t, c);
    assert r[..m] == e && r[m..] == Inner(t, c);
  }

  /** Escaped text is safe. */
  lemma {:induction false} EscapedIsSafe(x: string)
    requires Escaped(x)
    ensures SafeHtml(x)
    decreases |x|
  {
    if x == [] {
    } else if PlainChar(x[0]) && Escaped(x[1..]) {
      EscapedIsSafe(x[1..]);
    } else if StartsWithEntity(x, 4) && Escaped(x[4..]) {
      EscapedIsSafe(x[4..]);
    } else {
      EscapedIsSafe(x[5..]);
    }
  }

  /** A tag followed by safe text is safe. */
  lemma TagThenSafe(t: string, b: string)
    requires IsTag(t) && SafeHtml(b)
    ensures SafeHtml(t + b)
  {
    var r := t + b;
    assert r[..|t|] == t && r[|t|..] == b;
  }

  lemma {:induction false} SafeAppend(a: string, b: string)
    requires SafeHtml(a) && SafeHtml(b)
    ensures SafeHtml(a + b)
    decreases |a|
  {
    if a == [] {
      assert a + b == b;
    } else if PlainChar(a[0]) && SafeHtml(a[1..]) {
      SafeAppend(a[1..], b);
      assert (a + b)[1..] == a[1..] + b;
    } else if StartsWithUnit(a, 3) && SafeHtml(a[3..]) {
      SafeAppendAfterUnit(a, b, 3);
    } else if StartsWithUnit(a, 4) && SafeHtml(a[4..]) {
      SafeAppendAfterUnit(a, b, 4);
    } else if StartsWithUnit(a, 5) && SafeHtml(a[5..]) {
      SafeAppendAfterUnit(a, b, 5);
    } else if StartsWithUnit(a, 6) && SafeHtml(a[6..]) {
      SafeAppendAfterUnit(a, b, 6);
    } else {
      SafeAppendAfterUnit(a, b, 7);
    }
  }

  /** The tag and entity cases of `SafeAppend`. */
  lemma {:induction false} SafeAppendAfterUnit(a: string, b: string, n: nat)
    requires 0 < n && StartsWithUnit(a, n) && SafeHtml(a[n..]) && SafeHtml(b)
    ensures SafeHtml(a + b)
    decreases |a|, 0
  {
    var r := a + b;
    SafeAppend(a[n..], b);
    assert r[n..] == a[n..] + b;
    assert r[..n] == a[..n];
    assert StartsWithUnit(r, n);
  }

  lemma TagsAreSafe(c: char)
    requires IsMarker(c)
    ensures SafeHtml(OpenTag(c)) && SafeHtml(CloseTag(c))
  {
    TagThenSafe(OpenTag(c), []);
    TagThenSafe(CloseTag(c), []);
    assert OpenTag(c) + [] == OpenTag(c) && CloseTag(c) + [] == CloseTag(c);
  }

  /** The font pass turns an escaped word into safe HTML. */
  lemma FontWordIsSafe(w: string)
    requires Escaped(w)
    ensures SafeHtml(FontWord(w))
  {
    FontWordUnchangedIff(w);
    if Eligible(w) {
      var i, j :| Brackets(w, i, j);
      FontWordRewrites(w, i, j);
      RewriteIsSafe(w, i, j);
    } else {
      EscapedIsSafe(w);
    }
  }

  /** The parts written for a bracketed escaped word are safe. */
  lemma RewriteIsSafe(w: string, i: int, j: int)
    requires Escaped(w) && Brackets(w, i, j)
    ensures SafeHtml(w[..i] + OpenTag(w[i]) + Inner(w[i + 1..j + 1], w[i]) + CloseTag(w[i]) + w[j + 1..])
  {
    var c := w[i];
    var lead, body, trail := w[..i], Inner(w[i + 1..j + 1], c), w[j + 1..];
    RewritePartsEscaped(w, i, j);
    EscapedIsSafe(lead);
    EscapedIsSafe(body);
    EscapedIsSafe(trail);
    TagsAreSafe(c);
    SafeAppend(lead, OpenTag(c));
    SafeAppend(lead + OpenTag(c), body);
    SafeAppend(lead + OpenTag(c) + body, CloseTag(c));
    SafeAppend(lead + OpenTag(c) + body + CloseTag(c), trail);
  }

  /** The markers are not entity characters, so cutting an escaped word at
      its bracketing pair leaves the punctuation and the interior escaped. */
  lemma RewritePartsEscaped(w: string, i: int, j: int)
    requires Escaped(w) && Brackets(w, i, j)
    ensures Escaped(w[..i]) && Escaped(w[j + 1..])
    ensures Escaped(Inner(w[i + 1..j + 1], w[i]))
  {
    EscapedCut(w, i);
    EscapedCut(w, j + 1);
    InteriorEscaped(w, i, j);
    var u := w[i + 1..j + 1];
    assert u[|u| - 1] == w[j];
    InnerEscaped(u, w[i]);
  }

  /** The interior of a bracketing pair, closing marker included, is escaped. */
  lemma InteriorEscaped(w: string, i: int, j: int)
    requires Escaped(w) && Brackets(w, i, j)
    ensures Escaped(w[i + 1..j + 1])
  {
    EscapedCut(w, i + 1);
    var v := w[i + 1..];
    assert v[j - i - 1] == w[j];
    EscapedCut(v, j - i);
    assert v[..j - i] == w[i + 1..j + 1];
  }

  /** The tokens of escaped text are escaped: a change between whitespace
      and non-whitespace never falls inside an entity. */
  lemma {:induction false} RunsEscaped(t: string)
    requires Escaped(t)
    ensures forall k :: 0 <= k < |Runs(t)| ==> Escaped(Runs(t)[k])
    decreases |t|
  {
    if t != [] {
      var n := RunLength(t);
      assert n == |t| || IsSpace(t[n - 1]) != IsSpace(t[n]);
      EscapedCut(t, n);
      RunsEscaped(t[n..]);
      var ws := Runs(t);
      assert ws == [t[..n]] + Runs(t[n..]);
      forall k | 0 <= k < |ws| ensures Escaped(ws[k]) {
        if k > 0 {
          assert ws[k] == Runs(t[n..])[k - 1];
        }
      }
    }
  }

  lemma {:induction false} JoinIsSafe(ws: seq<string>)
    requires forall k :: 0 <= k < |ws| ==> SafeHtml(ws[k])
    ensures SafeHtml(Join(ws))
    decreases |ws|
  {
    if ws != [] {
      assert forall k :: 0 <= k < |ws[1..]| ==> SafeHtml(ws[1..][k]) by {
        forall k | 0 <= k < |ws[1..]| ensures SafeHtml(ws[1..][k]) {
          assert ws[1..][k] == ws[k + 1];
        }
      }
      JoinIsSafe(ws[1..]);
      SafeAppend(ws[0], Join(ws[1..]));
    }
  }

  /** The output of `style` is safe to embed: every `<` begins a tag of the
      font pass, every `&` begins an entity, and no quote is left unescaped. */
  lemma StyleIsSafe(s: string)
    ensures SafeHtml(Style(s))
  {
    var t := Html.Escape(s);
    var ws := Runs(t);
    FontIsPerToken(t);
    EscapeIsEscaped(s);
    RunsEscaped(t);
    var fs := FontTokens(ws);
    forall k | 0 <= k < |fs| ensures SafeHtml(fs[k]) {
      FontWordIsSafe(ws[k]);
    }
    JoinIsSafe(fs);
  }
}
