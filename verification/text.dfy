/**
 This module holds what the markup pass of `present/style.go` takes from Go's
 standard library: the whitespace class of `unicode.IsSpace`, the search
 `strings.LastIndex`, and `strings.Join` with an empty
 separator. Strings are sequences of runes.
 */
module Text {

  /** Go's `unicode.IsSpace`: the Latin-1 spaces (tab, line feed, vertical
      tab, form feed, carriage return, space, NEL, NBSP) and, above Latin-1,
      the characters with the Unicode White_Space property. */
  predicate IsSpace(ch: char) {
    || ('\t' <= ch <= '\r') || ch == ' ' || ch == '\U{85}' || ch == '\U{A0}'
    || ch == '\U{1680}' || ('\U{2000}' <= ch <= '\U{200A}')
    || ch == '\U{2028}' || ch == '\U{2029}' || ch == '\U{202F}' || ch == '\U{205F}' || ch == '\U{3000}'
  }

  /** `strings.LastIndex(s, string(c))`: the index of the last occurrence of
      `c` in `s`, or -1 when `c` does not occur. */
  function LastIndex(s: string, c: char): (r: int)
    ensures -1 <= r < |s|
    ensures r == -1 <==> c !in s
    ensures 0 <= r ==> s[r] == c && forall k :: r < k < |s| ==> s[k] != c
  {
    if s == [] then -1
    else if s[|s| - 1] == c then |s| - 1
    else LastIndex(s[..|s| - 1], c)
  }

  /** Concatenation regroups freely; a step the verifier often needs spelled out. */
  lemma Associative<T>(a: seq<T>, b: seq<T>, c: seq<T>)
    ensures a + b + c == a + (b + c)
  {
  }

  /** `strings.Join(ws, "")`: the concatenation of the strings of `ws`. */
  function Join(ws: seq<string>): string {
    if ws == [] then [] else ws[0] + Join(ws[1..])
  }

  lemma {:induction false} JoinAppend(ws: seq<string>, vs: seq<string>)
    ensures Join(ws + vs) == Join(ws) + Join(vs)
    decreases |ws|
  {
    if ws == [] {
      assert ws + vs == vs;
    } else {
      assert (ws + vs)[1..] == ws[1..] + vs;
      JoinAppend(ws[1..], vs);
    }
  }

  /** Every character of a joined string is a character of the join. */
  lemma {:induction false} JoinHas(ws: seq<string>, k: nat, m: nat)
    requires k < |ws| && m < |ws[k]|
    ensures ws[k][m] in Join(ws)
    decreases k
  {
    assert Join(ws) == ws[0] + Join(ws[1..]);
    if k == 0 {
      assert Join(ws)[m] == ws[0][m];
    } else {
      assert ws[k] == ws[1..][k - 1];
      JoinHas(ws[1..], k - 1, m);
    }
  }
}
