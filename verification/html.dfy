/**
 Go's `html.EscapeString`, which `style` applies before the markup pass: it
 replaces the five characters `<`, `>`, `&`, `'` and `"` by the entities
 `&lt;`, `&gt;`, `&amp;`, `&#39;` and `&#34;` and copies every other
 character. `Unescape` undoes exactly these five replacements.
 */
module Html {

  /** The characters escaping removes from text. */
  predicate IsSpecial(ch: char) {
    ch == '<' || ch == '>' || ch == '&' || ch == '\'' || ch == '"'
  }

  function EscapeChar(ch: char): (e: string)
    ensures !IsSpecial(ch) ==> e == [ch]
    ensures forall k :: 0 <= k < |e| ==> e[k] != '<' && e[k] != '>' && e[k] != '\'' && e[k] != '"'
  {
    match ch
    case '<' => "&lt;"
    case '>' => "&gt;"
    case '&' => "&amp;"
    case '\'' => "&#39;"
    case '"' => "&#34;"
    case _ => [ch]
  }

  /** `html.EscapeString`. The result holds no angle bracket and no quote. */
  function Escape(s: string): (r: string)
    ensures forall k :: 0 <= k < |r| ==> r[k] != '<' && r[k] != '>' && r[k] != '\'' && r[k] != '"'
    ensures |r| >= |s|
    decreases |s|
  {
    if s == [] then [] else EscapeChar(s[0]) + Escape(s[1..])
  }

  /** Replaces the five entities of `Escape` by the characters they stand
      for, scanning from the left; any other text is copied. */
  function Unescape(t: string): string
    decreases |t|
  {
    if t == [] then []
    else if "&lt;" <= t then ['<'] + Unescape(t[4..])
    else if "&gt;" <= t then ['>'] + Unescape(t[4..])
    else if "&amp;" <= t then ['&'] + Unescape(t[5..])
    else if "&#39;" <= t then ['\''] + Unescape(t[5..])
    else if "&#34;" <= t then ['"'] + Unescape(t[5..])
    else [t[0]] + Unescape(t[1..])
  }

  /** Escaping loses nothing: unescaping its result gives the text back. */
  lemma {:induction false} UnescapeEscape(s: string)
    ensures Unescape(Escape(s)) == s
    decreases |s|
  {
    if s != [] {
      UnescapeEscape(s[1..]);
      UnescapeFirst(s[0], Escape(s[1..]));
      assert s == [s[0]] + s[1..];
    }
  }

  /** `Unescape` reads the escape of one character back, then goes on with
      what follows. */
  lemma UnescapeFirst(ch: char, rest: string)
    ensures Unescape(EscapeChar(ch) + rest) == [ch] + Unescape(rest)
  {
    var e := EscapeChar(ch);
    var t := e + rest;
    assert t[|e|..] == rest;
    if IsSpecial(ch) {
      assert e <= t;
      assert t[0] == '&' && t[1..|e|] == e[1..];
      if ch == '>' {
        assert !("&lt;" <= t) by { assert t[1] == 'g'; }
      } else if ch == '&' {
        assert !("&lt;" <= t) && !("&gt;" <= t) by { assert t[1] == 'a'; }
      } else if ch == '\'' {
        assert !("&lt;" <= t) && !("&gt;" <= t) && !("&amp;" <= t) by { assert t[1] == '#'; }
      } else if ch == '"' {
        assert !("&lt;" <= t) && !("&gt;" <= t) && !("&amp;" <= t) by { assert t[1] == '#'; }
        assert !("&#39;" <= t) by { assert t[2] == '3' && t[3] == '4'; }
      }
    } else {
      assert t[0] == ch && t[0] != '&';
      assert t[1..] == rest;
    }
  }

  /** Escaping works character by character. */
  lemma {:induction false} EscapeAppend(a: string, b: string)
    ensures Escape(a + b) == Escape(a) + Escape(b)
    decreases |a|
  {
    if a == [] {
      assert a + b == b;
    } else {
      assert (a + b)[1..] == a[1..] + b;
      EscapeAppend(a[1..], b);
    }
  }

  /** Text without the five characters is left as it is. */
  lemma {:induction false} EscapePlain(s: string)
    requires forall k :: 0 <= k < |s| ==> !IsSpecial(s[k])
    ensures Escape(s) == s
    decreases |s|
  {
    if s != [] {
      EscapePlain(s[1..]);
    }
  }
}
