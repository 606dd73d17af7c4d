# The font markup of `present`

The `present` tool turns slide text into HTML. Before a line of text is
written out it goes through `style`, which escapes the five HTML special
characters and then runs the font pass `font`. `font` cuts the text into
runs of whitespace and runs of non-whitespace (`split`). It then rewrites
each run that is bracketed by a font marker:

- `_` for italic (`<i>`),
- `*` for bold (`<b>`),
- a back quote for fixed width (`<code>`).

Only punctuation may stand outside the two markers. Inside them, a lone
marker becomes a space and a doubled marker becomes one literal marker.
Every other run is left as it is. The runs are then joined back together.

This project models those three functions in Dafny and proves what they
promise. Strings are sequences of runes.

- `Text` holds what the code takes from Go's standard library:
  `unicode.IsSpace`, `strings.LastIndex` and `strings.Join` with an empty
  separator.
- `Tokenizer` holds `split`. `Split` is the loop of the Go code. `Runs` is a
  recursive reference definition of the same decomposition. The lemmas show
  that the loop computes `Runs` and that `Runs` is the only decomposition
  into maximal alternating runs.
- `Html` holds `html.EscapeString`, with an `Unescape` partner and the round
  trip between them.
- `Markup` holds `font` and `style`:
  - `Scan` follows the guards of the loop body in the order the Go code tests them;
  - `Inner` and the method `WriteBody` model the rewrite of the interior;
  - `FontWord` models the rewrite of one token, and `Font` and `Style` the
    whole functions.
  The lemmas cover:
  - exactly which words are rewritten, and into what;
  - the cases that leave a word unchanged;
  - that the interior rewrite undoes the way an author writes a styled word;
  - that the early return for marker-free text agrees with the full path;
  - that tokens are styled independently;
  - that the output of `style` is safe HTML: every `<` begins one of the
    six tags, every `&` begins one of the five entities escaping writes, and
    no quote is left.

Strings here are sequences of runes, while Go indexes bytes. Every index
`present/style.go` computes points at an ASCII marker or lies between whole runes, so
the two views agree:

- `IndexAny`, `LastIndex`, the slices `word[:first]` and `word[first:]`, and
  the body loop's `head[i+1]` look-ahead all work the same on runes. A
  non-ASCII rune's first byte is never a marker.
- The `len(word) < 2` guard can give a different answer on runes only for a
  word made of one multi-byte rune. Such a word holds no marker, so it is
  left unchanged either way.

The punctuation set of `font` contains the single and the double quote.
Through `style`, though, they never act as punctuation. `style` escapes them
to `&#39;` and `&#34;` before `font` sees them, and `&` is not punctuation,
so a quoted word such as `"*bold*"` comes out escaped but not bold.
`Markup.StyleKeepsEscapeLedWord` states this for every word that starts with
a character escaping replaces.

## Model

| member | source | states |
|---|---|---|
| Tokenizer.Split | present/style.go:114-130 | the loop of `split` returns the maximal runs of its input: they rejoin to the input, each is a non-empty run of one category, neighbours differ in category, and the result is empty exactly when the input is |
| Tokenizer.RunLength | present/style.go:118-125 | the first token is the longest prefix in one category: it is non-empty and uniform, and the next character, if any, is of the other category |
| Tokenizer.SplitStep | present/style.go:120-123 | a cut at a change of category emits the run since `mark` as the next token and leaves the rest to be split the same way |
| Tokenizer.SplitLast | present/style.go:126-128 | the run left when the loop ends is the last token |
| Tokenizer.RunsDecompose | present/style.go:114-130 | the tokens are lossless (they rejoin to the text), each is non-empty and all whitespace or all non-whitespace, and categories alternate |
| Tokenizer.RunDecompositionUnique | present/style.go:114-130 | any decomposition into non-empty uniform tokens with alternating categories is the one `split` returns |
| Tokenizer.Runs | present/style.go:114-130 | the recursive reference decomposition; see RunsDecompose, RunDecompositionUnique, RunsAppend and Split |
| Tokenizer.DecompositionAppend | present/style.go:114-130 | two decompositions that meet at a change of category form a decomposition of the concatenation |
| Tokenizer.RunsAppend | present/style.go:114-130 | where two texts meet at a change of category, the tokens of the whole are the tokens of the first text followed by those of the second |
| Text.IsSpace | present/style.go:119 | `unicode.IsSpace`; see Tokenizer.RunLength, Markup.MarkerIsNotSpace and Markup.KeepsWhitespace |
| Text.Join | present/style.go:110 | `strings.Join` with an empty separator; see JoinAppend and JoinHas |
| Text.JoinHas | present/style.go:110 | every character of a token is a character of the joined string |
| Text.LastIndex | present/style.go:75 | the index of the last occurrence of a character, with no occurrence after it, or -1 exactly when it does not occur |
| Text.JoinAppend | present/style.go:110 | joining two token lists one after the other is joining each and concatenating |
| Html.Escape | present/style.go:30 | `html.EscapeString` leaves no angle bracket and no quote in its result and never shortens the text |
| Html.UnescapeEscape | present/style.go:30 | escaping loses nothing: undoing the five replacements gives the original text back |
| Html.EscapeAppend | present/style.go:30 | escaping works character by character: the escape of a concatenation is the concatenation of the escapes |
| Html.EscapePlain | present/style.go:30 | text without any of the five special characters is left unchanged by escaping |
| Markup.FirstMarker | present/style.go:48 | the index of the first of the three markers with none before it, or -1 exactly when the word holds none |
| Markup.IsMarker | present/style.go:46 | the three markers; see FirstMarker, MarkerIsNotSpace and EscapeKeepsMarkers |
| Markup.IsPunctuation | present/style.go:45 | the punctuation set; see PunctuationIsPlain, AmpersandLedIneligible and BracketsShape |
| Markup.OpenTag | present/style.go:61-73 | the opening tag of a marker; see CloseTag and TagsAreSafe |
| Markup.CloseTag | present/style.go:61-73 | the closing tag of a marker closes the element its opening tag opens |
| Markup.Inner | present/style.go:88-105 | the rewrite of the interior; see InnerStep, WriteBody, InnerEncode, InnerPlain and InnerCopies |
| Markup.InnerStep | present/style.go:91-104 | unfolds `Inner` at index `i` of `head`, a helper for WriteBody; one step of the body loop: an ordinary character is copied, a marker not followed by the marker becomes a space, and a doubled marker becomes one marker and consumes two characters |
| Markup.WriteBody | present/style.go:85-105 | the index loop of `present/style.go` over `head` produces the interior rewrite of the text between the opening and the closing marker |
| Markup.InnerEncode | present/style.go:16-27 | the interior rewrite inverts how an author writes styled text, with a lone marker for each space and a doubled marker for each marker, for any text that does not end in a space and has no space followed by a space or by the marker |
| Markup.InnerPlain | present/style.go:91-95 | an interior without the marker is copied unchanged |
| Markup.Scan | present/style.go:42-84 | when the guards pass, the positions they find bracket the word: the same marker at both, and only punctuation before the first and after the second |
| Markup.ScanFinds | present/style.go:48-84 | for any bracketing pair, the guards find exactly that pair: only punctuation before it makes it the first marker, and only punctuation after it makes it the last occurrence |
| Markup.FontWord | present/style.go:41-108 | the rewrite of one token; see FontWordUnchangedIff, FontWordRewrites, BracketedIsRewritten and RewrittenIsBracketed |
| Markup.Rewrite | present/style.go:85-107 | the text written for a bracketed word; see FontWordRewrites and RewriteIsSafe |
| Markup.FontWordRewrites | present/style.go:58-108 | a bracketed word becomes its leading punctuation, the opening tag, the rewritten interior, the closing tag and its trailing punctuation |
| Markup.RewrittenIsBracketed | present/style.go:42-84 | a word the loop changes passed every guard, so its first marker and that marker's last occurrence bracket it |
| Markup.BracketedIsRewritten | present/style.go:85-108 | a bracketed word is always changed |
| Markup.FontWordUnchangedIff | present/style.go:42-108 | a word is left as it is if and only if no pair of positions brackets it |
| Markup.KeepsShort | present/style.go:42-44 | a word shorter than two characters is left as it is |
| Markup.MarkerFreeWord | present/style.go:48-51 | a word without a marker is left as it is |
| Markup.KeepsNonPunctuationLead | present/style.go:52-57 | a word with a non-punctuation character before its first marker is left as it is |
| Markup.KeepsLoneMarker | present/style.go:75-78 | a word whose first marker does not occur again is left as it is |
| Markup.KeepsNonPunctuationTrail | present/style.go:79-84 | a word with a non-punctuation character after the last occurrence of its first marker is left as it is |
| Markup.KeepsWhitespace | present/style.go:41-51 | a whitespace token holds no marker and passes through unchanged |
| Markup.BracketsShape | present/style.go:42-84 | a bracketing pair starts at the first marker of a word of two or more characters, has only punctuation before it, and has only punctuation and no further occurrence of the marker after it |
| Markup.EncodeAppend | present/style.go:16-27 | writing styled text the way an author does works character by character over a concatenation |
| Markup.StyledWordRoundTrip | present/style.go:16-27 | writing a text between two markers, with punctuation outside them, and styling it gives the text between the tags with the punctuation kept outside |
| Markup.FontTokens | present/style.go:41-109 | the loop keeps the number and the order of the tokens, and puts each token's own rewrite in its place |
| Markup.FontTokensAppend | present/style.go:41-109 | rewriting two token lists one after the other is rewriting each |
| Markup.Font | present/style.go:34-111 | `font`; see FontIsPerToken, MarkerFreeUnchanged, FontSplits, FontOfRun and ExampleItalic |
| Markup.MarkerFreeUnchanged | present/style.go:35-37 | for text without a marker, splitting, rewriting and joining returns the text, so the early return agrees with the full path |
| Markup.FontIsPerToken | present/style.go:34-111 | `font` is the join of the rewrites of the runs of its input, whether or not it takes the early return |
| Markup.FontSplits | present/style.go:38-110 | where the text changes between whitespace and non-whitespace, `font` of the whole is `font` of each part, concatenated |
| Markup.FontOfRun | present/style.go:38-110 | `font` of a text that is one run is the rewrite of that run as a word |
| Markup.ExampleBoldWithPunctuation | present/style.go:74-107 | `*bold*!` becomes `<b>bold</b>!`: trailing punctuation stays outside the tags |
| Markup.ExampleInnerMarker | present/style.go:96-99 | `_a_b_` becomes `<i>a b</i>`: a lone inner marker becomes a space |
| Markup.ExampleDoubledMarker | present/style.go:101-104 | `_a__b_` becomes `<i>a_b</i>`: a doubled marker becomes one marker |
| Markup.ExampleDoubledClosingMarker | present/style.go:101-104 | `_x__` becomes `<i>x_</i>`: the look-ahead takes the closing marker as the second half of a doubled marker |
| Markup.ExampleMixedMarkers | present/style.go:88-95 | `_a*b_` becomes `<i>a*b</i>`: only the first marker's kind pairs, and other markers are text |
| Markup.ExampleThreeWords | present/style.go:20-26 | three words joined by lone markers between two markers, with `!` after them, become the words joined by spaces in italics with `!` after the closing tag |
| Markup.ExampleItalic | present/style.go:20-26 | `font` turns `_this_is_italic_!` into `<i>this is italic</i>!` |
| Markup.ExampleLoneMarker | present/style.go:75-78 | `_word` is left as it is |
| Markup.AmpersandLedIneligible | present/style.go:45-57 | a word starting with `&`, which is neither a marker nor punctuation, is never bracketed |
| Markup.AmpersandLedKept | present/style.go:45-57 | a word starting with `&` is left as it is |
| Markup.Style | present/style.go:29-31 | `style`; see StyleIsSafe and StyleKeepsEscapeLedWord |
| Markup.StyleKeepsEscapeLedWord | present/style.go:29-31 | a single word that starts with a character escaping replaces comes out of `style` escaped and unstyled, whatever markers it holds |
| Markup.EscapeKeepsText | present/style.go:29-31 | escaping a run of non-whitespace gives a run of non-whitespace, so escaping does not change how `split` sees a word |
| Markup.EscapeKeepsMarkers | present/style.go:29-31 | escaping neither adds nor removes a marker, so no marker comes from an entity |
| Markup.FontWordIsSafe | present/style.go:58-108 | the rewrite of an escaped word (plain characters and whole entities) is plain characters, entities and the six tags |
| Markup.RewriteIsSafe | present/style.go:85-107 | the parts written for a bracketed escaped word (punctuation, tag, interior, tag, punctuation) together form safe HTML |
| Markup.StyleIsSafe | present/style.go:29-31 | the output of `style` is plain characters, entities and the six tags: every `<` begins a tag of the font pass, every `&` begins an entity, and no quote is left unescaped |
| Markup.BareAmpersandIsUnsafe | present/style.go:29-31 | safe HTML rules out an `&` that does not begin one of the five entities |
| Markup.EscapeIsEscaped | present/style.go:30 | `html.EscapeString` writes plain characters and whole entities only |
| Markup.EscapedCut | present/style.go:58-79 | escaped text cut where the characters on the two sides are not both entity characters, as at a marker, leaves two escaped pieces |
| Markup.RunsEscaped | present/style.go:114-130 | the tokens `split` makes of escaped text are escaped: a change between whitespace and non-whitespace never falls inside an entity |
| Markup.InnerEscaped | present/style.go:88-105 | the body loop keeps escaped text escaped: entities hold no marker and are copied whole |
| Markup.InnerCopies | present/style.go:91-94 | the body loop copies characters other than the marker and goes on with the rest |

## Left out

- Invalid UTF-8 is left out. Strings are sequences of runes, so a malformed
  byte sequence, which Go decodes as U+FFFD, cannot be stated.
- Byte indices are left out. Indices are on runes, and the description above
  explains why this gives the same results.
- The reuse of one `bytes.Buffer` across words and the in-place update of
  `words[w]` are modelled as pure functions that build new strings.
- The `default` branch of the switch on the marker (line 62) cannot be
  reached, because `char` is always one of the three markers. `OpenTag` and
  `CloseTag` require a marker instead.
- The conversion to `template.HTML` changes only the Go type, so `Style`
  returns a plain string. `Markup.StyleIsSafe` states the safety that the
  conversion asserts.
- Text.IsSpace: `unicode.IsSpace` is written out as its Latin-1 list and the
  Unicode White_Space characters above it. The Unicode tables themselves are
  not part of this model.
- Html.Escape: `html.EscapeString` is written out as its five replacements.
  `Html.Unescape` undoes only those five. It is a partner for the round trip,
  not a model of Go's `html.UnescapeString`, which knows every named entity.
- The initial capacity of ten in `split` affects only allocation.
