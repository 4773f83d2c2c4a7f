/** `importantify` of design/support.js: the declarations of a pseudo-class, each marked important. */
module Declarations {
  import opened Prelude
  import opened Spaces
  import opened PseudoCss

  function DepthAfter(c: char, depth: nat): nat {
    if c == '(' then depth + 1 else if c == ')' && depth > 0 then depth - 1 else depth
  }

  function Prepend(text: string, ps: seq<string>): (r: seq<string>)
    requires ps != []
    ensures |r| == |ps|
  {
    [text + ps[0]] + ps[1..]
  }

  /** The text cut at the semicolons outside quotes, unquoted urls and parentheses. */
  function Pieces(s: string, w: bool, depth: nat): (ps: seq<string>)
    ensures ps != []
    decreases |s|
  {
    if s == "" then [""]
    else if s[0] == ';' && depth == 0 then [""] + Pieces(s[1..], false, 0)
    else
      var n := Token(s, w);
      Prepend(s[..n], Pieces(s[n..], IsWord(s[n - 1]), DepthAfter(s[0], depth)))
  }

  /** The same, starting inside a quote or not. */
  function PiecesFrom(s: string, quote: Option<char>, w: bool, depth: nat): (ps: seq<string>)
    ensures ps != []
  {
    if quote.None? then Pieces(s, w, depth)
    else
      var n := Until(s, quote.value);
      Prepend(s[..n], Pieces(s[n..], false, depth))
  }

  predicate SameLetters(s: string, lower: string) {
    |s| == |lower| && forall i :: 0 <= i < |s| ==>
      s[i] == lower[i] || ('A' <= s[i] <= 'Z' && s[i] + 32 as char == lower[i])
  }

  /** The text ends in an exclamation mark, white space and the word important. */
  predicate IsImportant(d: string) {
    |d| >= 9 && SameLetters(d[|d| - 9..], "important")
    && var before := TrimRight(d[..|d| - 9]); before != "" && before[|before| - 1] == '!'
  }

  function Marked(d: string): string {
    if IsImportant(d) then d else d + " !important"
  }

  /** Trimmed, without the empty ones, each marked important. */
  function Finish(ps: seq<string>): seq<string> {
    if ps == [] then []
    else
      var d := Trim(ps[0]);
      (if d == "" then [] else [Marked(d)]) + Finish(ps[1..])
  }

  function Join(ds: seq<string>): string {
    if ds == [] then "" else if |ds| == 1 then ds[0] else ds[0] + (";" + Join(ds[1..]))
  }

  function Important(css: string): string {
    Join(Finish(Pieces(Strip(css, false), false, 0)))
  }

  lemma PrependTwice(a: string, b: string, ps: seq<string>)
    requires ps != []
    ensures Prepend(a, Prepend(b, ps)) == Prepend(a + b, ps)
  {
    assert a + (b + ps[0]) == a + b + ps[0];
  }

  lemma PrependNothing(ps: seq<string>)
    requires ps != []
    ensures Prepend("", ps) == ps
  {
    assert "" + ps[0] == ps[0];
  }

  lemma InsideQuoteOn(s: string, quote: char, w: bool, depth: nat, n: nat, rest: string)
    requires quote != '\\' && 0 < n <= |s| && rest == s[n..]
    requires if s[0] == '\\' then n == (if |s| == 1 then 1 else 2) else n == 1 && s[0] != quote
    ensures PiecesFrom(s, Some(quote), w, depth) == Prepend(s[..n], PiecesFrom(rest, Some(quote), w, depth))
  {
    var m := Until(rest, quote);
    assert Until(s, quote) == n + m;
    SplitTwice(s, n, m);
    PrependTwice(s[..n], rest[..m], Pieces(rest[m..], false, depth));
  }

  lemma QuoteIsToken(s: string, w: bool)
    requires s != "" && IsQuote(s[0])
    ensures var n := Token(s, w); n == 1 + Until(s[1..], s[0]) && (n < |s| ==> !IsWord(s[n - 1]))
  {
    QuoteEnds(s[1..], s[0]);
  }

  lemma PiecesStep(s: string, w: bool, depth: nat, n: nat, rest: string, w': bool, depth': nat, after: seq<string>)
    requires s != "" && !(s[0] == ';' && depth == 0) && n == Token(s, w) && rest == s[n..]
    requires w' == IsWord(s[n - 1]) && depth' == DepthAfter(s[0], depth) && after == Pieces(rest, w', depth')
    ensures Pieces(s, w, depth) == Prepend(s[..n], after)
  {
  }

  lemma WordIsOver(rest: string, w: bool, depth: nat)
    requires rest == "" || !w
    ensures Pieces(rest, w, depth) == Pieces(rest, false, depth)
  {
  }

  lemma QuotedPiece(s: string, w: bool, depth: nat, n: nat, rest: string)
    requires s != "" && IsQuote(s[0]) && n == Token(s, w) && rest == s[n..]
    ensures Pieces(s, w, depth) == Prepend(s[..n], Pieces(rest, false, depth))
  {
    var w' := IsWord(s[n - 1]);
    QuoteIsToken(s, w);
    WordIsOver(rest, w', depth);
    PiecesStep(s, w, depth, n, rest, w', depth, Pieces(rest, false, depth));
  }

  lemma QuoteOpensOn(s: string, w: bool, w': bool, depth: nat, rest: string, m: nat)
    requires s != "" && IsQuote(s[0]) && rest == s[1..] && m == Until(rest, s[0])
    ensures PiecesFrom(s, None, w, depth) == Prepend([s[0]], PiecesFrom(rest, Some(s[0]), w', depth))
  {
    SplitTwice(s, 1, m);
    QuotedPiece(s, w, depth, 1 + m, rest[m..]);
    assert s[..1] == [s[0]];
    PrependTwice([s[0]], rest[..m], Pieces(rest[m..], false, depth));
  }

  lemma CutOn(s: string, w: bool)
    requires s != "" && s[0] == ';'
    ensures PiecesFrom(s, None, w, 0) == [""] + PiecesFrom(s[1..], None, false, 0)
  {
  }

  // ---------------------------------------------------------------- the loop

  ghost predicate TurnsTo(before: seq<string>, cut: bool, text: string, after: seq<string>)
    requires after != []
  {
    before == if cut then [""] + after else Prepend(text, after)
  }

  lemma TokenOn(s: string, w: bool, depth: nat, n: nat, text: string, rest: string, w': bool, depth': nat)
    requires s != "" && !(s[0] == ';' && depth == 0) && n == Token(s, w) && text == s[..n] && rest == s[n..]
    requires w' == IsWord(s[n - 1]) && depth' == DepthAfter(s[0], depth)
    ensures TurnsTo(PiecesFrom(s, None, w, depth), false, text, PiecesFrom(rest, None, w', depth'))
  {
  }

  lemma PlainTurn(css: string, i: nat, depth: nat, i': nat)
    requires i < i' <= |css| && !(css[i] == ';' && depth == 0) && i' == i + Token(css[i..], WordAt(css, i))
    ensures TurnsTo(PiecesFrom(css[i..], None, WordAt(css, i), depth), false, css[i..i'],
                    PiecesFrom(css[i'..], None, WordAt(css, i'), DepthAfter(css[i], depth)))
  {
    assert css[i..][i' - i..] == css[i'..] && css[i..][..i' - i] == css[i..i'];
    TokenOn(css[i..], WordAt(css, i), depth, i' - i, css[i..i'], css[i'..], WordAt(css, i'), DepthAfter(css[i], depth));
  }

  lemma OpeningTurn(css: string, i: nat, depth: nat)
    requires i < |css| && IsQuote(css[i])
    ensures TurnsTo(PiecesFrom(css[i..], None, WordAt(css, i), depth), false, css[i..i + 1],
                    PiecesFrom(css[i + 1..], Some(css[i]), WordAt(css, i + 1), depth))
  {
    assert css[i..][1..] == css[i + 1..] && css[i..i + 1] == [css[i]];
    QuoteOpensOn(css[i..], WordAt(css, i), WordAt(css, i + 1), depth, css[i + 1..], Until(css[i + 1..], css[i]));
  }

  lemma CutTurn(css: string, i: nat)
    requires i < |css| && css[i] == ';'
    ensures TurnsTo(PiecesFrom(css[i..], None, WordAt(css, i), 0), true, css[i..i + 1],
                    PiecesFrom(css[i + 1..], None, WordAt(css, i + 1), 0))
  {
    assert css[i..][1..] == css[i + 1..];
    CutOn(css[i..], WordAt(css, i));
  }

  lemma QuotedTurn(css: string, i: nat, quote: char, depth: nat, i': nat)
    requires i < i' <= |css| && IsQuote(quote) && css[i] != quote
    requires i' == if css[i] == '\\' && i + 1 < |css| then i + 2 else i + 1
    ensures TurnsTo(PiecesFrom(css[i..], Some(quote), WordAt(css, i), depth), false, css[i..i'],
                    PiecesFrom(css[i'..], Some(quote), WordAt(css, i'), depth))
  {
    assert css[i..][i' - i..] == css[i'..] && css[i..][..i' - i] == css[i..i'];
    InsideQuoteOn(css[i..], quote, WordAt(css, i), depth, i' - i, css[i'..]);
  }

  lemma ClosingTurn(css: string, i: nat, depth: nat)
    requires i < |css| && IsQuote(css[i])
    ensures TurnsTo(PiecesFrom(css[i..], Some(css[i]), WordAt(css, i), depth), false, css[i..i + 1],
                    PiecesFrom(css[i + 1..], None, WordAt(css, i + 1), depth))
  {
    assert css[i..][1..] == css[i + 1..] && css[i..i + 1] == [css[i]] && css[i..][..1] == [css[i]];
  }

  method TurnPlain(css: string, i: nat, depth: nat) returns (depth': nat, i': nat)
    requires i < |css| && !IsQuote(css[i]) && !(css[i] == ';' && depth == 0)
    ensures i < i' <= |css|
    ensures TurnsTo(PiecesFrom(css[i..], None, WordAt(css, i), depth), false, css[i..i'],
                    PiecesFrom(css[i'..], None, WordAt(css, i'), depth'))
  {
    depth', i' := depth, i + 1;
    if css[i] == '(' {
      depth' := depth + 1;
    } else if css[i] == ')' {
      depth' := if depth - 1 > 0 then depth - 1 else 0;
    } else {
      var end := ScanUnquotedUrl(css, i);
      if end.Some? {
        i' := end.value;
      }
    }
    PlainTurn(css, i, depth, i');
  }

  /** One turn of the loop. */
  method Turn(css: string, i: nat, quote: Option<char>, depth: nat)
    returns (cut: bool, quote': Option<char>, depth': nat, i': nat)
    requires i < |css| && (quote.Some? ==> IsQuote(quote.value))
    ensures i < i' <= |css| && (quote'.Some? ==> IsQuote(quote'.value)) && (cut ==> i' == i + 1)
    ensures TurnsTo(PiecesFrom(css[i..], quote, WordAt(css, i), depth), cut, css[i..i'],
                    PiecesFrom(css[i'..], quote', WordAt(css, i'), depth'))
  {
    cut, quote', depth', i' := false, quote, depth, i + 1;
    var c := css[i];
    if quote.Some? {
      if c == '\\' {
        i' := if i + 1 < |css| then i + 2 else i + 1;
        QuotedTurn(css, i, quote.value, depth, i');
      } else if c == quote.value {
        quote' := None;
        ClosingTurn(css, i, depth);
      } else {
        QuotedTurn(css, i, quote.value, depth, i');
      }
    } else if IsQuote(c) {
      quote' := Some(c);
      OpeningTurn(css, i, depth);
    } else if c == ';' && depth == 0 {
      cut := true;
      CutTurn(css, i);
    } else {
      depth', i' := TurnPlain(css, i, depth);
    }
  }

  lemma TurnTaken(all: seq<string>, decls: seq<string>, css: string, start: nat, i: nat, i': nat, before: seq<string>,
                  cut: bool, after: seq<string>)
    requires start <= i <= i' <= |css| && before != [] && after != []
    requires all == decls + Prepend(css[start..i], before) && TurnsTo(before, cut, css[i..i'], after)
    ensures all == if cut then decls + [css[start..i]] + Prepend(css[i'..i'], after)
                   else decls + Prepend(css[start..i'], after)
  {
    if cut {
      assert css[i'..i'] == "" && css[start..i] + "" == css[start..i];
      PrependNothing(after);
    } else {
      assert css[start..i] + css[i..i'] == css[start..i'];
      PrependTwice(css[start..i], css[i..i'], after);
    }
  }

  lemma NothingLeft(all: seq<string>, decls: seq<string>, text: string, quote: Option<char>, w: bool, depth: nat)
    requires all == decls + Prepend(text, PiecesFrom("", quote, w, depth))
    ensures all == decls + [text]
  {
    var none := "";
    assert none[..0] == none && none[0..] == none && none + none == none && text + none == text;
    assert PiecesFrom("", quote, w, depth) == [none];
  }

  method Split(css: string) returns (decls: seq<string>)
    ensures decls == Pieces(css, false, 0)
  {
    decls := [];
    var start, depth, quote, i := 0, 0, None, 0;
    assert css[0..] == css;
    ghost var rest := Pieces(css, false, 0);
    PrependNothing(rest);
    while i < |css|
      invariant 0 <= start <= i <= |css|
      invariant quote.Some? ==> IsQuote(quote.value)
      invariant rest == PiecesFrom(css[i..], quote, WordAt(css, i), depth)
      invariant Pieces(css, false, 0) == decls + Prepend(css[start..i], rest)
      decreases |css| - i
    {
      var cut, quote', depth', i' := Turn(css, i, quote, depth);
      ghost var rest' := PiecesFrom(css[i'..], quote', WordAt(css, i'), depth');
      TurnTaken(Pieces(css, false, 0), decls, css, start, i, i', rest, cut, rest');
      if cut {
        decls := decls + [css[start..i]];
        start := i + 1;
      }
      quote, depth, i := quote', depth', i';
      rest := rest';
    }
    assert css[i..] == "" && css[start..i] == css[start..];
    NothingLeft(Pieces(css, false, 0), decls, css[start..], quote, WordAt(css, i), depth);
    decls := decls + [css[start..]];
  }

  method Importantify(css: string) returns (out: string)
    ensures out == Important(css)
  {
    var text := StripComments(css);
    var decls := Split(text);
    out := Join(Finish(decls));
  }
}
