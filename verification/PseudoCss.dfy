/** The scanners of design/support.js for the text of a pseudo-class: `scanUnquotedUrl` and
    `stripComments`. Each loop is proved equal to a function on the text that is left.
 */
module PseudoCss {
  import opened Prelude
  import opened Spaces

  predicate IsQuote(c: char) { c == '"' || c == '\'' }

  predicate IsWord(c: char) {
    'a' <= c <= 'z' || 'A' <= c <= 'Z' || '0' <= c <= '9' || c == '_' || c == '-'
  }

  /** A word goes on at i. */
  predicate WordAt(css: string, i: nat)
    requires i <= |css|
  {
    i > 0 && IsWord(css[i - 1])
  }

  // ---------------------------------------------------------------- tokens

  /** How much of s a quote or a url takes up that ends with `end`, with what a backslash escapes
      passed over; all of s where there is no such end. */
  function Until(s: string, end: char): (n: nat)
    ensures n <= |s|
  {
    if s == "" then 0
    else if s[0] == '\\' then (if |s| == 1 then 1 else 2 + Until(s[2..], end))
    else if s[0] == end then 1
    else 1 + Until(s[1..], end)
  }

  predicate IsComment(s: string) { |s| >= 2 && s[0] == '/' && s[1] == '*' }

  /** Up to the first star and slash, or all of s. */
  function UntilStar(s: string): (n: nat)
    ensures n <= |s|
  {
    if |s| < 2 then |s|
    else if s[0] == '*' && s[1] == '/' then 2
    else 1 + UntilStar(s[1..])
  }

  predicate StartsWithQuote(s: string) {
    var t := TrimLeft(s);
    t != "" && IsQuote(t[0])
  }

  predicate UrlHead(s: string) {
    && |s| >= 4
    && (s[0] == 'u' || s[0] == 'U') && (s[1] == 'r' || s[1] == 'R') && (s[2] == 'l' || s[2] == 'L') && s[3] == '('
    && !StartsWithQuote(s[4..])
  }

  /** An unquoted url starts here; `w` says that a word goes on here. */
  predicate IsUrl(s: string, w: bool) { !w && UrlHead(s) }

  /** The length of the first token: a quoted string, an unquoted url or a character. */
  function Token(s: string, w: bool): (n: nat)
    requires s != ""
    ensures 1 <= n <= |s|
  {
    if IsQuote(s[0]) then 1 + Until(s[1..], s[0])
    else if IsUrl(s, w) then 4 + Until(s[4..], ')')
    else 1
  }

  method SkipSpaces(css: string, i: nat) returns (j: nat)
    requires i <= |css|
    ensures i <= j <= |css| && TrimLeft(css[i..]) == css[j..]
    ensures Until(css[i..], ')') == j - i + Until(css[j..], ')')
  {
    j := i;
    while j < |css| && IsSpace(css[j])
      invariant i <= j <= |css|
      invariant TrimLeft(css[i..]) == TrimLeft(css[j..])
      invariant Until(css[i..], ')') == j - i + Until(css[j..], ')')
    {
      assert css[j..][1..] == css[j + 1..];
      j := j + 1;
    }
  }

  /** Passes over what a backslash escapes. */
  method ScanTo(css: string, i: nat, end: char) returns (r: nat)
    requires i <= |css| && end != '\\'
    ensures r == i + Until(css[i..], end)
  {
    var j := i;
    while j < |css| && css[j] != end
      invariant i <= j <= |css| + 1
      invariant j <= |css| ==> Until(css[i..], end) == j - i + Until(css[j..], end)
      invariant j > |css| ==> Until(css[i..], end) == |css| - i
      decreases |css| + 1 - j
    {
      assert j + 1 <= |css| ==> css[j..][1..] == css[j + 1..];
      assert j + 2 <= |css| ==> css[j..][2..] == css[j + 2..];
      if css[j] == '\\' {
        j := j + 1;
      }
      j := j + 1;
    }
    return if j < |css| then j + 1 else |css|;
  }

  method ScanUnquotedUrl(css: string, i: nat) returns (r: Option<nat>)
    requires i < |css|
    ensures r == if IsUrl(css[i..], WordAt(css, i)) then Some(i + Token(css[i..], false)) else None
  {
    if !(css[i] == 'u' || css[i] == 'U') || i + 4 > |css|
       || !((css[i + 1] == 'r' || css[i + 1] == 'R') && (css[i + 2] == 'l' || css[i + 2] == 'L') && css[i + 3] == '(')
       || WordAt(css, i) {
      return None;
    }
    assert css[i..][4..] == css[i + 4..];
    var j := SkipSpaces(css, i + 4);
    if j < |css| && IsQuote(css[j]) {
      return None;
    }
    j := ScanTo(css, j, ')');
    return Some(j);
  }

  // ---------------------------------------------------------------- comments

  /** What is kept of the first token or comment, its length, and whether a word goes on after it. */
  datatype Lexeme = Lexeme(kept: string, length: nat, word: bool)

  function First(s: string, w: bool): (l: Lexeme)
    requires s != ""
    ensures 1 <= l.length <= |s|
  {
    if IsComment(s) then Lexeme(" ", 2 + UntilStar(s[2..]), false)
    else
      var n := Token(s, w);
      Lexeme(s[..n], n, IsWord(s[n - 1]))
  }

  /** The text with each comment outside quotes and unquoted urls turned into a space. */
  function Strip(s: string, w: bool): string
    decreases |s|
  {
    if s == "" then ""
    else
      var l := First(s, w);
      l.kept + Strip(s[l.length..], l.word)
  }

  /** The first n characters as they are and the rest without comments. */
  function StripAfter(s: string, n: nat): string
    requires n <= |s|
  {
    s[..n] + Strip(s[n..], false)
  }

  lemma SplitTwice(s: string, n: nat, m: nat)
    requires n + m <= |s|
    ensures s[..n + m] == s[..n] + s[n..][..m] && s[n + m..] == s[n..][m..]
  {
  }

  lemma StripLater(s: string, n: nat, m: nat)
    requires n + m <= |s|
    ensures StripAfter(s, n + m) == s[..n] + StripAfter(s[n..], m)
  {
    SplitTwice(s, n, m);
    var rest := Strip(s[n + m..], false);
    assert s[..n + m] + rest == s[..n] + (s[n..][..m] + rest);
  }

  /** `Strip` for what is left, inside a quote or not. */
  function StripFrom(s: string, quote: Option<char>, w: bool): string {
    if quote.None? then Strip(s, w) else StripAfter(s, Until(s, quote.value))
  }

  /** A quote that does not run to the end of the text ends with its mark. */
  lemma {:induction false} QuoteEnds(s: string, end: char)
    requires end != '\\'
    ensures Until(s, end) < |s| ==> 0 < Until(s, end) && s[Until(s, end) - 1] == end
  {
    if s != "" {
      if s[0] == '\\' {
        if |s| > 1 {
          QuoteEnds(s[2..], end);
        }
      } else if s[0] != end {
        QuoteEnds(s[1..], end);
      }
    }
  }

  lemma QuotedToken(s: string, w: bool)
    requires s != "" && IsQuote(s[0])
    ensures Strip(s, w) == StripAfter(s, Token(s, w))
  {
    QuoteEnds(s[1..], s[0]);
  }

  lemma QuoteOpens(s: string, w: bool)
    requires s != "" && IsQuote(s[0])
    ensures Strip(s, w) == [s[0]] + StripFrom(s[1..], Some(s[0]), false)
  {
    QuotedToken(s, w);
    StripLater(s, 1, Until(s[1..], s[0]));
    assert s[..1] == [s[0]];
  }

  lemma FirstStripped(s: string, w: bool, kept: string, n: nat, rest: string, w': bool)
    requires s != "" && First(s, w).kept == kept && First(s, w).length == n && s[n..] == rest
    requires rest == "" || First(s, w).word == w'
    ensures Strip(s, w) == kept + Strip(rest, w')
  {
  }

  lemma UntilLater(s: string, quote: char, n: nat)
    requires quote != '\\' && 0 < n <= |s|
    requires if s[0] == '\\' then n == (if |s| == 1 then 1 else 2) else n == 1 && s[0] != quote
    ensures Until(s, quote) == n + Until(s[n..], quote)
  {
  }

  lemma InsideQuote(s: string, quote: char, n: nat)
    requires quote != '\\' && 0 < n <= |s|
    requires if s[0] == '\\' then n == (if |s| == 1 then 1 else 2) else n == 1 && s[0] != quote
    ensures StripFrom(s, Some(quote), false) == s[..n] + StripFrom(s[n..], Some(quote), false)
  {
    UntilLater(s, quote, n);
    StripLater(s, n, Until(s[n..], quote));
  }

  lemma QuoteCloses(s: string, quote: char)
    requires quote != '\\' && s != "" && s[0] == quote
    ensures StripFrom(s, Some(quote), false) == [quote] + StripFrom(s[1..], None, false)
  {
  }

  method FindStar(css: string, i: nat) returns (r: Option<nat>)
    requires i <= |css|
    ensures r.Some? ==> i + UntilStar(css[i..]) == r.value + 2 <= |css| && css[r.value + 1] == '/'
    ensures r.None? ==> i + UntilStar(css[i..]) == |css|
  {
    var j := i;
    while j + 1 < |css|
      invariant i <= j <= |css|
      invariant i + UntilStar(css[i..]) == j + UntilStar(css[j..])
    {
      if css[j] == '*' && css[j + 1] == '/' {
        return Some(j);
      }
      assert css[j..][1..] == css[j + 1..];
      j := j + 1;
    }
    return None;
  }

  lemma Regroup(all: string, out: string, rest: string, kept: string, rest': string)
    requires all == out + rest && rest == kept + rest'
    ensures all == (out + kept) + rest'
  {
  }

  lemma OpensAt(css: string, i: nat, w: bool)
    requires i < |css| && IsQuote(css[i])
    ensures Strip(css[i..], w) == [css[i]] + StripFrom(css[i + 1..], Some(css[i]), false)
  {
    assert css[i..][1..] == css[i + 1..];
    QuoteOpens(css[i..], w);
  }

  lemma StrippedAt(css: string, i: nat, w: bool, kept: string, i': nat)
    requires i < i' <= |css|
    requires var l := First(css[i..], w);
      kept == l.kept && i' == i + l.length && (i' < |css| ==> l.word == WordAt(css, i'))
    ensures Strip(css[i..], w) == kept + StripFrom(css[i'..], None, WordAt(css, i'))
  {
    assert css[i..][i' - i..] == css[i'..];
    FirstStripped(css[i..], w, kept, i' - i, css[i'..], WordAt(css, i'));
  }

  lemma ClosesAt(css: string, i: nat)
    requires i < |css| && IsQuote(css[i])
    ensures StripFrom(css[i..], Some(css[i]), WordAt(css, i)) ==
            css[i..i + 1] + StripFrom(css[i + 1..], None, WordAt(css, i + 1))
  {
    assert css[i..][1..] == css[i + 1..] && css[i..i + 1] == [css[i]];
    QuoteCloses(css[i..], css[i]);
  }

  lemma QuotedAt(css: string, i: nat, quote: char, i': nat)
    requires i < i' <= |css| && IsQuote(quote) && css[i] != quote
    requires i' == if css[i] == '\\' && i + 1 < |css| then i + 2 else i + 1
    ensures StripFrom(css[i..], Some(quote), WordAt(css, i)) ==
            css[i..i'] + StripFrom(css[i'..], Some(quote), WordAt(css, i'))
  {
    assert css[i..][..i' - i] == css[i..i'] && css[i..][i' - i..] == css[i'..];
    InsideQuote(css[i..], quote, i' - i);
  }

  method StripQuoted(css: string, i: nat, quote: char) returns (kept: string, quote': Option<char>, i': nat)
    requires i < |css| && IsQuote(quote)
    ensures i < i' <= |css| && (quote'.Some? ==> IsQuote(quote'.value))
    ensures StripFrom(css[i..], Some(quote), WordAt(css, i)) == kept + StripFrom(css[i'..], quote', WordAt(css, i'))
  {
    var c := css[i];
    if c == '\\' {
      i' := if i + 1 < |css| then i + 2 else i + 1;
    } else {
      i' := i + 1;
    }
    quote' := if c == quote then None else Some(quote);
    kept := css[i..i'];
    if c == quote {
      ClosesAt(css, i);
    } else {
      QuotedAt(css, i, quote, i');
    }
  }

  /** A comment, an unquoted url or a character outside quotes: what is kept of it, and where it ends. */
  method ScanPlain(css: string, i: nat) returns (kept: string, i': nat)
    requires i < |css| && !IsQuote(css[i])
    ensures i < i' <= |css|
    ensures var l := First(css[i..], WordAt(css, i));
      kept == l.kept && i' == i + l.length && (i' < |css| ==> l.word == WordAt(css, i'))
  {
    if css[i] == '/' && i + 1 < |css| && css[i + 1] == '*' {
      var end := FindStar(css, i + 2);
      assert css[i..][2..] == css[i + 2..];
      i' := if end.None? then |css| else end.value + 2;
      kept := " ";
    } else {
      var end := ScanUnquotedUrl(css, i);
      i' := if end.None? then i + 1 else end.value;
      kept := css[i..i'];
      assert css[i..][..i' - i] == css[i..i'];
    }
  }

  /** One turn of the loop: what is appended, whether a quote is open, and where it goes on. */
  method StripTurn(css: string, i: nat, quote: Option<char>) returns (kept: string, quote': Option<char>, i': nat)
    requires i < |css| && (quote.Some? ==> IsQuote(quote.value))
    ensures i < i' <= |css| && (quote'.Some? ==> IsQuote(quote'.value))
    ensures StripFrom(css[i..], quote, WordAt(css, i))
         == kept + StripFrom(css[i'..], quote', WordAt(css, i'))
  {
    if quote.Some? {
      kept, quote', i' := StripQuoted(css, i, quote.value);
    } else if IsQuote(css[i]) {
      kept, quote', i' := [css[i]], Some(css[i]), i + 1;
      OpensAt(css, i, WordAt(css, i));
    } else {
      kept, i' := ScanPlain(css, i);
      quote' := None;
      StrippedAt(css, i, WordAt(css, i), kept, i');
    }
  }

  method StripComments(css: string) returns (out: string)
    ensures out == Strip(css, false)
  {
    out := "";
    var quote := None;
    var i := 0;
    assert css[0..] == css;
    ghost var rest := Strip(css, false);
    while i < |css|
      invariant 0 <= i <= |css|
      invariant quote.Some? ==> IsQuote(quote.value)
      invariant Strip(css, false) == out + rest
      invariant rest == StripFrom(css[i..], quote, WordAt(css, i))
      decreases |css| - i
    {
      var kept, quote', i' := StripTurn(css, i, quote);
      ghost var rest' := StripFrom(css[i'..], quote', WordAt(css, i'));
      Regroup(Strip(css, false), out, rest, kept, rest');
      out, quote, i := out + kept, quote', i';
      rest := rest';
    }
  }
}
