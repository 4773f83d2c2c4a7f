/** What `stripComments` and the cuts of `importantify` make of each form of text, spelled out in
    characters: a comment, a quoted text, an unquoted url, and any other character. Every text
    begins with one of them.
 */
module PseudoCssForms {
  import opened Spaces
  import opened PseudoCss
  import opened Declarations
  import opened PseudoCssLaws

  // ---------------------------------------------------------------- the forms

  /** A text without `end` in it, save behind a backslash; each backslash has its character. */
  ghost predicate Inside(s: string, end: char) {
    s == "" || (if s[0] == '\\' then |s| > 1 && Inside(s[2..], end) else s[0] != end && Inside(s[1..], end))
  }

  ghost predicate QuoteComesAt(s: string, k: nat)
    requires k < |s|
  {
    AllWhite(s[..k]) && (s[k] == '"' || s[k] == '\'')
  }

  /** White space, and then a quote. */
  ghost predicate QuoteComes(s: string) {
    exists k :: 0 <= k < |s| && QuoteComesAt(s, k)
  }

  ghost predicate UrlWord(s: string) {
    |s| == 4 && s[0] in "uU" && s[1] in "rR" && s[2] in "lL" && s[3] == '('
  }

  ghost predicate UrlStarts(s: string) { |s| >= 4 && UrlWord(s[..4]) && !QuoteComes(s[4..]) }

  ghost predicate WordCharacter(c: char) {
    'a' <= c <= 'z' || 'A' <= c <= 'Z' || '0' <= c <= '9' || c == '_' || c == '-'
  }

  // ---------------------------------------------------------------- where they end

  lemma {:induction false} InsideEnds(s: string, end: char, y: string)
    requires Inside(s, end) && end != '\\'
    ensures Until(s + ([end] + y), end) == |s| + 1
    ensures Until(s, end) == |s|
  {
    var t := s + ([end] + y);
    if s == "" {
      assert t == [end] + y;
    } else if s[0] == '\\' {
      InsideEnds(s[2..], end, y);
      assert t[2..] == s[2..] + ([end] + y);
    } else {
      InsideEnds(s[1..], end, y);
      assert t[1..] == s[1..] + ([end] + y);
    }
  }

  /** What is never closed: it may end in a backslash that has nothing behind it. */
  ghost predicate Open(s: string, end: char) {
    Inside(s, end) || (s != "" && s[|s| - 1] == '\\' && Inside(s[..|s| - 1], end))
  }

  lemma {:induction false} LoneBackslash(s: string, end: char)
    requires Inside(s, end)
    ensures Until(s + "\\", end) == |s| + 1
  {
    var t := s + "\\";
    if s != "" {
      var n := if s[0] == '\\' then 2 else 1;
      LoneBackslash(s[n..], end);
      assert t[n..] == s[n..] + "\\";
    }
  }

  lemma OpenEnds(s: string, end: char)
    requires Open(s, end) && end != '\\'
    ensures Until(s, end) == |s|
  {
    if Inside(s, end) {
      InsideEnds(s, end, "");
    } else {
      LoneBackslash(s[..|s| - 1], end);
      assert s[..|s| - 1] + "\\" == s;
    }
  }

  lemma InsideLonger(first: string, s: string, end: char)
    requires Inside(s, end)
    requires if |first| == 2 then first[0] == '\\' else |first| == 1 && first[0] != '\\' && first[0] != end
    ensures Inside(first + s, end)
  {
    assert (first + s)[|first|..] == s;
  }

  lemma OpenLonger(first: string, s: string, end: char)
    requires Open(s, end)
    requires if |first| == 2 then first[0] == '\\' else |first| == 1 && first[0] != '\\' && first[0] != end
    ensures Open(first + s, end)
  {
    if Inside(s, end) {
      InsideLonger(first, s, end);
    } else {
      InsideLonger(first, s[..|s| - 1], end);
      assert (first + s)[..|first + s| - 1] == first + s[..|s| - 1];
    }
  }

  ghost predicate ClosedBy(s: string, chars: string, end: char, y: string) {
    Inside(chars, end) && s == chars + ([end] + y)
  }

  lemma ClosedLonger(first: string, rest: string, chars: string, end: char, y: string)
    requires ClosedBy(rest, chars, end, y)
    requires if |first| == 2 then first[0] == '\\' else |first| == 1 && first[0] != '\\' && first[0] != end
    ensures ClosedBy(first + rest, first + chars, end, y)
  {
    InsideLonger(first, chars, end);
    assert first + (chars + ([end] + y)) == (first + chars) + ([end] + y);
  }

  /** What follows the mark of a quote or a url is closed somewhere or never. */
  lemma {:induction false} ClosedOrOpen(s: string, end: char) returns (chars: string, y: string)
    requires end != '\\'
    ensures Open(s, end) || ClosedBy(s, chars, end, y)
  {
    chars, y := "", "";
    if s == "" {
    } else if s[0] == end {
      y := s[1..];
    } else if s == "\\" {
      assert s[..0] == "" && Inside("", end);
    } else {
      var n := if s[0] == '\\' then 2 else 1;
      var more, y' := ClosedOrOpen(s[n..], end);
      assert s == s[..n] + s[n..];
      if Open(s[n..], end) {
        OpenLonger(s[..n], s[n..], end);
      } else {
        ClosedLonger(s[..n], s[n..], more, end, y');
        chars, y := s[..n] + more, y';
      }
    }
  }

  lemma FirstIsWhite(s: string, k: nat)
    requires 0 < k <= |s| && AllWhite(s[..k])
    ensures WhiteSpace(s[0])
  {
    assert s[..k][0] == s[0];
  }

  lemma {:induction false} QuoteComing(s: string)
    ensures StartsWithQuote(s) <==> QuoteComes(s)
  {
    if s != "" && IsSpace(s[0]) {
      var t := s[1..];
      QuoteComing(t);
      SpacesAreWhite(s[0]);
      forall k | 0 <= k < |t| ensures QuoteComesAt(s, k + 1) == QuoteComesAt(t, k) {
        assert s[..k + 1] == [s[0]] + t[..k] && s[k + 1] == t[k];
        assert forall i :: 0 <= i < k ==> s[..k + 1][i + 1] == t[..k][i];
      }
      if QuoteComes(t) {
        var k :| 0 <= k < |t| && QuoteComesAt(t, k);
        assert QuoteComesAt(s, k + 1);
      }
      if QuoteComes(s) {
        var k :| 0 <= k < |s| && QuoteComesAt(s, k);
        assert k > 0;
        assert QuoteComesAt(t, k - 1);
      }
    } else if s != "" {
      SpacesAreWhite(s[0]);
      if QuoteComes(s) {
        var k :| 0 <= k < |s| && QuoteComesAt(s, k);
        if k > 0 { FirstIsWhite(s, k); }
      }
      if StartsWithQuote(s) { assert s[..0] == "" && QuoteComesAt(s, 0); }
    }
  }

  lemma UrlHeads(s: string)
    ensures UrlHead(s) <==> UrlStarts(s)
  {
    if |s| >= 4 { QuoteComing(s[4..]); }
  }

  /** What a token of `n` characters that is no comment does to both functions. */
  lemma TokenKept(token: string, y: string, w: bool, depth: nat)
    requires token != "" && Token(token + y, w) == |token| && !IsComment(token + y) && token[0] != ';'
    requires y == "" || !IsWord(token[|token| - 1])
    ensures Strip(token + y, w) == token + Strip(y, false)
    ensures Pieces(token + y, w, depth) == Prepend(token, Pieces(y, false, DepthAfter(token[0], depth)))
  {
    var s, n := token + y, |token|;
    assert s[..n] == token && s[n..] == y && s[n - 1] == token[n - 1];
    FirstStripped(s, w, token, n, y, false);
    WordIsOver(y, IsWord(s[n - 1]), DepthAfter(s[0], depth));
    PiecesStep(s, w, depth, n, y, IsWord(s[n - 1]), DepthAfter(s[0], depth), Pieces(y, false, DepthAfter(s[0], depth)));
  }

  /** The pieces of what follows, with this text before the first. */
  ghost function Behind(text: string, ps: seq<string>): seq<string>
    requires ps != []
  {
    [text + ps[0]] + ps[1..]
  }

  // ---------------------------------------------------------------- what becomes of them

  lemma {:induction false} OpenComment(c: string)
    requires NoStarSlash(c)
    ensures UntilStar(c) == |c|
  {
    if |c| >= 2 { OpenComment(c[1..]); }
  }

  lemma CommentMeans(c: string, y: string, w: bool)
    requires forall i :: 0 <= i < |c| - 1 ==> !(c[i] == '*' && c[i + 1] == '/')
    ensures Strip("/*" + (c + ("*/" + y)), w) == " " + Strip(y, false)
    ensures Strip("/*" + c, w) == " "
  {
    CommentFirst(c, y, w);
    var s := "/*" + c;
    assert s[2..] == c;
    OpenComment(c);
    FirstStripped(s, w, " ", |s|, "", false);
  }

  lemma QuotedToken(q: char, chars: string, y: string, w: bool, t: string)
    requires (q == '"' || q == '\'') && Inside(chars, q) && t == [q] + chars + [q]
    ensures Token(t + y, w) == |t| && !IsComment(t + y) && t[0] == q && t[|t| - 1] == q
  {
    InsideEnds(chars, q, y);
    assert (t + y)[1..] == chars + ([q] + y);
  }

  /** A quoted text is kept as it is and cut nowhere. */
  lemma QuotedMeans(q: char, chars: string, y: string, w: bool, depth: nat)
    requires (q == '"' || q == '\'') && Inside(chars, q)
    ensures var t := [q] + chars + [q];
      && Strip(t + y, w) == t + Strip(y, false)
      && Pieces(t + y, w, depth) == Behind(t, Pieces(y, false, depth))
  {
    var t := [q] + chars + [q];
    QuotedToken(q, chars, y, w, t);
    TokenKept(t, y, w, depth);
  }

  /** One that is never closed goes to the end. */
  lemma OpenQuoteMeans(q: char, chars: string, w: bool, depth: nat)
    requires (q == '"' || q == '\'') && Open(chars, q)
    ensures var t := [q] + chars; Strip(t, w) == t && Pieces(t, w, depth) == [t]
  {
    var t := [q] + chars;
    OpenEnds(chars, q);
    assert t[1..] == chars && t + "" == t;
    TokenKept(t, "", w, depth);
  }

  /** So is a url that is not quoted, wherever no word goes on before it. */
  lemma UrlMeans(head: string, chars: string, y: string, depth: nat)
    requires UrlWord(head) && Inside(chars, ')') && !QuoteComes(chars + (")" + y))
    ensures var t := head + chars + ")";
      && Strip(t + y, false) == t + Strip(y, false)
      && Pieces(t + y, false, depth) == Behind(t, Pieces(y, false, depth))
  {
    var t := head + chars + ")";
    InsideEnds(chars, ')', y);
    assert (t + y)[4..] == chars + ([')'] + y) && (t + y)[..4] == head && [')'] + y == ")" + y;
    UrlHeads(t + y);
    TokenKept(t, y, false, depth);
  }

  lemma OpenUrlMeans(head: string, chars: string, depth: nat)
    requires UrlWord(head) && Open(chars, ')') && !QuoteComes(chars)
    ensures var t := head + chars; Strip(t, false) == t && Pieces(t, false, depth) == [t]
  {
    var t := head + chars;
    OpenEnds(chars, ')');
    assert t[4..] == chars && t[..4] == head && t + "" == t;
    UrlHeads(t);
    TokenKept(t, "", false, depth);
  }

  ghost predicate StartsNothing(c: char, y: string, w: bool) {
    && c != '"' && c != '\'' && !(c == '/' && y != "" && y[0] == '*')
    && (w || !UrlStarts([c] + y))
  }

  /** Any other character is kept. A semicolon cuts where no parenthesis is open. */
  lemma OtherMeans(c: char, y: string, w: bool, depth: nat)
    requires StartsNothing(c, y, w)
    ensures Strip([c] + y, w) == [c] + Strip(y, WordCharacter(c))
    ensures Pieces([c] + y, w, depth) ==
            if c == ';' && depth == 0 then [""] + Pieces(y, false, 0)
            else if c == '(' then Behind([c], Pieces(y, false, depth + 1))
            else if c == ')' then Behind([c], Pieces(y, false, if depth > 0 then depth - 1 else 0))
            else Behind([c], Pieces(y, WordCharacter(c), depth))
  {
    var s := [c] + y;
    UrlHeads(s);
    assert s[..1] == [c] && s[1..] == y;
    assert IsWord(c) == WordCharacter(c);
    FirstStripped(s, w, [c], 1, y, IsWord(c));
  }

  /** One of these forms stands at the beginning of every text: a comment, a quote or a url, which
      `ClosedOrOpen` tells apart further, or another character. */
  lemma EveryTextHasForm(s: string, w: bool)
    requires s != ""
    ensures
      || (|s| >= 2 && s[0] == '/' && s[1] == '*')
      || s[0] == '"' || s[0] == '\''
      || (!w && UrlStarts(s))
      || StartsNothing(s[0], s[1..], w)
  {
    assert [s[0]] + s[1..] == s;
  }

  /** The empty text. */
  lemma NothingMeans(w: bool, depth: nat)
    ensures Strip("", w) == "" && Pieces("", w, depth) == [""]
  {
  }
}
