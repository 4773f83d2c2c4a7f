/** What `stripComments` and `importantify` promise of every text. */
module PseudoCssLaws {
  import opened Spaces
  import opened PseudoCss
  import opened Declarations

  // ---------------------------------------------------------------- tokens in other surroundings

  /** The mark that ends a quote or a url is there. */
  predicate Terminated(s: string, end: char) {
    s != "" &&
    if s[0] == '\\' then |s| > 1 && Terminated(s[2..], end) else s[0] == end || Terminated(s[1..], end)
  }

  lemma {:induction false} TerminatedIffShort(s: string, end: char)
    ensures Until(s, end) < |s| ==> Terminated(s, end)
    ensures !Terminated(s, end) ==> Until(s, end) == |s|
  {
    if s != "" {
      if s[0] == '\\' {
        if |s| > 1 {
          TerminatedIffShort(s[2..], end);
        }
      } else if s[0] != end {
        TerminatedIffShort(s[1..], end);
      }
    }
  }

  /** What stands after the end does not matter. */
  lemma {:induction false} UntilKept(x: string, end: char, m: nat, y: string)
    requires Terminated(x, end) && m == Until(x, end)
    ensures Until(x[..m] + y, end) == m && Terminated(x[..m] + y, end)
  {
    var z := x[..m] + y;
    if x[0] == '\\' {
      UntilKept(x[2..], end, m - 2, y);
      assert z[2..] == x[2..][..m - 2] + y;
    } else if x[0] != end {
      UntilKept(x[1..], end, m - 1, y);
      assert z[1..] == x[1..][..m - 1] + y;
    }
  }

  lemma TerminatedFollowed(x: string, end: char, y: string)
    requires Terminated(x, end)
    ensures Until(x + y, end) == Until(x, end) && Terminated(x + y, end)
  {
    var m := Until(x, end);
    UntilKept(x, end, m, x[m..] + y);
    assert x[..m] + (x[m..] + y) == x + y;
  }

  lemma {:induction false} NeverTerminated(y: string, end: char)
    requires forall i :: 0 <= i < |y| ==> y[i] != end && y[i] != '\\'
    ensures !Terminated(y, end)
  {
    if y != "" {
      NeverTerminated(y[1..], end);
    }
  }

  /** A quote or a url that is open stays open if its mark does not come. */
  lemma {:induction false} OpenFollowed(x: string, end: char, y: string)
    requires !Terminated(x, end) && forall i :: 0 <= i < |y| ==> y[i] != end && y[i] != '\\'
    ensures !Terminated(x + y, end)
  {
    if x == "" {
      assert x + y == y;
      NeverTerminated(y, end);
    } else if x[0] == '\\' {
      if |x| > 1 {
        assert (x + y)[2..] == x[2..] + y;
        OpenFollowed(x[2..], end, y);
      } else if y != "" {
        assert (x + y)[2..] == y[1..];
        NeverTerminated(y[1..], end);
      }
    } else {
      assert (x + y)[1..] == x[1..] + y;
      OpenFollowed(x[1..], end, y);
    }
  }

  lemma {:induction false} EndIsLast(x: string, end: char)
    requires Terminated(x, end)
    ensures 0 < Until(x, end) && x[Until(x, end) - 1] == end
  {
    if x[0] == '\\' {
      EndIsLast(x[2..], end);
    } else if x[0] != end {
      EndIsLast(x[1..], end);
    }
  }

  /** The characters of url( after the first, and the one that goes on a comment. */
  predicate GoesOn(c: char) { c == 'r' || c == 'R' || c == 'l' || c == 'L' || c == '(' || c == '*' }

  /** A text that, put after another, makes no token with it. */
  predicate Separates(y: string) {
    y == "" || (!GoesOn(y[0]) && !StartsWithQuote(y))
  }

  lemma {:induction false} QuoteFollowed(x: string, y: string)
    requires !StartsWithQuote(y)
    ensures StartsWithQuote(x + y) == StartsWithQuote(x)
  {
    if x == "" {
      assert x + y == y;
    } else if IsSpace(x[0]) {
      QuoteFollowed(x[1..], y);
      assert (x + y)[1..] == x[1..] + y;
    }
  }

  lemma UrlHeadFollowed(x: string, y: string)
    requires x != "" && Separates(y)
    ensures UrlHead(x + y) == UrlHead(x)
  {
    if y == "" {
      assert x + y == x;
    } else if |x| < 4 {
      assert (x + y)[|x|] == y[0];
    } else {
      assert (x + y)[4..] == x[4..] + y;
      QuoteFollowed(x[4..], y);
    }
  }

  /** The first token is whole. */
  predicate Ends(s: string, w: bool)
    requires s != ""
  {
    if IsQuote(s[0]) then Terminated(s[1..], s[0])
    else if IsUrl(s, w) then Terminated(s[4..], ')')
    else true
  }

  lemma TokenFollowed(x: string, w: bool, y: string)
    requires x != "" && Separates(y) && Ends(x, w)
    ensures Token(x + y, w) == Token(x, w) && Ends(x + y, w)
    ensures IsComment(x + y) == IsComment(x)
  {
    UrlHeadFollowed(x, y);
    if IsQuote(x[0]) {
      assert (x + y)[1..] == x[1..] + y;
      TerminatedFollowed(x[1..], x[0], y);
    } else if IsUrl(x, w) {
      assert (x + y)[4..] == x[4..] + y;
      TerminatedFollowed(x[4..], ')', y);
    }
  }

  /** An end that lies within x is found there; `skip` characters open the quote or the url. */
  lemma EndWithin(s: string, skip: nat, end: char, n: nat, x: string, y: string)
    requires s == x + y && y != "" && skip <= |x| && n == skip + Until(s[skip..], end) <= |x|
    ensures skip + Until(x[skip..], end) == n && Terminated(x[skip..], end)
  {
    var tail := s[skip..];
    TerminatedIffShort(tail, end);
    UntilKept(tail, end, n - skip, x[n..]);
    assert x[skip..] == tail[..n - skip] + x[n..];
  }

  /** A token that lies within x is whole there. */
  lemma TokenWithin(s: string, w: bool, n: nat, x: string, y: string)
    requires s == x + y && y != "" && Separates(y) && x != "" && n == Token(s, w) <= |x|
    ensures Token(x, w) == n && Ends(x, w)
    ensures IsComment(x) == IsComment(s)
  {
    UrlHeadFollowed(x, y);
    if IsQuote(s[0]) {
      EndWithin(s, 1, s[0], n, x, y);
    } else if IsUrl(s, w) {
      EndWithin(s, 4, ')', n, x, y);
    }
  }

  // ---------------------------------------------------------------- stripping comments

  /** No comment outside quotes and unquoted urls. */
  ghost predicate Clean(s: string, w: bool)
    decreases |s|
  {
    s == "" || (!IsComment(s) && Clean(s[Token(s, w)..], IsWord(s[Token(s, w) - 1])))
  }

  lemma StripHead(s: string, w: bool)
    requires s != ""
    ensures Strip(s, w) != "" && (Strip(s, w)[0] == s[0] || Strip(s, w)[0] == ' ')
  {
  }

  lemma StripPlain(s: string, w: bool)
    requires s != "" && !IsQuote(s[0]) && s[0] != '/' && s[0] != 'u' && s[0] != 'U'
    ensures Strip(s, w) == [s[0]] + Strip(s[1..], IsWord(s[0]))
  {
    assert s[..1] == [s[0]];
  }

  lemma {:induction false} QuoteAhead(s: string, w: bool)
    requires StartsWithQuote(s)
    ensures StartsWithQuote(Strip(s, w))
  {
    if IsSpace(s[0]) {
      StripPlain(s, w);
      QuoteAhead(s[1..], IsWord(s[0]));
      assert Strip(s, w)[1..] == Strip(s[1..], IsWord(s[0]));
    } else {
      StripHead(s, w);
    }
  }

  lemma PlainAhead(s: string, w: bool, c: char, d: char)
    requires Strip(s, w) != "" && (Strip(s, w)[0] == c || Strip(s, w)[0] == d)
    requires GoesOn(c) && GoesOn(d)
    ensures s != "" && (s[0] == c || s[0] == d) && Strip(s, w) == [s[0]] + Strip(s[1..], IsWord(s[0]))
    ensures Strip(s, w)[1..] == Strip(s[1..], IsWord(s[0]))
  {
    StripHead(s, w);
    StripPlain(s, w);
  }

  lemma LettersAhead(s: string, w: bool, a: string)
    requires a == Strip(s, w) && |a| >= 2 && (a[0] == 'r' || a[0] == 'R') && (a[1] == 'l' || a[1] == 'L')
    ensures |s| >= 2 && s[0] == a[0] && s[1] == a[1] && a[2..] == Strip(s[2..], true)
  {
    PlainAhead(s, w, 'r', 'R');
    var b := Strip(s[1..], true);
    assert b[0] == a[1];
    PlainAhead(s[1..], true, 'l', 'L');
    assert s[1..][1..] == s[2..] && a[2..] == b[1..];
  }

  lemma ParenAhead(s: string, a: string)
    requires a == Strip(s, true) && a != "" && a[0] == '(' && !StartsWithQuote(a[1..])
    ensures s != "" && s[0] == '(' && !StartsWithQuote(s[1..])
  {
    PlainAhead(s, true, '(', '(');
    if StartsWithQuote(s[1..]) {
      QuoteAhead(s[1..], false);
    }
  }

  /** Stripping what follows a character makes no url of it. */
  lemma NoNewUrl(s: string, w: bool, a: string)
    requires s != "" && a == Strip(s[1..], w) && UrlHead([s[0]] + a)
    ensures UrlHead(s)
  {
    var o := [s[0]] + a;
    assert a[0] == o[1] && a[1] == o[2] && a[2] == o[3] && a[2..][1..] == o[4..];
    LettersAhead(s[1..], w, a);
    assert s[1..][2..] == s[3..];
    ParenAhead(s[3..], a[2..]);
    assert s[3..][1..] == s[4..];
  }

  lemma QuoteStays(s: string, w: bool, n: nat, y: string)
    requires s != "" && IsQuote(s[0]) && n == Token(s, w) && (n < |s| || y == "")
    ensures Token(s[..n] + y, w) == n && !IsComment(s[..n] + y)
  {
    var o := s[..n] + y;
    if n < |s| {
      TerminatedIffShort(s[1..], s[0]);
      UntilKept(s[1..], s[0], n - 1, y);
      assert o[1..] == s[1..][..n - 1] + y;
    } else {
      assert o == s;
    }
  }

  lemma CharacterStays(s: string, w: bool, y: string)
    requires s != "" && !IsComment(s) && !IsQuote(s[0]) && !IsUrl(s, w) && y == Strip(s[1..], IsWord(s[0]))
    ensures Token([s[0]] + y, w) == 1 && !IsComment([s[0]] + y)
  {
    if |s| > 1 {
      StripHead(s[1..], IsWord(s[0]));
    }
    if !w && UrlHead([s[0]] + y) {
      NoNewUrl(s, IsWord(s[0]), y);
    }
  }

  /** A url with an end is told from a quoted one before that end. */
  lemma {:induction false} QuoteStaysAway(x: string, m: nat, y: string)
    requires Terminated(x, ')') && m == Until(x, ')') && !StartsWithQuote(x)
    ensures !StartsWithQuote(x[..m] + y)
  {
    var z := x[..m] + y;
    if IsSpace(x[0]) {
      QuoteStaysAway(x[1..], m - 1, y);
      assert z[1..] == x[1..][..m - 1] + y;
    } else {
      assert z[0] == x[0];
    }
  }

  lemma UrlStays(s: string, w: bool, n: nat, y: string)
    requires s != "" && IsUrl(s, w) && n == Token(s, w) && (n < |s| || y == "")
    ensures Token(s[..n] + y, w) == n && !IsComment(s[..n] + y)
  {
    var o := s[..n] + y;
    TerminatedIffShort(s[4..], ')');
    if n < |s| {
      UntilKept(s[4..], ')', n - 4, y);
      assert o[4..] == s[4..][..n - 4] + y;
      QuoteStaysAway(s[4..], n - 4, y);
    } else {
      assert o == s;
    }
  }

  /** The first token of a text stays the first token when the rest is stripped. */
  lemma TokenStays(s: string, w: bool, n: nat, y: string)
    requires s != "" && !IsComment(s) && n == Token(s, w) && (n < |s| || y == "")
    requires !IsQuote(s[0]) && !IsUrl(s, w) ==> y == Strip(s[1..], IsWord(s[0]))
    ensures Token(s[..n] + y, w) == n && !IsComment(s[..n] + y)
  {
    if IsQuote(s[0]) {
      QuoteStays(s, w, n, y);
    } else if IsUrl(s, w) {
      UrlStays(s, w, n, y);
    } else {
      CharacterStays(s, w, y);
      assert s[..n] == [s[0]];
    }
  }

  lemma CleanFrom(token: string, y: string, w: bool)
    requires token != "" && Token(token + y, w) == |token| && !IsComment(token + y)
    requires Clean(y, IsWord(token[|token| - 1]))
    ensures Clean(token + y, w)
  {
    assert (token + y)[|token|..] == y;
  }

  lemma SpaceIsClean(y: string, w: bool)
    requires Clean(y, false)
    ensures Clean(" " + y, w)
  {
    CleanFrom(" ", y, w);
  }

  lemma TokenIsClean(s: string, w: bool, n: nat, y: string)
    requires s != "" && !IsComment(s) && n == Token(s, w) && (n < |s| || y == "")
    requires !IsQuote(s[0]) && !IsUrl(s, w) ==> y == Strip(s[1..], IsWord(s[0]))
    requires Clean(y, IsWord(s[n - 1]))
    ensures Clean(s[..n] + y, w)
  {
    TokenStays(s, w, n, y);
    var token := s[..n];
    assert token[n - 1] == s[n - 1];
    CleanFrom(token, y, w);
  }

  /** One step of the induction below: the rest and what becomes of it have names. */
  lemma StripOneIsClean(s: string, w: bool, l: Lexeme, rest: string, y: string)
    requires s != "" && l == First(s, w) && rest == s[l.length..] && y == Strip(rest, l.word) && Clean(y, l.word)
    ensures Clean(l.kept + y, w)
  {
    if IsComment(s) {
      SpaceIsClean(y, w);
    } else {
      TokenIsClean(s, w, l.length, y);
    }
  }

  /** No comment is left. */
  lemma {:induction false} StripIsClean(s: string, w: bool)
    ensures Clean(Strip(s, w), w)
    decreases |s|
  {
    if s != "" {
      var l := First(s, w);
      StripIsClean(s[l.length..], l.word);
      StripOneIsClean(s, w, l, s[l.length..], Strip(s[l.length..], l.word));
    }
  }

  lemma KeptFrom(s: string, w: bool, n: nat)
    requires s != "" && !IsComment(s) && n == Token(s, w) && Strip(s[n..], IsWord(s[n - 1])) == s[n..]
    ensures Strip(s, w) == s
  {
    assert s[..n] + s[n..] == s;
  }

  lemma {:induction false} CleanIsKept(s: string, w: bool)
    requires Clean(s, w)
    ensures Strip(s, w) == s
    decreases |s|
  {
    if s != "" {
      var n := Token(s, w);
      CleanIsKept(s[n..], IsWord(s[n - 1]));
      KeptFrom(s, w, n);
    }
  }

  /** Just the texts without comments are left as they are. */
  lemma StripKeepsCleanText(s: string, w: bool)
    ensures Strip(s, w) == s <==> Clean(s, w)
  {
    StripIsClean(s, w);
    if Clean(s, w) {
      CleanIsKept(s, w);
    }
  }

  lemma StripTwice(s: string, w: bool)
    ensures Strip(Strip(s, w), w) == Strip(s, w)
  {
    StripIsClean(s, w);
    CleanIsKept(Strip(s, w), w);
  }

  /** All tokens are whole. */
  ghost predicate AllEnd(s: string, w: bool)
    decreases |s|
  {
    s == "" || (Ends(s, w) && AllEnd(s[Token(s, w)..], IsWord(s[Token(s, w) - 1])))
  }

  ghost predicate NoStarSlash(c: string) {
    forall i :: 0 <= i < |c| - 1 ==> !(c[i] == '*' && c[i + 1] == '/')
  }

  lemma {:induction false} StarFound(c: string, y: string)
    requires NoStarSlash(c)
    ensures UntilStar(c + ("*/" + y)) == |c| + 2
  {
    var s := c + ("*/" + y);
    if c != "" {
      StarFound(c[1..], y);
      assert s[1..] == c[1..] + ("*/" + y);
    } else {
      assert s == "*/" + y;
    }
  }

  lemma CommentFirst(c: string, y: string, w: bool)
    requires NoStarSlash(c)
    ensures Strip("/*" + (c + ("*/" + y)), w) == " " + Strip(y, false)
  {
    var s := "/*" + (c + ("*/" + y));
    assert s[2..] == c + ("*/" + y);
    StarFound(c, y);
    assert s[|c| + 4..] == y;
    FirstStripped(s, w, " ", |c| + 4, y, false);
  }

  lemma CommentSeparates(y: string)
    requires |y| >= 2 && y[0] == '/' && y[1] == '*'
    ensures Separates(y)
  {
  }

  lemma FirstToken(s: string, w: bool, n: nat, kept: string, w': bool)
    requires s != "" && !IsComment(s) && n == Token(s, w) && kept == s[..n] && w' == IsWord(s[n - 1])
    ensures First(s, w) == Lexeme(kept, n, w')
  {
  }

  lemma TwoPieces(x: string, n: nat, rest: string)
    requires n <= |x|
    ensures x[..n] + (x[n..] + rest) == x + rest
  {
  }

  lemma SplitFollowed(p: string, n: nat, y: string)
    requires 0 < n <= |p|
    ensures (p + y)[..n] == p[..n] && (p + y)[n..] == p[n..] + y && (p + y)[n - 1] == p[n - 1] && (p + y)[0] == p[0]
  {
  }

  lemma StripOn(x: string, w: bool, n: nat, y: string, w': bool, rest: string)
    requires x != "" && Ends(x, w) && !IsComment(x) && Separates(y) && n == Token(x, w) && w' == IsWord(x[n - 1])
    requires Strip(x[n..] + y, w') == x[n..] + rest
    ensures Strip(x + y, w) == x + rest
  {
    TokenFollowed(x, w, y);
    SplitFollowed(x, n, y);
    FirstToken(x + y, w, n, x[..n], w');
    FirstStripped(x + y, w, x[..n], n, x[n..] + y, w');
    TwoPieces(x, n, rest);
  }

  lemma AllEndStep(x: string, w: bool, n: nat, w': bool)
    requires x != "" && AllEnd(x, w) && Clean(x, w) && n == Token(x, w) && w' == IsWord(x[n - 1])
    ensures Ends(x, w) && !IsComment(x) && AllEnd(x[n..], w') && Clean(x[n..], w')
  {
  }

  lemma {:induction false} StrippedBehind(x: string, w: bool, tail: string, stripped: string)
    requires AllEnd(x, w) && Clean(x, w) && Separates(tail)
    requires Strip(tail, true) == stripped && Strip(tail, false) == stripped
    ensures Strip(x + tail, w) == x + stripped
    decreases |x|
  {
    if x == "" {
      assert x + tail == tail && x + stripped == stripped;
    } else {
      var n := Token(x, w);
      var w' := IsWord(x[n - 1]);
      AllEndStep(x, w, n, w');
      StrippedBehind(x[n..], w', tail, stripped);
      StripOn(x, w, n, tail, w', stripped);
    }
  }

  /** A comment behind a text that leaves no quote or url open becomes a space, and the text around
      it is kept. */
  lemma CommentBecomesSpace(x: string, w: bool, c: string, y: string)
    requires AllEnd(x, w) && Clean(x, w) && NoStarSlash(c)
    ensures Strip(x + ("/*" + (c + ("*/" + y))), w) == x + (" " + Strip(y, false))
  {
    var tail := "/*" + (c + ("*/" + y));
    CommentFirst(c, y, true);
    CommentFirst(c, y, false);
    CommentSeparates(tail);
    StrippedBehind(x, w, tail, " " + Strip(y, false));
  }

  // ---------------------------------------------------------------- cutting at semicolons

  /** No semicolon outside quotes, unquoted urls and parentheses. */
  ghost predicate Unsplit(p: string, w: bool, depth: nat)
    decreases |p|
  {
    p == "" ||
    (!(p[0] == ';' && depth == 0)
     && Unsplit(p[Token(p, w)..], IsWord(p[Token(p, w) - 1]), DepthAfter(p[0], depth)))
  }

  /** The text leaves no quote, url or parenthesis open, either. */
  ghost predicate Closed(p: string, w: bool, depth: nat)
    decreases |p|
  {
    if p == "" then depth == 0
    else
      && !(p[0] == ';' && depth == 0)
      && Ends(p, w)
      && Closed(p[Token(p, w)..], IsWord(p[Token(p, w) - 1]), DepthAfter(p[0], depth))
  }

  /** A piece of a cut text, from some position on; all but the last piece are closed. */
  ghost predicate PieceFrom(p: string, w: bool, depth: nat, last: bool) {
    Unsplit(p, w, depth) && Clean(p, w) && (last || Closed(p, w, depth))
  }

  ghost predicate Piece(p: string, last: bool) { PieceFrom(p, false, 0, last) }

  lemma PieceRest(p: string, w: bool, depth: nat, last: bool, n: nat, rest: string, w': bool, depth': nat)
    requires PieceFrom(p, w, depth, last) && p != "" && n == Token(p, w) && rest == p[n..]
    requires w' == IsWord(p[n - 1]) && depth' == DepthAfter(p[0], depth)
    ensures PieceFrom(rest, w', depth', last) && !IsComment(p) && !(p[0] == ';' && depth == 0) && (last || Ends(p, w))
  {
  }

  lemma PieceFirst(p: string, w: bool, depth: nat, last: bool, n: nat, rest: string, w': bool, depth': nat)
    requires p != "" && n == Token(p, w) && rest == p[n..]
    requires w' == IsWord(p[n - 1]) && depth' == DepthAfter(p[0], depth)
    requires PieceFrom(rest, w', depth', last) && !IsComment(p) && !(p[0] == ';' && depth == 0) && (last || Ends(p, w))
    ensures PieceFrom(p, w, depth, last)
  {
  }

  /** A list of pieces as they should be, the first from the given position on. */
  ghost predicate Good(ps: seq<string>, w: bool, depth: nat) {
    && ps != []
    && PieceFrom(ps[0], w, depth, |ps| == 1)
    && (|ps| > 1 ==> Good(ps[1..], false, 0))
  }

  lemma SemicolonSeparates(t: string)
    ensures Separates(";" + t)
  {
  }

  lemma JoinedPrepended(a: string, ps: seq<string>)
    requires ps != []
    ensures Join(Prepend(a, ps)) == a + Join(ps)
  {
    if |ps| > 1 {
      assert a + ps[0] + (";" + Join(ps[1..])) == a + (ps[0] + (";" + Join(ps[1..])));
    }
  }

  lemma CutStep(s: string, w: bool, rest: string)
    requires s != "" && s[0] == ';' && rest == s[1..] && Join(Pieces(rest, false, 0)) == rest
    ensures Join(Pieces(s, w, 0)) == s
  {
    var ps := [""] + Pieces(rest, false, 0);
    assert ps[1..] == Pieces(rest, false, 0);
    assert "" + (";" + rest) == s;
  }

  lemma JoinStep(s: string, n: nat, ps: seq<string>)
    requires n <= |s| && ps != [] && Join(ps) == s[n..]
    ensures Join(Prepend(s[..n], ps)) == s
  {
    JoinedPrepended(s[..n], ps);
    assert s[..n] + s[n..] == s;
  }

  /** The pieces, joined by semicolons, are the text. */
  lemma {:induction false} PiecesRejoin(s: string, w: bool, depth: nat)
    ensures Join(Pieces(s, w, depth)) == s
    decreases |s|
  {
    if s != "" {
      if s[0] == ';' && depth == 0 {
        PiecesRejoin(s[1..], false, 0);
        CutStep(s, w, s[1..]);
      } else {
        var n := Token(s, w);
        var w', depth' := IsWord(s[n - 1]), DepthAfter(s[0], depth);
        var ps := Pieces(s[n..], w', depth');
        PiecesRejoin(s[n..], w', depth');
        PiecesStep(s, w, depth, n, s[n..], w', depth', ps);
        JoinStep(s, n, ps);
      }
    }
  }

  lemma Reassociated(s: string, n: nat, a: string, y: string)
    requires n <= |s| && s[n..] == a + y
    ensures (s[..n] + a) + y == s
  {
    assert s == s[..n] + s[n..];
  }

  lemma TokenBeforeSemicolon(s: string, w: bool, n: nat, a: string, t: string)
    requires s != "" && n == Token(s, w) && s[n..] == a + (";" + t)
    ensures Token(s[..n] + a, w) == n && IsComment(s[..n] + a) == IsComment(s) && Ends(s[..n] + a, w)
  {
    Reassociated(s, n, a, ";" + t);
    SemicolonSeparates(t);
    TokenWithin(s, w, n, s[..n] + a, ";" + t);
  }

  lemma TokenOfPiece(s: string, w: bool, n: nat, ps: seq<string>)
    requires s != "" && n == Token(s, w) && ps != [] && Join(ps) == s[n..]
    ensures Token(s[..n] + ps[0], w) == n && IsComment(s[..n] + ps[0]) == IsComment(s)
    ensures |ps| > 1 ==> Ends(s[..n] + ps[0], w)
  {
    if |ps| == 1 {
      assert s[..n] + ps[0] == s;
    } else {
      TokenBeforeSemicolon(s, w, n, ps[0], Join(ps[1..]));
    }
  }

  lemma GoodFirst(s: string, w: bool, depth: nat, n: nat, ps: seq<string>, w': bool, depth': nat)
    requires s != "" && !IsComment(s) && n == Token(s, w) && !(s[0] == ';' && depth == 0)
    requires w' == IsWord(s[n - 1]) && depth' == DepthAfter(s[0], depth)
    requires Good(ps, w', depth') && Join(ps) == s[n..]
    ensures Good(Prepend(s[..n], ps), w, depth)
  {
    TokenOfPiece(s, w, n, ps);
    var p := s[..n] + ps[0];
    assert p[n..] == ps[0];
    PieceFirst(p, w, depth, |ps| == 1, n, ps[0], w', depth');
    assert Prepend(s[..n], ps)[1..] == ps[1..];
  }

  lemma GoodCut(ps: seq<string>, w: bool)
    requires Good(ps, false, 0)
    ensures Good([""] + ps, w, 0)
  {
    assert ([""] + ps)[1..] == ps;
  }

  /** The cuts are where they should be, and nowhere are they missing. */
  lemma {:induction false} PiecesAreGood(s: string, w: bool, depth: nat)
    requires Clean(s, w)
    ensures Good(Pieces(s, w, depth), w, depth)
    decreases |s|
  {
    if s != "" {
      if s[0] == ';' && depth == 0 {
        PiecesAreGood(s[1..], false, 0);
        GoodCut(Pieces(s[1..], false, 0), w);
      } else {
        var n := Token(s, w);
        var w', depth' := IsWord(s[n - 1]), DepthAfter(s[0], depth);
        PiecesAreGood(s[n..], w', depth');
        PiecesRejoin(s[n..], w', depth');
        GoodFirst(s, w, depth, n, Pieces(s[n..], w', depth'), w', depth');
      }
    }
  }

  lemma PrependWhole(p: string, n: nat, ps: seq<string>)
    requires n <= |p|
    ensures Prepend(p[..n], [p[n..]] + ps) == [p] + ps
  {
    assert p[..n] + p[n..] == p;
  }

  lemma {:induction false} PiecesOfUnsplit(p: string, w: bool, depth: nat)
    requires Unsplit(p, w, depth)
    ensures Pieces(p, w, depth) == [p]
    decreases |p|
  {
    if p != "" {
      var n := Token(p, w);
      var w', depth' := IsWord(p[n - 1]), DepthAfter(p[0], depth);
      PiecesOfUnsplit(p[n..], w', depth');
      PiecesStep(p, w, depth, n, p[n..], w', depth', [p[n..]]);
      PrependWhole(p, n, []);
    }
  }

  lemma {:induction false} PiecesOfClosed(p: string, w: bool, depth: nat, t: string)
    requires PieceFrom(p, w, depth, false)
    ensures Pieces(p + (";" + t), w, depth) == [p] + Pieces(t, false, 0)
    decreases |p|
  {
    var y := ";" + t;
    if p == "" {
      assert p + y == y && y[1..] == t;
    } else {
      var n := Token(p, w);
      var w', depth' := IsWord(p[n - 1]), DepthAfter(p[0], depth);
      PieceRest(p, w, depth, false, n, p[n..], w', depth');
      PiecesOfClosed(p[n..], w', depth', t);
      SemicolonSeparates(t);
      TokenFollowed(p, w, y);
      SplitFollowed(p, n, y);
      PiecesStep(p + y, w, depth, n, p[n..] + y, w', depth', [p[n..]] + Pieces(t, false, 0));
      PrependWhole(p, n, Pieces(t, false, 0));
    }
  }

  lemma CleanStep(s: string, w: bool, n: nat, rest: string, w': bool)
    requires s != "" && !IsComment(s) && n == Token(s, w) && rest == s[n..] && w' == IsWord(s[n - 1]) && Clean(rest, w')
    ensures Clean(s, w)
  {
  }

  lemma {:induction false} CleanOfClosed(p: string, w: bool, depth: nat, t: string)
    requires PieceFrom(p, w, depth, false) && Clean(t, false)
    ensures Clean(p + (";" + t), w)
    decreases |p|
  {
    var y := ";" + t;
    if p == "" {
      assert p + y == y;
      CleanFrom(";", t, w);
    } else {
      var n := Token(p, w);
      var w', depth' := IsWord(p[n - 1]), DepthAfter(p[0], depth);
      PieceRest(p, w, depth, false, n, p[n..], w', depth');
      CleanOfClosed(p[n..], w', depth', t);
      SemicolonSeparates(t);
      TokenFollowed(p, w, y);
      SplitFollowed(p, n, y);
      CleanStep(p + y, w, n, p[n..] + y, w');
    }
  }

  /** Good pieces, joined and cut again, are the same pieces; and the text has no comment. */
  lemma {:induction false} JoinedIsCutAgain(ps: seq<string>)
    requires Good(ps, false, 0)
    ensures Pieces(Join(ps), false, 0) == ps && Clean(Join(ps), false)
  {
    if |ps| == 1 {
      PiecesOfUnsplit(ps[0], false, 0);
    } else {
      JoinedIsCutAgain(ps[1..]);
      PiecesOfClosed(ps[0], false, 0, Join(ps[1..]));
      CleanOfClosed(ps[0], false, 0, Join(ps[1..]));
      assert ps == [ps[0]] + ps[1..];
    }
  }

  // ---------------------------------------------------------------- trimming a piece

  lemma {:induction false} LeadingSpaces(p: string, last: bool)
    requires Piece(p, last)
    ensures Piece(TrimLeft(p), last)
  {
    if p != "" && IsSpace(p[0]) {
      PieceRest(p, false, 0, last, 1, p[1..], false, 0);
      LeadingSpaces(p[1..], last);
    }
  }

  lemma SpaceSeparates(c: char)
    requires IsSpace(c)
    ensures Separates([c])
  {
    var s := [c];
    assert s[1..] == "" && TrimLeft(s) == TrimLeft(s[1..]) == "";
  }

  /** A space after a token that takes up all there is: the token is open. */
  lemma SpaceWithin(p: string, w: bool, c: char)
    requires p != "" && IsSpace(c) && Token(p + [c], w) == |p| + 1
    ensures !Ends(p + [c], w)
    ensures Token(p, w) == |p| && !IsComment(p) && p[0] != ';'
  {
    var s := p + [c];
    SpaceSeparates(c);
    UrlHeadFollowed(p, [c]);
    var skip, end := if IsQuote(p[0]) then 1 else 4, if IsQuote(p[0]) then p[0] else ')';
    assert s[skip..] == p[skip..] + [c];
    if Terminated(s[skip..], end) {
      EndIsLast(s[skip..], end);
    }
    if Terminated(p[skip..], end) {
      TerminatedFollowed(p[skip..], end, [c]);
    }
    TerminatedIffShort(p[skip..], end);
  }

  lemma SpaceAfter(p: string, w: bool, c: char, n: nat)
    requires p != "" && IsSpace(c) && n == Token(p + [c], w) <= |p|
    ensures Token(p, w) == n && Ends(p, w) && IsComment(p) == IsComment(p + [c])
    ensures (p + [c])[n..] == p[n..] + [c] && (p + [c])[n - 1] == p[n - 1] && (p + [c])[0] == p[0]
  {
    SpaceSeparates(c);
    TokenWithin(p + [c], w, n, p, [c]);
    SplitFollowed(p, n, [c]);
  }

  lemma {:induction false} TrailingSpace(p: string, c: char, w: bool, depth: nat, last: bool)
    requires IsSpace(c) && PieceFrom(p + [c], w, depth, last)
    ensures PieceFrom(p, w, depth, last)
    decreases |p|
  {
    var s := p + [c];
    var n := Token(s, w);
    var w', depth' := IsWord(s[n - 1]), DepthAfter(s[0], depth);
    PieceRest(s, w, depth, last, n, s[n..], w', depth');
    if p == "" {
      assert s == [c] && s[1..] == "";
    } else if n <= |p| {
      SpaceAfter(p, w, c, n);
      TrailingSpace(p[n..], c, w', depth', last);
      PieceFirst(p, w, depth, last, n, p[n..], w', depth');
    } else {
      SpaceWithin(p, w, c);
    }
  }

  lemma {:induction false} TrailingSpaces(p: string, last: bool)
    requires Piece(p, last)
    ensures Piece(TrimRight(p), last)
  {
    if p != "" && IsSpace(p[|p| - 1]) {
      var q, c := p[..|p| - 1], p[|p| - 1];
      assert q + [c] == p;
      TrailingSpace(q, c, false, 0, last);
      TrailingSpaces(q, last);
    }
  }

  lemma TrimmedPiece(p: string, last: bool)
    requires Piece(p, last)
    ensures Piece(Trim(p), last)
  {
    LeadingSpaces(p, last);
    TrailingSpaces(TrimLeft(p), last);
  }

  // ---------------------------------------------------------------- marking a piece

  /** A text that is the same to every scanner. */
  predicate Still(y: string) {
    forall i :: 0 <= i < |y| ==>
      var c := y[i];
      !IsQuote(c) && c != '\\' && c != '(' && c != ')' && c != '/' && c != ';' && c != 'u' && c != 'U'
  }

  lemma {:induction false} StillIsPiece(y: string, w: bool, depth: nat, last: bool)
    requires Still(y) && (last || depth == 0)
    ensures PieceFrom(y, w, depth, last)
    decreases |y|
  {
    if y != "" {
      StillIsPiece(y[1..], IsWord(y[0]), depth, last);
      PieceFirst(y, w, depth, last, 1, y[1..], IsWord(y[0]), depth);
    }
  }

  lemma OpenWithMark(p: string, w: bool, y: string)
    requires p != "" && !Ends(p, w) && Still(y) && Separates(y)
    ensures Token(p + y, w) == |p + y| && !IsComment(p + y) && (p + y)[0] != ';'
  {
    var s := p + y;
    UrlHeadFollowed(p, y);
    var skip, end := if IsQuote(p[0]) then 1 else 4, if IsQuote(p[0]) then p[0] else ')';
    assert s[skip..] == p[skip..] + y;
    OpenFollowed(p[skip..], end, y);
    TerminatedIffShort(s[skip..], end);
  }

  lemma {:induction false} MarkAppended(p: string, w: bool, depth: nat, y: string, last: bool)
    requires Still(y) && Separates(y) && PieceFrom(p, w, depth, last)
    ensures PieceFrom(p + y, w, depth, last)
    decreases |p|
  {
    if p == "" {
      assert p + y == y;
      StillIsPiece(y, w, depth, last);
    } else {
      var n := Token(p, w);
      var w', depth' := IsWord(p[n - 1]), DepthAfter(p[0], depth);
      PieceRest(p, w, depth, last, n, p[n..], w', depth');
      if Ends(p, w) {
        MarkAppended(p[n..], w', depth', y, last);
        TokenFollowed(p, w, y);
        SplitFollowed(p, n, y);
        PieceFirst(p + y, w, depth, last, n, p[n..] + y, w', depth');
      } else {
        OpenWithMark(p, w, y);
      }
    }
  }

  lemma MarkIsStill(y: string)
    requires y == " !important"
    ensures Still(y)
  {
  }

  lemma MarkSeparates(y: string)
    requires |y| > 1 && y[0] == ' ' && y[1] == '!'
    ensures Separates(y)
  {
    assert y[1..][0] == '!' && TrimLeft(y) == TrimLeft(y[1..]) == y[1..];
  }

  lemma MarkedPiece(p: string, last: bool)
    requires Piece(p, last)
    ensures Piece(Marked(p), last)
  {
    var y := " !important";
    MarkIsStill(y);
    MarkSeparates(y);
    MarkAppended(p, false, 0, y, last);
  }

  // ---------------------------------------------------------------- the whole of importantify

  /** A declaration that is not changed any more. */
  ghost predicate MarkAt(d: string, k: nat)
    requires k < |d| - 9
  {
    && d[k] == '!' && AllWhite(d[k + 1..|d| - 9])
    && forall i :: 0 <= i < 9 ==> d[|d| - 9 + i] == "important"[i] || d[|d| - 9 + i] == "IMPORTANT"[i]
  }

  /** An exclamation mark, white space or none, and the word important in letters of either case. */
  ghost predicate EndsImportant(d: string) {
    exists k :: 0 <= k < |d| - 9 && MarkAt(d, k)
  }

  ghost predicate Done(d: string) { d != "" && Trim(d) == d && EndsImportant(d) }

  ghost predicate AllDone(ds: seq<string>) { forall i :: 0 <= i < |ds| ==> Done(ds[i]) }

  lemma {:induction false} TrimLeftTrims(s: string)
    ensures TrimLeft(s) != "" ==> !IsSpace(TrimLeft(s)[0])
  {
    if s != "" && IsSpace(s[0]) {
      TrimLeftTrims(s[1..]);
    }
  }

  lemma {:induction false} TrimRightTrims(s: string)
    ensures TrimRight(s) <= s
    ensures TrimRight(s) != "" ==> !IsSpace(TrimRight(s)[|TrimRight(s)| - 1])
    ensures s != "" && !IsSpace(s[0]) ==> TrimRight(s) != ""
  {
    if s != "" && IsSpace(s[|s| - 1]) {
      TrimRightTrims(s[..|s| - 1]);
    }
  }

  lemma TrimIsTight(s: string)
    ensures Trim(s) == "" || Tight(Trim(s))
  {
    TrimLeftTrims(s);
    TrimRightTrims(TrimLeft(s));
  }

  lemma TightIsTrimmed(s: string)
    requires Tight(s)
    ensures Trim(s) == s
  {
    TrimPadded("", s, "");
    assert "" + s + "" == s;
  }

  lemma LowerCase(c: char, i: nat)
    requires i < 9
    ensures ('A' <= c <= 'Z' && c + 32 as char == "important"[i]) <==> c == "IMPORTANT"[i]
  {
    assert "IMPORTANT"[i] + 32 as char == "important"[i] && 'A' <= "IMPORTANT"[i] <= 'Z';
  }

  lemma LettersOfEitherCase(s: string)
    requires |s| == 9
    ensures SameLetters(s, "important") <==> forall i :: 0 <= i < 9 ==> s[i] == "important"[i] || s[i] == "IMPORTANT"[i]
  {
    forall i | 0 <= i < 9
      ensures (s[i] == "important"[i] || ('A' <= s[i] <= 'Z' && s[i] + 32 as char == "important"[i])) <==>
              (s[i] == "important"[i] || s[i] == "IMPORTANT"[i])
    {
      LowerCase(s[i], i);
    }
  }

  lemma MarkIsKept(t: string, k: nat)
    requires k < |t| && t[k] == '!' && Blank(t[k + 1..])
    ensures TrimRight(t) == t[..k + 1]
  {
    assert !IsSpace('!');
    TrimRightSkips(t[..k + 1], t[k + 1..]);
    assert t[..k + 1] + t[k + 1..] == t;
  }

  lemma LastMark(t: string)
    ensures var b := TrimRight(t);
      (b != "" && b[|b| - 1] == '!') <==> exists k :: 0 <= k < |t| && t[k] == '!' && Blank(t[k + 1..])
  {
    var after := RightTaken(t);
    var b := TrimRight(t);
    if b != "" && b[|b| - 1] == '!' {
      assert t[|b|..] == after && t[|b| - 1] == '!';
    }
    if k :| 0 <= k < |t| && t[k] == '!' && Blank(t[k + 1..]) {
      MarkIsKept(t, k);
    }
  }

  /** The test of the code finds just these. */
  lemma ImportantMeans(d: string)
    ensures IsImportant(d) <==> EndsImportant(d)
  {
    if |d| >= 9 {
      var t, word := d[..|d| - 9], d[|d| - 9..];
      LettersOfEitherCase(word);
      LastMark(t);
      forall k | 0 <= k < |t| ensures d[k] == t[k] && (AllWhite(d[k + 1..|d| - 9]) <==> Blank(t[k + 1..])) {
        assert d[k + 1..|d| - 9] == t[k + 1..];
        BlankIsWhite(t[k + 1..]);
      }
      assert forall i :: 0 <= i < 9 ==> d[|d| - 9 + i] == word[i];
      if EndsImportant(d) {
        var k :| 0 <= k < |d| - 9 && MarkAt(d, k);
        assert t[k] == '!' && Blank(t[k + 1..]);
      }
      if IsImportant(d) {
        var k :| 0 <= k < |t| && t[k] == '!' && Blank(t[k + 1..]);
        assert MarkAt(d, k);
      }
    }
  }

  lemma MarkIsImportant(d: string)
    ensures IsImportant(d + " !important")
  {
    var s := d + " !important";
    assert s[|s| - 9..] == "important";
    assert s[..|s| - 9] == d + " !";
  }

  /** A trimmed text, marked, ends in !important and is not changed by doing it again. */
  lemma MarkedIsDone(p: string)
    requires Trim(p) != ""
    ensures Marked(Trim(p)) == if EndsImportant(Trim(p)) then Trim(p) else Trim(p) + " !important"
    ensures Done(Marked(Trim(p)))
  {
    var d := Trim(p);
    ImportantMeans(d);
    ImportantMeans(d + " !important");
    TrimIsTight(p);
    if !IsImportant(d) {
      MarkIsImportant(d);
      var s := d + " !important";
      assert s[0] == d[0] && s[|s| - 1] == 't';
      TightIsTrimmed(s);
    } else {
      TightIsTrimmed(d);
    }
  }

  /** Every declaration that comes out ends in !important. */
  lemma {:induction false} EveryDeclarationIsImportant(ps: seq<string>)
    ensures AllDone(Finish(ps))
  {
    if ps != [] {
      EveryDeclarationIsImportant(ps[1..]);
      if Trim(ps[0]) != "" {
        MarkedIsDone(ps[0]);
      }
    }
  }

  function CountFilled(ps: seq<string>): nat {
    if ps == [] then 0 else (if Trim(ps[0]) == "" then 0 else 1) + CountFilled(ps[1..])
  }

  lemma {:induction false} FinishCounts(ps: seq<string>)
    ensures |Finish(ps)| == CountFilled(ps)
  {
    if ps != [] {
      FinishCounts(ps[1..]);
    }
  }

  lemma {:induction false} DeclarationsInPlace(ps: seq<string>, i: nat)
    requires i < |ps| && Trim(ps[i]) != ""
    ensures |Finish(ps)| == CountFilled(ps) && CountFilled(ps[..i]) < |Finish(ps)|
    ensures Finish(ps)[CountFilled(ps[..i])] == Marked(Trim(ps[i]))
  {
    FinishCounts(ps);
    if i > 0 {
      DeclarationsInPlace(ps[1..], i - 1);
      assert ps[..i][1..] == ps[1..][..i - 1] && ps[..i][0] == ps[0];
    }
  }

  /** Every piece that is not blank comes out, in its place, with at most the mark added, and nothing
      else does. */
  lemma DeclarationsAreKept(ps: seq<string>, i: nat)
    requires i < |ps| && Trim(ps[i]) != ""
    ensures |Finish(ps)| == CountFilled(ps) && CountFilled(ps[..i]) < |Finish(ps)|
    ensures var d := Finish(ps)[CountFilled(ps[..i])];
      d == if EndsImportant(Trim(ps[i])) then Trim(ps[i]) else Trim(ps[i]) + " !important"
  {
    DeclarationsInPlace(ps, i);
    MarkedIsDone(ps[i]);
  }

  lemma DoneStays(d: string)
    requires Done(d)
    ensures Trim(d) == d && Marked(d) == d
  {
    ImportantMeans(d);
  }

  lemma {:induction false} DoneIsFinished(ds: seq<string>)
    requires AllDone(ds)
    ensures Finish(ds) == ds
  {
    if ds != [] {
      assert AllDone(ds[1..]);
      DoneIsFinished(ds[1..]);
      assert Done(ds[0]);
      DoneStays(ds[0]);
      assert [ds[0]] + ds[1..] == ds;
    }
  }

  lemma FinishedFirst(p: string, last: bool, rest: seq<string>)
    requires Piece(p, last) && (rest != [] ==> !last && Good(rest, false, 0))
    requires Trim(p) != ""
    ensures Good([Marked(Trim(p))] + rest, false, 0)
  {
    var d := Marked(Trim(p));
    TrimmedPiece(p, last);
    MarkedPiece(Trim(p), last);
    assert ([d] + rest)[1..] == rest;
  }

  lemma FinishStep(ps: seq<string>, rest: seq<string>)
    requires ps != [] && rest == Finish(ps[1..])
    ensures Finish(ps) == if Trim(ps[0]) == "" then rest else [Marked(Trim(ps[0]))] + rest
    ensures |ps| == 1 ==> rest == []
  {
    assert [] + rest == rest;
  }

  /** Trimming, dropping and marking pieces leaves a list of pieces. */
  lemma {:induction false} FinishIsGood(ps: seq<string>)
    requires Good(ps, false, 0)
    ensures Finish(ps) == [] || Good(Finish(ps), false, 0)
  {
    var rest := Finish(ps[1..]);
    FinishStep(ps, rest);
    if |ps| > 1 {
      FinishIsGood(ps[1..]);
    }
    if Trim(ps[0]) != "" {
      FinishedFirst(ps[0], |ps| == 1, rest);
    }
  }

  /** The text that `importantify` cuts is the comment-free one: nothing is lost by the cuts, each
      piece is whole and none could be cut further. */
  lemma CutsAreRight(css: string)
    ensures var ps := Pieces(Strip(css, false), false, 0);
      Join(ps) == Strip(css, false) && Good(ps, false, 0)
  {
    StripIsClean(css, false);
    PiecesRejoin(Strip(css, false), false, 0);
    PiecesAreGood(Strip(css, false), false, 0);
  }

  /** What comes out is cut into just the declarations that were put in, each of which ends in
      !important. */
  lemma ImportantDeclarations(css: string)
    ensures var ds := Finish(Pieces(Strip(css, false), false, 0));
      && AllDone(ds)
      && Strip(Important(css), false) == Important(css)
      && Pieces(Important(css), false, 0) == (if ds == [] then [""] else ds)
  {
    var ps := Pieces(Strip(css, false), false, 0);
    CutsAreRight(css);
    EveryDeclarationIsImportant(ps);
    FinishIsGood(ps);
    if Finish(ps) != [] {
      JoinedIsCutAgain(Finish(ps));
      CleanIsKept(Join(Finish(ps)), false);
    }
  }

  lemma NothingIsFinished()
    ensures Finish([""]) == []
  {
  }

  /** Doing it twice is doing it once. */
  lemma ImportantTwice(css: string)
    ensures Important(Important(css)) == Important(css)
  {
    var ds := Finish(Pieces(Strip(css, false), false, 0));
    ImportantDeclarations(css);
    if ds == [] {
      NothingIsFinished();
    } else {
      DoneIsFinished(ds);
    }
  }
}
