/** The grammar that the expressions of a template are written in, and the proof that evaluating a
    printed tree is evaluating the tree. The scanners do not know quotes: the parentheses and
    brackets of a string literal are balanced, and it holds `==` or `!=` only inside them.
 */
module ExpressionTrees {
  import opened Prelude
  import opened Expressions
  import opened Spaces

  datatype Expr =
    | True
    | False
    | NullLiteral
    | UndefinedLiteral
    | Number(text: string)
    | Quoted(quote: char, chars: string)
    | Name(name: string)
    | Dot(base: Expr, segment: string)
    | At(base: Expr, before: string, key: Expr, after: string)
    | Not(space: string, arg: Expr)
    | Paren(before: string, arg: Expr, after: string)
    | Equality(left: Expr, before: string, op: Op, after: string, right: Expr)

  function Print(e: Expr): string {
    match e
    case True => "true"
    case False => "false"
    case NullLiteral => "null"
    case UndefinedLiteral => "undefined"
    case Number(text) => text
    case Quoted(quote, chars) => [quote] + chars + [quote]
    case Name(name) => name
    case Dot(base, segment) => Print(base) + ("." + segment)
    case At(base, before, key, after) => Print(base) + ("[" + (before + Print(key) + after) + "]")
    case Not(space, arg) => "!" + (space + Print(arg))
    case Paren(before, arg, after) => "(" + (before + Print(arg) + after) + ")"
    case Equality(left, before, op, after, right) => (Print(left) + before) + op.Spelled() + (after + Print(right))
  }

  function Eval(rt: Runtime, vals: Value, e: Expr): Value {
    match e
    case True => Bool(true)
    case False => Bool(false)
    case NullLiteral => Null
    case UndefinedLiteral => Undefined
    case Number(text) => rt.number(text)
    case Quoted(_, chars) => Text(chars)
    case Name(name) => Member(rt, vals, Text(name))
    case Dot(base, segment) => Member(rt, Eval(rt, vals, base), Text(segment))
    case At(base, _, key, _) => Member(rt, Eval(rt, vals, base), Eval(rt, vals, key))
    case Not(_, arg) => Bool(!rt.truthy(Eval(rt, vals, arg)))
    case Paren(_, arg, _) => Eval(rt, vals, arg)
    case Equality(left, _, op, _, right) => op.Compare(rt, Eval(rt, vals, left), Eval(rt, vals, right))
  }

  predicate Keyword(s: string) { s == "true" || s == "false" || s == "null" || s == "undefined" }

  predicate Plain(c: char) { c !in "()[]=!" }

  ghost predicate NotOperator(s: string, i: nat)
    requires i < |s| - 1
  {
    Marks(s[i]) && s[i + 1] == '=' ==> Level(Both, s[..i]) != 0
  }

  /** No `==` or `!=` at nesting 0. */
  ghost predicate NoOperator(s: string) {
    forall i :: 0 <= i < |s| - 1 ==> NotOperator(s, i)
  }

  ghost predicate NotBelow(k: Kind, s: string, i: nat)
    requires i <= |s|
  {
    Level(k, s[..i]) >= 0
  }

  /** The nesting never goes below that of the start and comes back to it. */
  ghost predicate Balanced(k: Kind, s: string) {
    Level(k, s) == 0 && forall i :: 0 <= i <= |s| ==> NotBelow(k, s, i)
  }

  ghost predicate Neat(s: string) { Balanced(Parens, s) && Balanced(Brackets, s) && Balanced(Both, s) }

  /** Negation binds tighter than equality and equality groups to the right; a keyword is a name
      only where a segment follows. */
  ghost predicate WellFormed(e: Expr)
    decreases e, 1
  {
    match e
    case True => true
    case False => true
    case NullLiteral => true
    case UndefinedLiteral => true
    case Number(text) => IsNumber(text)
    case Quoted(quote, chars) => (quote == '"' || quote == '\'') && Neat(chars) && NoOperator(chars)
    case Name(name) => IsName(name) && !Keyword(name)
    case Dot(_, _) => IsPath(e)
    case At(_, _, _, _) => IsPath(e)
    case Not(space, arg) => Blank(space) && WellFormed(arg) && !arg.Equality?
    case Paren(before, arg, after) => Blank(before) && WellFormed(arg) && Blank(after)
    case Equality(left, before, _, after, right) =>
      WellFormed(left) && !left.Equality? && Blank(before) && Blank(after) && WellFormed(right)
  }

  ghost predicate IsPath(e: Expr)
    decreases e, 0
  {
    match e
    case Name(name) => IsName(name)
    case Dot(base, segment) => IsPath(base) && (IsName(segment) || AllDigits(segment))
    case At(base, before, key, after) => IsPath(base) && Blank(before) && WellFormed(key) && Blank(after)
    case _ => false
  }

  // ---------------------------------------------------------------- nesting of a text

  lemma {:induction false} LevelOfConcat(k: Kind, a: string, b: string)
    ensures Level(k, a + b) == Level(k, a) + Level(k, b)
  {
    if b == "" {
      assert a + b == a;
    } else {
      var n := |b| - 1;
      LevelOfConcat(k, a, b[..n]);
      assert (a + b)[..|a + b| - 1] == a + b[..n];
    }
  }

  lemma BalancedConcat(k: Kind, a: string, b: string)
    requires Balanced(k, a) && Balanced(k, b)
    ensures Balanced(k, a + b)
  {
    LevelOfConcat(k, a, b);
    forall i | 0 <= i <= |a + b| ensures NotBelow(k, a + b, i) {
      if i <= |a| {
        assert NotBelow(k, a, i);
        assert (a + b)[..i] == a[..i];
      } else {
        assert NotBelow(k, b, i - |a|);
        assert (a + b)[..i] == a + b[..i - |a|];
        LevelOfConcat(k, a, b[..i - |a|]);
      }
    }
  }

  lemma {:induction false} UnnestedIsBalanced(k: Kind, s: string)
    requires forall i :: 0 <= i < |s| ==> !Opens(k, s[i]) && !Closes(k, s[i])
    ensures Balanced(k, s)
  {
    if s != "" {
      var n := |s| - 1;
      UnnestedIsBalanced(k, s[..n]);
      forall i | 0 <= i <= |s| ensures NotBelow(k, s, i) {
        if i <= n {
          assert NotBelow(k, s[..n], i);
          assert s[..n][..i] == s[..i];
        } else {
          assert s[..i] == s;
        }
      }
    }
  }

  lemma LevelOfOne(k: Kind, c: char)
    ensures Level(k, [c]) == if Opens(k, c) then 1 else if Closes(k, c) then -1 else 0
  {
    assert [c][..0] == "";
  }

  lemma LevelWithin(k: Kind, o: char, s: string, c: char, i: nat)
    requires 1 <= i <= |s| + 1
    ensures Level(k, ([o] + s + [c])[..i]) == Level(k, [o]) + Level(k, s[..i - 1])
  {
    assert ([o] + s + [c])[..i] == [o] + s[..i - 1];
    LevelOfConcat(k, [o], s[..i - 1]);
  }

  /** A balanced text in parentheses or brackets. */
  lemma BalancedWrap(k: Kind, o: char, s: string, c: char)
    requires Balanced(k, s)
    requires (o == '(' && c == ')') || (o == '[' && c == ']')
    ensures Balanced(k, [o] + s + [c])
  {
    var w := [o] + s + [c];
    LevelOfOne(k, o);
    LevelOfOne(k, c);
    LevelOfConcat(k, [o], s);
    LevelOfConcat(k, [o] + s, [c]);
    forall i | 0 <= i <= |w| ensures NotBelow(k, w, i) {
      if i == 0 {
        assert w[..i] == "";
      } else if i <= |s| + 1 {
        LevelWithin(k, o, s, c, i);
        assert NotBelow(k, s, i - 1);
      } else {
        assert w[..i] == w;
      }
    }
  }

  /** A text that can be put beside another without making an operator. */
  ghost predicate Unmarked(s: string) { s != "" && s[0] != '=' && !Marks(s[|s| - 1]) }

  lemma NoOperatorConcat(a: string, b: string)
    requires NoOperator(a) && NoOperator(b) && Balanced(Both, a)
    requires a != "" && b != "" ==> !Marks(a[|a| - 1]) || b[0] != '='
    ensures NoOperator(a + b)
  {
    var s := a + b;
    forall i | 0 <= i < |s| - 1 ensures NotOperator(s, i) {
      if i < |a| - 1 {
        assert NotOperator(a, i);
        assert s[..i] == a[..i];
      } else if i >= |a| {
        assert NotOperator(b, i - |a|);
        assert s[..i] == a + b[..i - |a|];
        LevelOfConcat(Both, a, b[..i - |a|]);
      }
    }
  }

  lemma NoOperatorWithin(o: char, s: string, c: char)
    requires Balanced(Both, s)
    requires (o == '(' && c == ')') || (o == '[' && c == ']')
    ensures NoOperator([o] + s + [c])
  {
    var w := [o] + s + [c];
    LevelOfOne(Both, o);
    forall i | 0 <= i < |w| - 1 ensures NotOperator(w, i) {
      if i > 0 {
        LevelWithin(Both, o, s, c, i);
        assert NotBelow(Both, s, i - 1);
      }
    }
  }

  /** The first parenthesis, if the text opens with it, is closed. */
  lemma {:induction false} FirstIsClosed(s: string, n: nat)
    requires 0 < n <= |s| && s[0] == '(' && Level(Parens, s[..n]) <= 0
    ensures exists i :: 0 <= i < n && s[i] == ')' && Level(Parens, s[..i + 1]) == 0
  {
    assert s[..1] == [s[0]];
    LevelOfOne(Parens, '(');
    assert s[..n][..n - 1] == s[..n - 1];
    if Level(Parens, s[..n - 1]) <= 0 {
      FirstIsClosed(s, n - 1);
    } else {
      assert s[..n - 1 + 1] == s[..n];
      assert s[n - 1] == ')';
    }
  }

  // ---------------------------------------------------------------- shape of a printed tree

  ghost predicate Shaped(s: string) { Neat(s) && Unmarked(s) && Tight(s) }

  lemma PlainIsNeat(s: string)
    requires forall i :: 0 <= i < |s| ==> Plain(s[i])
    ensures Neat(s) && NoOperator(s)
  {
    UnnestedIsBalanced(Parens, s);
    UnnestedIsBalanced(Brackets, s);
    UnnestedIsBalanced(Both, s);
  }

  lemma NeatConcat(a: string, b: string)
    requires Neat(a) && Neat(b)
    ensures Neat(a + b)
  {
    BalancedConcat(Parens, a, b);
    BalancedConcat(Brackets, a, b);
    BalancedConcat(Both, a, b);
  }

  lemma NeatWrap(o: char, s: string, c: char)
    requires Neat(s)
    requires (o == '(' && c == ')') || (o == '[' && c == ']')
    ensures Neat([o] + s + [c])
  {
    BalancedWrap(Parens, o, s, c);
    BalancedWrap(Brackets, o, s, c);
    BalancedWrap(Both, o, s, c);
  }

  lemma PaddedIsNeat(before: string, s: string, after: string)
    requires Blank(before) && Neat(s) && Blank(after)
    ensures Neat(before + s + after)
  {
    PlainIsNeat(before);
    PlainIsNeat(after);
    NeatConcat(before, s);
    NeatConcat(before + s, after);
  }

  lemma WrapIsShaped(o: char, before: string, s: string, after: string, c: char)
    requires Blank(before) && Neat(s) && Blank(after)
    requires (o == '(' && c == ')') || (o == '[' && c == ']')
    ensures var w := [o] + (before + s + after) + [c];
      Shaped(w) && NoOperator(w)
  {
    PaddedIsNeat(before, s, after);
    NeatWrap(o, before + s + after, c);
    NoOperatorWithin(o, before + s + after, c);
  }

  lemma DecimalIsPlain(t: string)
    requires IsDecimal(t)
    ensures t != "" && IsDigit(t[|t| - 1])
    ensures forall i :: 0 <= i < |t| ==> IsDigit(t[i]) || t[i] == '.'
  {
    if !AllDigits(t) {
      var k :| 0 <= k < |t| && t[k] == '.' && AllDigits(t[..k]) && AllDigits(t[k + 1..]);
      forall i | 0 <= i < |t| ensures IsDigit(t[i]) || t[i] == '.' {
        if i < k {
          assert t[i] == t[..k][i];
        } else if i > k {
          assert t[i] == t[k + 1..][i - k - 1];
        }
      }
      assert t[|t| - 1] == t[k + 1..][|t| - k - 2];
    }
  }

  lemma NumberIsPlain(s: string)
    requires IsNumber(s)
    ensures s != "" && IsDigit(s[|s| - 1])
    ensures forall i :: 0 <= i < |s| ==> IsDigit(s[i]) || s[i] == '-' || s[i] == '.'
  {
    if IsDecimal(s) {
      DecimalIsPlain(s);
    } else {
      DecimalIsPlain(s[1..]);
    }
  }

  lemma Joined(a: string, b: string)
    requires Shaped(a) && NoOperator(a) && Neat(b) && NoOperator(b)
    requires b != "" && b[0] != '=' && !Marks(b[|b| - 1]) && !IsSpace(b[|b| - 1])
    ensures Shaped(a + b) && NoOperator(a + b)
  {
    NeatConcat(a, b);
    NoOperatorConcat(a, b);
  }

  lemma NegationIsShaped(space: string, s: string)
    requires Blank(space) && Shaped(s) && NoOperator(s)
    ensures Shaped("!" + (space + s)) && NoOperator("!" + (space + s))
  {
    PlainIsNeat(space);
    NeatConcat(space, s);
    NoOperatorConcat(space, s);
    UnnestedIsBalanced(Parens, "!");
    UnnestedIsBalanced(Brackets, "!");
    UnnestedIsBalanced(Both, "!");
    NeatConcat("!", space + s);
    NoOperatorConcat("!", space + s);
  }

  lemma EqualityIsShaped(l: string, before: string, op: Op, after: string, r: string)
    requires Shaped(l) && Blank(before) && Blank(after) && Shaped(r)
    ensures Shaped((l + before) + op.Spelled() + (after + r))
  {
    PlainIsNeat(before);
    PlainIsNeat(after);
    var o := op.Spelled();
    UnnestedIsBalanced(Parens, o);
    UnnestedIsBalanced(Brackets, o);
    UnnestedIsBalanced(Both, o);
    NeatConcat(l, before);
    NeatConcat(after, r);
    NeatConcat(l + before, o);
    NeatConcat((l + before) + o, after + r);
  }

  lemma PlainIsShaped(s: string)
    requires forall i :: 0 <= i < |s| ==> Plain(s[i])
    requires Tight(s)
    ensures Shaped(s) && NoOperator(s)
  {
    PlainIsNeat(s);
  }

  predicate Atom(e: Expr) { !e.Dot? && !e.At? && !e.Not? && !e.Paren? && !e.Equality? }

  lemma KeywordIsShaped(s: string)
    requires Keyword(s)
    ensures Shaped(s) && NoOperator(s)
  {
    PlainIsShaped(s);
  }

  lemma QuotedIsShaped(quote: char, chars: string)
    requires WellFormed(Quoted(quote, chars))
    ensures Shaped([quote] + chars + [quote]) && NoOperator([quote] + chars + [quote])
  {
    var q := [quote];
    PlainIsNeat(q);
    NeatConcat(q, chars);
    NeatConcat(q + chars, q);
    NoOperatorConcat(q, chars);
    NoOperatorConcat(q + chars, q);
  }

  lemma AtomIsShaped(e: Expr)
    requires Atom(e) && (WellFormed(e) || IsPath(e))
    ensures Shaped(Print(e)) && NoOperator(Print(e))
  {
    match e
    case Number(text) =>
      NumberIsPlain(text);
      PlainIsShaped(text);
    case Name(name) =>
      PlainIsShaped(name);
    case Quoted(quote, chars) =>
      QuotedIsShaped(quote, chars);
    case _ =>
      KeywordIsShaped(Print(e));
  }

  ghost predicate PrintShaped(e: Expr) {
    Shaped(Print(e)) && (e.Equality? || NoOperator(Print(e)))
  }

  lemma DotIsShaped(base: Expr, segment: string)
    requires PrintShaped(base) && !base.Equality? && (IsName(segment) || AllDigits(segment))
    ensures PrintShaped(Dot(base, segment))
  {
    PlainIsNeat("." + segment);
    Joined(Print(base), "." + segment);
  }

  lemma AtIsShaped(base: Expr, before: string, key: Expr, after: string)
    requires PrintShaped(base) && !base.Equality? && PrintShaped(key) && Blank(before) && Blank(after)
    ensures PrintShaped(At(base, before, key, after))
  {
    WrapIsShaped('[', before, Print(key), after, ']');
    Joined(Print(base), "[" + (before + Print(key) + after) + "]");
  }

  lemma PathParts(e: Expr)
    requires (WellFormed(e) || IsPath(e)) && (e.Dot? || e.At?)
    ensures IsPath(e.base) && !e.base.Equality?
    ensures e.Dot? ==> IsName(e.segment) || AllDigits(e.segment)
    ensures e.At? ==> Blank(e.before) && WellFormed(e.key) && Blank(e.after)
  {
    assert IsPath(e);
  }

  lemma {:induction false} PrintIsShaped(e: Expr)
    requires WellFormed(e) || IsPath(e)
    ensures PrintShaped(e)
  {
    match e
    case Dot(base, segment) =>
      PathParts(e);
      PrintIsShaped(base);
      DotIsShaped(base, segment);
    case At(base, before, key, after) =>
      PathParts(e);
      PrintIsShaped(base);
      PrintIsShaped(key);
      AtIsShaped(base, before, key, after);
    case Not(space, arg) =>
      PrintIsShaped(arg);
      NegationIsShaped(space, Print(arg));
    case Paren(before, arg, after) =>
      PrintIsShaped(arg);
      WrapIsShaped('(', before, Print(arg), after, ')');
    case Equality(left, before, op, after, right) =>
      PrintIsShaped(left);
      PrintIsShaped(right);
      EqualityIsShaped(Print(left), before, op, after, Print(right));
    case _ =>
      AtomIsShaped(e);
  }

  // ---------------------------------------------------------------- matching

  lemma {:induction false} InNameLengthOf(name: string, rest: string)
    requires forall i :: 0 <= i < |name| ==> InName(name[i])
    requires rest == "" || !InName(rest[0])
    ensures InNameLength(name + rest) == |name|
  {
    if name == "" {
      assert name + rest == rest;
    } else {
      InNameLengthOf(name[1..], rest);
      assert (name + rest)[1..] == name[1..] + rest;
    }
  }

  lemma NameLengthOf(name: string, rest: string)
    requires IsName(name)
    requires rest == "" || !InName(rest[0])
    ensures NameLength(name + rest) == |name|
  {
    InNameLengthOf(name[1..], rest);
    assert (name + rest)[1..] == name[1..] + rest;
  }

  lemma {:induction false} DigitsLengthOf(digits: string, rest: string)
    requires forall i :: 0 <= i < |digits| ==> IsDigit(digits[i])
    requires rest == "" || !IsDigit(rest[0])
    ensures DigitsLength(digits + rest) == |digits|
  {
    if digits == "" {
      assert digits + rest == rest;
    } else {
      DigitsLengthOf(digits[1..], rest);
      assert (digits + rest)[1..] == digits[1..] + rest;
    }
  }

  lemma SegmentLengthOf(segment: string, rest: string)
    requires IsName(segment) || AllDigits(segment)
    requires rest == "" || !InName(rest[0])
    ensures SegmentLength(segment + rest) == |segment|
  {
    if IsName(segment) {
      NameLengthOf(segment, rest);
    } else {
      DigitsLengthOf(segment, rest);
      assert (segment + rest)[0] == segment[0];
    }
  }

  lemma {:induction false} ClosingOf(head: string, inner: string, rest: string, j: nat)
    requires Balanced(Brackets, inner) && |head| < j <= |head| + 1 + |inner|
    ensures Closing(head + ("[" + inner + "]") + rest, |head|, j) == Some(|head| + 1 + |inner|)
    decreases |head| + 1 + |inner| - j
  {
    var w := "[" + inner + "]";
    var s := head + w + rest;
    var i := |head|;
    assert s[i..j + 1] == w[..j + 1 - i];
    if j == i + 1 + |inner| {
      BalancedWrap(Brackets, '[', inner, ']');
      assert w[..j + 1 - i] == w;
    } else {
      LevelWithin(Brackets, '[', inner, ']', j + 1 - i);
      LevelOfOne(Brackets, '[');
      assert NotBelow(Brackets, inner, j - i);
      ClosingOf(head, inner, rest, j + 1);
    }
  }

  // ---------------------------------------------------------------- one node at a time

  lemma NoEqualityInside(s: string)
    requires NoOperator(s)
    ensures FirstEquality(s, 0) == None
  {
    forall i: nat ensures !IsEquality(s, i) {
      if i < |s| - 1 {
        assert NotOperator(s, i);
      }
    }
  }

  lemma SpellingIsRead(s: string, i: nat, op: Op, right: string)
    requires i <= |s| && s[i..] == op.Spelled() + right && (right == "" || right[0] != '=')
    ensures i + 1 < |s| && Marks(s[i]) && s[i + 1] == '=' && OpAt(s, i) == op
  {
    var w := op.Spelled() + right;
    assert |s| == i + |w|;
    assert s[i] == w[0] && s[i + 1] == w[1];
    assert |w| > 2 ==> i + 2 < |s| && s[i + 2] == w[2];
  }

  lemma OperatorIsEquality(left: string, op: Op, right: string, rest: string)
    requires Level(Both, left) == 0 && Trim(left) != "" && left != "" && !Marks(left[|left| - 1])
    requires rest == op.Spelled() + right && (right == "" || right[0] != '=')
    ensures IsEquality(left + rest, |left|)
    ensures OpAt(left + rest, |left|) == op
  {
    var s := left + rest;
    assert s[..|left|] == left;
    assert s[|left|..] == rest;
    SpellingIsRead(s, |left|, op, right);
  }

  lemma NoneBeforeOperator(left: string, rest: string, j: nat)
    requires NoOperator(left) && left != "" && !Marks(left[|left| - 1]) && j < |left|
    ensures !IsEquality(left + rest, j)
  {
    if j < |left| - 1 {
      assert NotOperator(left, j);
      assert (left + rest)[..j] == left[..j];
    }
  }

  lemma FirstIs(s: string, i: nat)
    requires i < |s| && IsEquality(s, i) && forall j: nat :: j < i ==> !IsEquality(s, j)
    ensures FirstEquality(s, 0) == Some(i)
  {
  }

  lemma FirstIsAfter(left: string, rest: string)
    requires NoOperator(left) && left != "" && !Marks(left[|left| - 1])
    requires IsEquality(left + rest, |left|)
    ensures FirstEquality(left + rest, 0) == Some(|left|)
  {
    forall j: nat | j < |left| ensures !IsEquality(left + rest, j) {
      NoneBeforeOperator(left, rest, j);
    }
    FirstIs(left + rest, |left|);
  }

  lemma LeftSide(l: string, before: string)
    requires Shaped(l) && NoOperator(l) && Blank(before)
    ensures var left := l + before;
      left != "" && Level(Both, left) == 0 && Trim(left) != "" && !Marks(left[|left| - 1]) && NoOperator(left)
  {
    PlainIsNeat(before);
    NeatConcat(l, before);
    NoOperatorConcat(l, before);
    TrimPadded("", l, before);
    assert "" + l + before == l + before;
  }

  lemma OperatorIsFound(l: string, before: string, op: Op, right: string)
    requires Shaped(l) && NoOperator(l) && Blank(before) && (right == "" || right[0] != '=')
    ensures var s := (l + before) + op.Spelled() + right;
      FirstEquality(s, 0) == Some(|l + before|) && OpAt(s, |l + before|) == op
  {
    var left, rest := l + before, op.Spelled() + right;
    LeftSide(l, before);
    OperatorIsEquality(left, op, right, rest);
    FirstIsAfter(left, rest);
    assert left + rest == (l + before) + op.Spelled() + right;
  }

  lemma NotWrapped(l: string, rest: string)
    requires Shaped(l) && rest != "" && l[0] == '('
    ensures !Wraps(l + rest)
  {
    assert l[..|l|] == l;
    FirstIsClosed(l, |l|);
    var i :| 0 <= i < |l| && l[i] == ')' && Level(Parens, l[..i + 1]) == 0;
    assert (l + rest)[..i + 1] == l[..i + 1];
  }

  lemma NoEnclosingParens(l: string, rest: string)
    requires Shaped(l) && rest != ""
    ensures !((l + rest)[0] == '(' && Wraps(l + rest))
  {
    if l[0] == '(' {
      NotWrapped(l, rest);
    }
  }

  lemma ResolveAtOperator(rt: Runtime, vals: Value, src: string, left: string, op: Op, right: string)
    requires var s := left + op.Spelled() + right;
      && Trim(src) == s && !(s[0] == '(' && Wraps(s))
      && FirstEquality(s, 0) == Some(|left|) && OpAt(s, |left|) == op
    ensures Resolve(rt, vals, src) == op.Compare(rt, Resolve(rt, vals, left), Resolve(rt, vals, right))
  {
    var s := left + op.Spelled() + right;
    assert s[..|left|] == left;
    assert s[|left| + |op.Spelled()|..] == right;
  }

  lemma NotAllInParens(l: string, before: string, op: Op, right: string)
    requires Shaped(l)
    ensures var s := (l + before) + op.Spelled() + right; !(s[0] == '(' && Wraps(s))
  {
    NoEnclosingParens(l, before + op.Spelled() + right);
    assert l + (before + op.Spelled() + right) == (l + before) + op.Spelled() + right;
  }

  lemma EqualityResolves(rt: Runtime, vals: Value, src: string, l: string,
                         before: string, op: Op, after: string, r: string)
    requires Shaped(l) && NoOperator(l) && Blank(before) && Blank(after) && Shaped(r)
    requires Trim(src) == (l + before) + op.Spelled() + (after + r)
    ensures Resolve(rt, vals, src) == op.Compare(rt, Resolve(rt, vals, l + before), Resolve(rt, vals, after + r))
  {
    OperatorIsFound(l, before, op, after + r);
    NotAllInParens(l, before, op, after + r);
    ResolveAtOperator(rt, vals, src, l + before, op, after + r);
  }

  lemma ParenResolves(rt: Runtime, vals: Value, src: string, inner: string)
    requires Neat(inner) && Trim(src) == "(" + inner + ")"
    ensures Resolve(rt, vals, src) == Resolve(rt, vals, inner)
  {
    var s := "(" + inner + ")";
    LevelOfOne(Parens, '(');
    forall i | 0 <= i < |s| - 1 && s[i] == ')' ensures Level(Parens, s[..i + 1]) != 0 {
      LevelWithin(Parens, '(', inner, ')', i + 1);
      assert NotBelow(Parens, inner, i);
    }
    assert s[1..|s| - 1] == inner;
  }

  lemma NegationResolves(rt: Runtime, vals: Value, src: string, rest: string)
    requires NoOperator("!" + rest) && Trim(src) == "!" + rest
    ensures Resolve(rt, vals, src) == Bool(!rt.truthy(Resolve(rt, vals, rest)))
  {
    NoEqualityInside("!" + rest);
    assert ("!" + rest)[1..] == rest;
  }

  // ---------------------------------------------------------------- atoms and paths

  lemma PlainTextResolves(rt: Runtime, vals: Value, src: string, s: string)
    requires Trim(src) == s && FirstEquality(s, 0) == None && s != "" && s[0] != '(' && s[0] != '!'
    ensures s == "true" ==> Resolve(rt, vals, src) == Bool(true)
    ensures s == "false" ==> Resolve(rt, vals, src) == Bool(false)
    ensures s == "null" ==> Resolve(rt, vals, src) == Null
    ensures s == "undefined" ==> Resolve(rt, vals, src) == Undefined
    ensures !Keyword(s) && IsNumber(s) ==> Resolve(rt, vals, src) == rt.number(s)
    ensures !IsNumber(s) && |s| >= 2 && (s[0] == '"' || s[0] == '\'') && s[|s| - 1] == s[0] ==>
      Resolve(rt, vals, src) == Text(s[1..|s| - 1])
    ensures !Keyword(s) && !IsNumber(s) && s[0] != '"' && s[0] != '\'' ==>
      Resolve(rt, vals, src) == PathValue(rt, vals, s)
  {
  }

  lemma FirstOfNumber(s: string)
    requires IsNumber(s)
    ensures s != "" && (IsDigit(s[0]) || s[0] == '-')
  {
    NumberIsPlain(s);
    if IsDecimal(s) && !AllDigits(s) {
      var k :| 0 <= k < |s| && s[k] == '.' && AllDigits(s[..k]) && AllDigits(s[k + 1..]);
      assert s[0] == s[..k][0];
    }
  }

  lemma AtomResolves(rt: Runtime, vals: Value, src: string, e: Expr)
    requires WellFormed(e) && Atom(e) && !e.Name? && Trim(src) == Print(e)
    ensures Resolve(rt, vals, src) == Eval(rt, vals, e)
  {
    AtomIsShaped(e);
    NoEqualityInside(Print(e));
    match e
    case Number(text) =>
      FirstOfNumber(text);
      PlainTextResolves(rt, vals, src, text);
    case Quoted(quote, chars) =>
      var s := [quote] + chars + [quote];
      if IsNumber(s) {
        FirstOfNumber(s);
      }
      assert s[1..|s| - 1] == chars;
      PlainTextResolves(rt, vals, src, s);
    case _ =>
      PlainTextResolves(rt, vals, src, Print(e));
  }

  lemma {:induction false} PathStartsWithName(e: Expr)
    requires IsPath(e)
    ensures Print(e) != "" && StartsName(Print(e)[0])
  {
    match e
    case Name(_) =>
    case Dot(base, _) => PathStartsWithName(base);
    case At(base, _, _, _) => PathStartsWithName(base);
  }

  lemma KeywordIsName(s: string)
    requires Keyword(s)
    ensures forall i :: 0 <= i < |s| ==> InName(s[i])
  {
    forall i | 0 <= i < |s| ensures InName(s[i]) {
      assert s[i] in "truefalsnudi";
      assert 'a' <= s[i] <= 'z';
    }
  }

  lemma NoKeywordWith(s: string, i: nat)
    requires i < |s| && !InName(s[i])
    ensures !Keyword(s)
  {
    if Keyword(s) {
      KeywordIsName(s);
    }
  }

  lemma PathEndsInSegment(e: Expr)
    requires IsPath(e) && !e.Name?
    ensures !Keyword(Print(e))
  {
    if e.Dot? {
      NoKeywordWith(Print(e.base) + ("." + e.segment), |Print(e.base)|);
    } else {
      var wrapped := "[" + (e.before + Print(e.key) + e.after) + "]";
      NoKeywordWith(Print(e.base) + wrapped, |Print(e.base)|);
    }
  }

  lemma PathResolves(rt: Runtime, vals: Value, src: string, e: Expr)
    requires IsPath(e) && WellFormed(e) && Trim(src) == Print(e)
    ensures Resolve(rt, vals, src) == PathValue(rt, vals, Print(e))
  {
    var s := Print(e);
    PrintIsShaped(e);
    NoEqualityInside(s);
    PathStartsWithName(e);
    if !e.Name? {
      PathEndsInSegment(e);
    }
    if IsNumber(s) {
      FirstOfNumber(s);
    }
    PlainTextResolves(rt, vals, src, s);
  }

  ghost predicate EndsSegment(rest: string) { rest == "" || !InName(rest[0]) }

  lemma DotTurns(rt: Runtime, vals: Value, head: string, segment: string, rest: string, cur: Value)
    requires head != "" && (IsName(segment) || AllDigits(segment)) && EndsSegment(rest)
    ensures var s := head + ("." + segment) + rest;
      Turn(rt, vals, s, |head|, cur) == Some((|head + ("." + segment)|, Member(rt, cur, Text(segment))))
  {
    var s := head + ("." + segment) + rest;
    assert s[|head| + 1..] == segment + rest;
    SegmentLengthOf(segment, rest);
    assert s[|head| + 1..|head| + 1 + |segment|] == segment;
  }

  lemma TurnAtBracket(rt: Runtime, vals: Value, s: string, i: nat, inner: string, cur: Value)
    requires 0 < i < |s| && s[i] == '[' && Closing(s, i, i + 1) == Some(i + 1 + |inner|)
    requires s[i + 1..i + 1 + |inner|] == inner
    ensures Turn(rt, vals, s, i, cur) == Some((i + 2 + |inner|, Member(rt, cur, Resolve(rt, vals, inner))))
  {
  }

  lemma KeyTurns(rt: Runtime, vals: Value, head: string, inner: string, rest: string, cur: Value)
    requires head != "" && Balanced(Brackets, inner)
    ensures var s := head + ("[" + inner + "]") + rest;
      Turn(rt, vals, s, |head|, cur) == Some((|head + ("[" + inner + "]")|, Member(rt, cur, Resolve(rt, vals, inner))))
  {
    var s := head + ("[" + inner + "]") + rest;
    ClosingOf(head, inner, rest, |head| + 1);
    assert s[|head| + 1..|head| + 1 + |inner|] == inner;
    TurnAtBracket(rt, vals, s, |head|, inner, cur);
  }

  ghost predicate Walked(rt: Runtime, vals: Value, head: string, rest: string, cur: Value) {
    head != "" && PathValue(rt, vals, head + rest) == Walk(rt, vals, head + rest, |head|, cur)
  }

  lemma NameIsWalked(rt: Runtime, vals: Value, name: string, rest: string)
    requires IsName(name) && EndsSegment(rest)
    ensures Walked(rt, vals, name, rest, Member(rt, vals, Text(name)))
  {
    NameLengthOf(name, rest);
    assert (name + rest)[..|name|] == name;
  }

  lemma OneTurnOn(rt: Runtime, vals: Value, head: string, segment: string, rest: string, cur: Value, next: Value)
    requires Walked(rt, vals, head, segment + rest, cur) && segment != ""
    requires Turn(rt, vals, head + segment + rest, |head|, cur) == Some((|head + segment|, next))
    ensures Walked(rt, vals, head + segment, rest, next)
  {
    assert head + (segment + rest) == head + segment + rest;
  }

  lemma KeyIsNeat(before: string, key: Expr, after: string)
    requires Blank(before) && WellFormed(key) && Blank(after)
    ensures Neat(before + Print(key) + after)
  {
    PrintIsShaped(key);
    PaddedIsNeat(before, Print(key), after);
  }

  /** A path at the start of a text is walked over, and leaves its value. */
  lemma {:induction false} PathIsWalked(rt: Runtime, vals: Value, e: Expr, rest: string)
    requires IsPath(e) && EndsSegment(rest)
    ensures Walked(rt, vals, Print(e), rest, Eval(rt, vals, e))
    decreases e, 0
  {
    match e
    case Name(name) =>
      NameIsWalked(rt, vals, name, rest);
    case Dot(base, segment) =>
      PathIsWalked(rt, vals, base, ("." + segment) + rest);
      DotTurns(rt, vals, Print(base), segment, rest, Eval(rt, vals, base));
      OneTurnOn(rt, vals, Print(base), "." + segment, rest, Eval(rt, vals, base), Eval(rt, vals, e));
    case At(base, before, key, after) =>
      var inner := before + Print(key) + after;
      PathIsWalked(rt, vals, base, ("[" + inner + "]") + rest);
      EvaluatingTheText(rt, vals, before, key, after);
      KeyIsNeat(before, key, after);
      KeyTurns(rt, vals, Print(base), inner, rest, Eval(rt, vals, base));
      OneTurnOn(rt, vals, Print(base), "[" + inner + "]", rest, Eval(rt, vals, base), Eval(rt, vals, e));
  }

  // ---------------------------------------------------------------- the whole tree

  lemma PrintIsTrimmed(before: string, e: Expr, after: string)
    requires Blank(before) && WellFormed(e) && Blank(after)
    ensures Trim(before + Print(e) + after) == Print(e)
  {
    PrintIsShaped(e);
    TrimPadded(before, Print(e), after);
  }

  lemma WholePath(rt: Runtime, vals: Value, src: string, e: Expr)
    requires IsPath(e) && WellFormed(e) && Trim(src) == Print(e)
    requires Walked(rt, vals, Print(e), "", Eval(rt, vals, e))
    ensures Resolve(rt, vals, src) == Eval(rt, vals, e)
  {
    assert Print(e) + "" == Print(e);
    PathResolves(rt, vals, src, e);
  }

  lemma WholeNegation(rt: Runtime, vals: Value, src: string, space: string, arg: Expr)
    requires WellFormed(Not(space, arg)) && Trim(src) == Print(Not(space, arg))
    requires Resolve(rt, vals, space + Print(arg)) == Eval(rt, vals, arg)
    ensures Resolve(rt, vals, src) == Eval(rt, vals, Not(space, arg))
  {
    PrintIsShaped(Not(space, arg));
    NegationResolves(rt, vals, src, space + Print(arg));
  }

  lemma WholeParen(rt: Runtime, vals: Value, src: string, before: string, arg: Expr, after: string)
    requires WellFormed(Paren(before, arg, after)) && Trim(src) == Print(Paren(before, arg, after))
    requires Resolve(rt, vals, before + Print(arg) + after) == Eval(rt, vals, arg)
    ensures Resolve(rt, vals, src) == Eval(rt, vals, Paren(before, arg, after))
  {
    KeyIsNeat(before, arg, after);
    ParenResolves(rt, vals, src, before + Print(arg) + after);
  }

  lemma WholeEquality(rt: Runtime, vals: Value, src: string, e: Expr)
    requires e.Equality? && WellFormed(e) && Trim(src) == Print(e)
    requires Resolve(rt, vals, Print(e.left) + e.before) == Eval(rt, vals, e.left)
    requires Resolve(rt, vals, e.after + Print(e.right)) == Eval(rt, vals, e.right)
    ensures Resolve(rt, vals, src) == Eval(rt, vals, e)
  {
    PrintIsShaped(e.left);
    PrintIsShaped(e.right);
    EqualityResolves(rt, vals, src, Print(e.left), e.before, e.op, e.after, Print(e.right));
  }

  lemma NothingAround(before: string, s: string, after: string)
    ensures "" + s + after == s + after
    ensures before + s + "" == before + s
  {
  }

  /** Evaluating the text of a tree, with any white space around it, is evaluating the tree. */
  lemma {:induction false} EvaluatingTheText(rt: Runtime, vals: Value, before: string, e: Expr, after: string)
    requires Blank(before) && WellFormed(e) && Blank(after)
    ensures Resolve(rt, vals, before + Print(e) + after) == Eval(rt, vals, e)
    decreases e, 1
  {
    var src := before + Print(e) + after;
    PrintIsTrimmed(before, e, after);
    if e.Not? {
      EvaluatingTheText(rt, vals, e.space, e.arg, "");
      NothingAround(e.space, Print(e.arg), "");
      WholeNegation(rt, vals, src, e.space, e.arg);
    } else if e.Paren? {
      EvaluatingTheText(rt, vals, e.before, e.arg, e.after);
      WholeParen(rt, vals, src, e.before, e.arg, e.after);
    } else if e.Equality? {
      EvaluatingTheText(rt, vals, "", e.left, e.before);
      EvaluatingTheText(rt, vals, e.after, e.right, "");
      NothingAround(e.after, Print(e.right), "");
      NothingAround("", Print(e.left), e.before);
      WholeEquality(rt, vals, src, e);
    } else if IsPath(e) {
      PathIsWalked(rt, vals, e, "");
      WholePath(rt, vals, src, e);
    } else {
      AtomResolves(rt, vals, src, e);
    }
  }

  lemma OperatorGivesBool(rt: Runtime, vals: Value, src: string, s: string)
    requires Trim(src) == s && s != "" && s[0] != '(' && FirstEquality(s, 0).Some?
    ensures Resolve(rt, vals, src).Bool?
  {
  }

  lemma QuoteStandsAlone(quote: char, chars: string)
    requires quote == '"' || quote == '\''
    ensures var s := [quote] + chars + [quote]; Trim(s) == s && !IsNumber(s) && s[1..|s| - 1] == chars
  {
    var s := [quote] + chars + [quote];
    TrimPadded("", s, "");
    assert "" + s + "" == s;
    if IsNumber(s) {
      FirstOfNumber(s);
    }
  }

  /** A quoted text, of any characters, is a string literal if and only if no equality operator is
      found in it: `findTopLevelEquality` does not know quotes. */
  lemma QuotedIsText(rt: Runtime, vals: Value, quote: char, chars: string)
    requires quote == '"' || quote == '\''
    ensures var s := [quote] + chars + [quote];
      Resolve(rt, vals, s) == Text(chars) <==> FirstEquality(s, 0) == None
  {
    var s := [quote] + chars + [quote];
    QuoteStandsAlone(quote, chars);
    if FirstEquality(s, 0).None? {
      PlainTextResolves(rt, vals, s, s);
    } else {
      OperatorGivesBool(rt, vals, s, s);
    }
  }

  lemma OperatorInQuotes(left: string, rest: string)
    requires left == "'a" && rest == "==b'"
    ensures IsEquality(left + rest, 2)
  {
    UnnestedIsBalanced(Both, left);
    TrimPadded("", left, "");
    assert "" + left + "" == left;
    OperatorIsEquality(left, LooseEq, "b'", rest);
  }

  /** One that is not: 'a==b' is a comparison. */
  lemma QuotedOperatorIsMisread(rt: Runtime, vals: Value, chars: string)
    requires chars == "a==b"
    ensures Resolve(rt, vals, ['\''] + chars + ['\'']) != Text(chars)
  {
    var s := ['\''] + chars + ['\''];
    OperatorInQuotes("'a", "==b'");
    assert s == "'a" + "==b'";
    QuotedIsText(rt, vals, '\'', chars);
  }

  // ---------------------------------------------------------------- the meaning of each form, spelled out

  lemma PrintedIsEvaluated(rt: Runtime, vals: Value, e: Expr)
    requires WellFormed(e)
    ensures Resolve(rt, vals, Print(e)) == Eval(rt, vals, e)
  {
    EvaluatingTheText(rt, vals, "", e, "");
    assert "" + Print(e) + "" == Print(e);
  }

  lemma ComparisonIs(rt: Runtime, vals: Value, e: Expr, x: Value, y: Value)
    requires e.Equality? && WellFormed(e)
    requires x == Resolve(rt, vals, Print(e.left)) && y == Resolve(rt, vals, Print(e.right))
    ensures Resolve(rt, vals, Print(e)) ==
            match e.op
            case StrictEq => Bool(rt.identical(x, y))
            case StrictNe => Bool(!rt.identical(x, y))
            case LooseEq => Bool(rt.equal(x, y))
            case LooseNe => Bool(!rt.equal(x, y))
  {
    PrintedIsEvaluated(rt, vals, e.left);
    PrintedIsEvaluated(rt, vals, e.right);
    PrintedIsEvaluated(rt, vals, e);
  }

  lemma PrintedComparison(l: Expr, before: string, op: Op, after: string, r: Expr, sign: string)
    requires sign == match op case StrictEq => "===" case StrictNe => "!==" case LooseEq => "==" case LooseNe => "!="
    ensures (Print(l) + before) + sign + (after + Print(r)) == Print(Equality(l, before, op, after, r))
  {
  }

  /** What each operator answers, of the values of its two sides. */
  lemma ComparisonMeans(rt: Runtime, vals: Value, left: Expr, before: string, after: string, right: Expr,
                        l: string, r: string, x: Value, y: Value)
    requires WellFormed(left) && !left.Equality? && Blank(before) && Blank(after) && WellFormed(right)
    requires l == Print(left) + before && r == after + Print(right)
    requires x == Resolve(rt, vals, Print(left)) && y == Resolve(rt, vals, Print(right))
    ensures Resolve(rt, vals, l + "===" + r) == Bool(rt.identical(x, y))
    ensures Resolve(rt, vals, l + "!==" + r) == Bool(!rt.identical(x, y))
    ensures Resolve(rt, vals, l + "==" + r) == Bool(rt.equal(x, y))
    ensures Resolve(rt, vals, l + "!=" + r) == Bool(!rt.equal(x, y))
  {
    PrintedComparison(left, before, StrictEq, after, right, "===");
    PrintedComparison(left, before, StrictNe, after, right, "!==");
    PrintedComparison(left, before, LooseEq, after, right, "==");
    PrintedComparison(left, before, LooseNe, after, right, "!=");
    ComparisonIs(rt, vals, Equality(left, before, StrictEq, after, right), x, y);
    ComparisonIs(rt, vals, Equality(left, before, StrictNe, after, right), x, y);
    ComparisonIs(rt, vals, Equality(left, before, LooseEq, after, right), x, y);
    ComparisonIs(rt, vals, Equality(left, before, LooseNe, after, right), x, y);
  }

  lemma NegationMeans(rt: Runtime, vals: Value, space: string, arg: Expr)
    requires Blank(space) && WellFormed(arg) && !arg.Equality?
    ensures Resolve(rt, vals, "!" + (space + Print(arg))) == Bool(!rt.truthy(Resolve(rt, vals, Print(arg))))
  {
    PrintedIsEvaluated(rt, vals, arg);
    PrintedIsEvaluated(rt, vals, Not(space, arg));
  }

  lemma ParenMeans(rt: Runtime, vals: Value, before: string, arg: Expr, after: string)
    requires Blank(before) && WellFormed(arg) && Blank(after)
    ensures Resolve(rt, vals, "(" + (before + Print(arg) + after) + ")") == Resolve(rt, vals, Print(arg))
  {
    PrintedIsEvaluated(rt, vals, arg);
    PrintedIsEvaluated(rt, vals, Paren(before, arg, after));
  }

  lemma WordsMean(rt: Runtime, vals: Value)
    ensures Resolve(rt, vals, "true") == Bool(true) && Resolve(rt, vals, "false") == Bool(false)
    ensures Resolve(rt, vals, "null") == Null && Resolve(rt, vals, "undefined") == Undefined
  {
    PrintedIsEvaluated(rt, vals, True);
    PrintedIsEvaluated(rt, vals, False);
    PrintedIsEvaluated(rt, vals, NullLiteral);
    PrintedIsEvaluated(rt, vals, UndefinedLiteral);
  }

  ghost predicate SomeDigits(s: string) { s != "" && forall i :: 0 <= i < |s| ==> '0' <= s[i] <= '9' }

  /** Digits, with a minus before them or not, and a point and further digits behind or not. */
  lemma NumberMeans(rt: Runtime, vals: Value, minus: string, whole: string, fraction: string)
    requires SomeDigits(whole) && (minus == "" || minus == "-")
    requires fraction == "" || (fraction[0] == '.' && SomeDigits(fraction[1..]))
    ensures Resolve(rt, vals, minus + (whole + fraction)) == rt.number(minus + (whole + fraction))
  {
    var t := whole + fraction;
    if fraction == "" {
      assert t == whole;
    } else {
      assert t[|whole|] == '.' && t[..|whole|] == whole && t[|whole| + 1..] == fraction[1..];
    }
    assert IsDecimal(t);
    if minus == "" {
      assert minus + t == t;
    } else {
      assert (minus + t)[0] == '-' && (minus + t)[1..] == t;
    }
    PrintedIsEvaluated(rt, vals, Number(minus + t));
  }

  lemma StringMeans(rt: Runtime, vals: Value, chars: string)
    requires forall i :: 0 <= i < |chars| ==> chars[i] !in "()[]=!"
    ensures Resolve(rt, vals, "'" + chars + "'") == Text(chars)
    ensures Resolve(rt, vals, "\"" + chars + "\"") == Text(chars)
  {
    PlainIsNeat(chars);
    PrintedIsEvaluated(rt, vals, Quoted('\'', chars));
    PrintedIsEvaluated(rt, vals, Quoted('"', chars));
    assert ['\''] == "'" && ['"'] == "\"";
  }

  ghost predicate LetterOrSign(c: char) { 'A' <= c <= 'Z' || 'a' <= c <= 'z' || c == '_' || c == '$' }

  ghost predicate Identifier(s: string) {
    && s != "" && LetterOrSign(s[0])
    && forall i :: 0 <= i < |s| ==> LetterOrSign(s[i]) || '0' <= s[i] <= '9'
  }

  lemma NameMeans(rt: Runtime, vals: Value, name: string)
    requires Identifier(name) && name != "true" && name != "false" && name != "null" && name != "undefined"
    ensures Resolve(rt, vals, name) ==
            if vals == Undefined || vals == Null then Undefined else rt.member(vals, Text(name))
  {
    PrintedIsEvaluated(rt, vals, Name(name));
  }

  /** A property read of nothing is nothing. */
  lemma PropertyMeans(rt: Runtime, vals: Value, base: Expr, segment: string, b: Value)
    requires IsPath(base) && WellFormed(base) && (Identifier(segment) || SomeDigits(segment))
    requires b == Resolve(rt, vals, Print(base))
    ensures Resolve(rt, vals, Print(base) + ("." + segment)) ==
            if b == Undefined || b == Null then Undefined else rt.member(b, Text(segment))
  {
    PrintedIsEvaluated(rt, vals, base);
    PrintedIsEvaluated(rt, vals, Dot(base, segment));
  }

  lemma IndexMeans(rt: Runtime, vals: Value, base: Expr, before: string, key: Expr, after: string, b: Value, k: Value)
    requires IsPath(base) && WellFormed(base) && Blank(before) && WellFormed(key) && Blank(after)
    requires b == Resolve(rt, vals, Print(base)) && k == Resolve(rt, vals, Print(key))
    ensures Resolve(rt, vals, Print(base) + ("[" + (before + Print(key) + after) + "]")) ==
            if b == Undefined || b == Null then Undefined else rt.member(b, k)
  {
    PrintedIsEvaluated(rt, vals, base);
    PrintedIsEvaluated(rt, vals, key);
    PrintedIsEvaluated(rt, vals, At(base, before, key, after));
  }

  lemma {:induction false} BlankTrimsToNothing(s: string)
    requires Blank(s)
    ensures TrimLeft(s) == "" && Trim(s) == ""
  {
    if s != "" { BlankTrimsToNothing(s[1..]); }
  }

  /** White space around a text means nothing, and white space alone is undefined. */
  lemma SpaceMeansNothing(rt: Runtime, vals: Value, before: string, e: Expr, after: string)
    requires forall i :: 0 <= i < |before| ==> before[i] in " \t\n\r"
    requires forall i :: 0 <= i < |after| ==> after[i] in " \t\n\r"
    requires WellFormed(e)
    ensures Resolve(rt, vals, before + Print(e) + after) == Resolve(rt, vals, Print(e))
    ensures Resolve(rt, vals, before) == Undefined
  {
    PrintedIsEvaluated(rt, vals, e);
    EvaluatingTheText(rt, vals, before, e, after);
    BlankTrimsToNothing(before);
  }

  lemma OtherTextHasNoOperator(p: string, t: string)
    requires Shaped(p) && NoOperator(p) && t != "" && !IsSpace(t[|t| - 1])
    requires forall i :: 0 <= i < |t| ==> Plain(t[i])
    ensures Trim(p + t) == p + t && FirstEquality(p + t, 0) == None
  {
    PlainIsNeat(t);
    NoOperatorConcat(p, t);
    NoEqualityInside(p + t);
    TrimPadded("", p + t, "");
    assert "" + (p + t) + "" == p + t;
  }

  lemma OtherTextIsNoWord(p: string, t: string)
    requires p != "" && StartsName(p[0]) && t != "" && !InName(t[0])
    ensures !Keyword(p + t) && !IsNumber(p + t)
  {
    assert (p + t)[|p|] == t[0];
    if Keyword(p + t) {
      KeywordIsName(p + t);
    }
    if IsNumber(p + t) {
      FirstOfNumber(p + t);
    }
  }

  lemma NoTurnHere(rt: Runtime, vals: Value, p: string, t: string, cur: Value)
    requires Walked(rt, vals, p, t, cur) && t != "" && t[0] != '.' && t[0] != '['
    ensures PathValue(rt, vals, p + t) == Undefined
  {
    var s := p + t;
    assert s[|p|] == t[0];
    assert Turn(rt, vals, s, |p|, cur) == None;
  }

  /** A path that goes on with something else, as in a sum, is undefined. */
  lemma OtherTextIsUndefined(rt: Runtime, vals: Value, base: Expr, t: string)
    requires IsPath(base) && t != "" && t[0] != '.' && !LetterOrSign(t[0]) && !('0' <= t[0] <= '9')
    requires !IsSpace(t[|t| - 1]) && forall i :: 0 <= i < |t| ==> t[i] !in "()[]=!"
    ensures Resolve(rt, vals, Print(base) + t) == Undefined
  {
    var p := Print(base);
    PrintIsShaped(base);
    PathStartsWithName(base);
    OtherTextHasNoOperator(p, t);
    OtherTextIsNoWord(p, t);
    PathIsWalked(rt, vals, base, t);
    NoTurnHere(rt, vals, p, t, Eval(rt, vals, base));
    assert (p + t)[0] == p[0];
    PlainTextResolves(rt, vals, p + t, p + t);
  }

  lemma EndsInOperator(l: string, before: string, op: Op)
    requires Shaped(l) && Blank(before)
    ensures var s := (l + before) + op.Spelled() + ""; Trim(s) == s && !(s[0] == '(' && Wraps(s))
  {
    var s := (l + before) + op.Spelled() + "";
    NotAllInParens(l, before, op, "");
    assert s[0] == l[0] && s[|s| - 1] == '=';
    TrimPadded("", s, "");
    assert "" + s + "" == s;
  }

  /** A comparison without a right side is one with undefined. */
  lemma MissingRightSide(rt: Runtime, vals: Value, left: Expr, before: string, op: Op, x: Value)
    requires WellFormed(left) && !left.Equality? && Blank(before) && x == Resolve(rt, vals, Print(left))
    ensures Resolve(rt, vals, Print(left) + before + op.Spelled()) ==
            match op
            case StrictEq => Bool(rt.identical(x, Undefined))
            case StrictNe => Bool(!rt.identical(x, Undefined))
            case LooseEq => Bool(rt.equal(x, Undefined))
            case LooseNe => Bool(!rt.equal(x, Undefined))
  {
    var l := Print(left);
    PrintIsShaped(left);
    OperatorIsFound(l, before, op, "");
    EndsInOperator(l, before, op);
    ResolveAtOperator(rt, vals, (l + before) + op.Spelled() + "", l + before, op, "");
    EvaluatingTheText(rt, vals, "", left, before);
    NothingAround("", l, before);
    PrintedIsEvaluated(rt, vals, left);
    assert Trim("") == "";
    assert (l + before) + op.Spelled() + "" == l + before + op.Spelled();
  }

  lemma SignsAtStart(s: string, n: nat, t: string)
    requires (s == "==" + t && n == 2) || (s == "===" + t && n == 3)
    requires forall i :: 0 <= i < |t| ==> Plain(t[i])
    ensures FirstEquality(s, 0) == None
  {
    forall i: nat ensures !IsEquality(s, i) {
      if i == 0 {
        assert s[..0] == "" && Trim("") == "";
      } else if n <= i < |s| {
        assert s[i] == t[i - n];
      }
    }
  }

  lemma StartsWithSign(rt: Runtime, vals: Value, s: string)
    requires s != "" && s[0] == '=' && !IsSpace(s[|s| - 1]) && FirstEquality(s, 0) == None
    ensures Resolve(rt, vals, s) == Undefined
  {
    TrimPadded("", s, "");
    assert "" + s + "" == s;
    if IsNumber(s) {
      FirstOfNumber(s);
    }
    PlainTextResolves(rt, vals, s, s);
  }

  lemma NoOperatorNoPath(rt: Runtime, vals: Value, s: string, n: nat, t: string)
    requires (s == "==" + t && n == 2) || (s == "===" + t && n == 3)
    requires t != "" && !IsSpace(t[|t| - 1]) && forall i :: 0 <= i < |t| ==> Plain(t[i])
    ensures Resolve(rt, vals, s) == Undefined
  {
    SignsAtStart(s, n, t);
    assert s[|s| - 1] == t[|t| - 1];
    StartsWithSign(rt, vals, s);
  }

  /** With nothing before it, an operator is none, and the text is no path. */
  lemma MissingLeftSide(rt: Runtime, vals: Value, t: string)
    requires t != "" && !IsSpace(t[|t| - 1]) && forall i :: 0 <= i < |t| ==> t[i] !in "()[]=!"
    ensures Resolve(rt, vals, "==" + t) == Undefined && Resolve(rt, vals, "===" + t) == Undefined
  {
    NoOperatorNoPath(rt, vals, "==" + t, 2, t);
    NoOperatorNoPath(rt, vals, "===" + t, 3, t);
  }

  ghost predicate PointAt(t: string, k: nat)
    requires k < |t|
  {
    t[k] == '.' && SomeDigits(t[..k]) && SomeDigits(t[k + 1..])
  }

  ghost predicate DecimalText(t: string) {
    SomeDigits(t) || exists k :: 0 <= k < |t| && PointAt(t, k)
  }

  /** A minus or none, digits, and a point and digits behind them or not. */
  ghost predicate NumberText(s: string) {
    DecimalText(if s != "" && s[0] == '-' then s[1..] else s)
  }

  lemma DecimalsMean(t: string)
    ensures IsDecimal(t) <==> DecimalText(t)
  {
    forall k | 0 <= k < |t|
      ensures PointAt(t, k) <==> t[k] == '.' && AllDigits(t[..k]) && AllDigits(t[k + 1..]) {
    }
  }

  lemma DecimalHasNoMinus(s: string)
    ensures s != "" && s[0] == '-' ==> !IsDecimal(s)
  {
    if IsDecimal(s) {
      DecimalIsPlain(s);
      assert s[0] != '-';
    }
  }

  lemma NumbersMean(s: string)
    ensures IsNumber(s) <==> NumberText(s)
  {
    DecimalsMean(s);
    DecimalHasNoMinus(s);
    if s != "" && s[0] == '-' {
      DecimalsMean(s[1..]);
    }
  }

  lemma KeywordStartsName(s: string)
    requires Keyword(s)
    ensures LetterOrSign(s[0])
  {
  }

  /** A text that begins neither as a path nor as a literal is undefined. */
  lemma NoHeadIsUndefined(rt: Runtime, vals: Value, s: string)
    requires s != "" && !IsSpace(s[0]) && !IsSpace(s[|s| - 1]) && forall i :: 0 <= i < |s| ==> s[i] !in "()[]=!"
    requires !LetterOrSign(s[0]) && s[0] != '"' && s[0] != '\'' && !NumberText(s)
    ensures Resolve(rt, vals, s) == Undefined
  {
    PlainIsNeat(s);
    NoEqualityInside(s);
    TrimPadded("", s, "");
    assert "" + s + "" == s;
    NumbersMean(s);
    if Keyword(s) {
      KeywordStartsName(s);
    }
    PlainTextResolves(rt, vals, s, s);
  }

  lemma DotThenPlain(t: string)
    requires (t == "" || !IsSpace(t[|t| - 1])) && forall i :: 0 <= i < |t| ==> Plain(t[i])
    ensures !IsSpace(("." + t)[|t|]) && forall i :: 0 <= i < |"." + t| ==> Plain(("." + t)[i])
  {
  }

  lemma DotTurnsNowhere(rt: Runtime, vals: Value, p: string, t: string, cur: Value)
    requires Walked(rt, vals, p, "." + t, cur) && (t == "" || !InName(t[0]))
    ensures PathValue(rt, vals, p + ("." + t)) == Undefined
  {
    var s := p + ("." + t);
    assert s[|p|] == '.' && s[|p| + 1..] == t;
    assert Turn(rt, vals, s, |p|, cur) == None;
  }

  /** A path breaks off at a bracket that is not closed and at a dot without a name. */
  lemma BrokenPathIsUndefined(rt: Runtime, vals: Value, base: Expr, t: string)
    requires IsPath(base) && forall i :: 0 <= i < |t| ==> t[i] !in "()[]=!"
    requires t == "" || (!IsSpace(t[|t| - 1]) && !LetterOrSign(t[0]) && !('0' <= t[0] <= '9'))
    ensures Resolve(rt, vals, Print(base) + ("." + t)) == Undefined
  {
    var p, rest := Print(base), "." + t;
    DotThenPlain(t);
    PrintIsShaped(base);
    PathStartsWithName(base);
    OtherTextHasNoOperator(p, rest);
    OtherTextIsNoWord(p, rest);
    PathIsWalked(rt, vals, base, rest);
    DotTurnsNowhere(rt, vals, p, t, Eval(rt, vals, base));
    assert (p + rest)[0] == p[0];
    PlainTextResolves(rt, vals, p + rest, p + rest);
  }

  lemma BracketThenPlain(t: string)
    requires t != "" && !IsSpace(t[|t| - 1]) && forall i :: 0 <= i < |t| ==> Plain(t[i])
    ensures NoOperator("[" + t) && !IsSpace(("[" + t)[|t|])
  {
    var rest := "[" + t;
    assert rest[|t|] == t[|t| - 1];
    forall i | 0 <= i < |rest| - 1 ensures NotOperator(rest, i) {
      assert rest[i + 1] == t[i];
    }
  }

  lemma NeatEnds(p: string, t: string)
    requires p != "" && !IsSpace(p[0]) && t != "" && !IsSpace(t[|t| - 1])
    ensures Trim(p + t) == p + t
  {
    TrimPadded("", p + t, "");
    assert "" + (p + t) + "" == p + t;
  }

  lemma OpenBracketHasNoOperator(p: string, t: string)
    requires Shaped(p) && NoOperator(p) && t != "" && !IsSpace(t[|t| - 1])
    requires forall i :: 0 <= i < |t| ==> Plain(t[i])
    ensures Trim(p + ("[" + t)) == p + ("[" + t) && FirstEquality(p + ("[" + t), 0) == None
  {
    BracketThenPlain(t);
    NoOperatorConcat(p, "[" + t);
    NoEqualityInside(p + ("[" + t));
    NeatEnds(p, "[" + t);
  }

  lemma {:induction false} NeverClosed(s: string, i: nat, j: nat)
    requires i <= j <= |s| && forall k :: j <= k < |s| ==> s[k] != ']'
    ensures Closing(s, i, j) == None
    decreases |s| - j
  {
    if j < |s| { NeverClosed(s, i, j + 1); }
  }

  lemma BracketTurnsNowhere(rt: Runtime, vals: Value, p: string, t: string, cur: Value)
    requires Walked(rt, vals, p, "[" + t, cur) && forall i :: 0 <= i < |t| ==> Plain(t[i])
    ensures PathValue(rt, vals, p + ("[" + t)) == Undefined
  {
    var s := p + ("[" + t);
    assert s[|p|] == '[';
    forall k | |p| + 1 <= k < |s| ensures s[k] != ']' {
      assert s[k] == t[k - |p| - 1];
    }
    NeverClosed(s, |p|, |p| + 1);
    assert Turn(rt, vals, s, |p|, cur) == None;
  }

  lemma UnclosedBracketIsUndefined(rt: Runtime, vals: Value, base: Expr, t: string)
    requires IsPath(base) && t != "" && !IsSpace(t[|t| - 1]) && forall i :: 0 <= i < |t| ==> t[i] !in "()[]=!"
    ensures Resolve(rt, vals, Print(base) + ("[" + t)) == Undefined
  {
    var p, rest := Print(base), "[" + t;
    PrintIsShaped(base);
    PathStartsWithName(base);
    OpenBracketHasNoOperator(p, t);
    OtherTextIsNoWord(p, rest);
    PathIsWalked(rt, vals, base, rest);
    BracketTurnsNowhere(rt, vals, p, t, Eval(rt, vals, base));
    assert (p + rest)[0] == p[0];
    PlainTextResolves(rt, vals, p + rest, p + rest);
  }
}
