/** The expression evaluator of design/support.js: `resolve`, `parensWrapWhole`,
    `findTopLevelEquality`, `resolvePath`. What JavaScript's own operators make of values is a
    parameter.
 */
module Expressions {
  import opened Prelude
  import opened Spaces

  datatype Value =
    | Undefined
    | Null
    | Bool(value: bool)
    | Text(chars: string)
    | Other(id: int)

  /** ===, ==, truthiness, v[key] of a v that is neither null nor undefined, and Number(text). */
  datatype Runtime = Runtime(
    identical: (Value, Value) -> bool,
    equal: (Value, Value) -> bool,
    truthy: Value -> bool,
    member: (Value, Value) -> Value,
    number: string -> Value)

  function Member(rt: Runtime, v: Value, key: Value): Value {
    if v.Undefined? || v.Null? then Undefined else rt.member(v, key)
  }

  // ---------------------------------------------------------------- characters

  predicate IsDigit(c: char) { '0' <= c <= '9' }

  predicate StartsName(c: char) { 'A' <= c <= 'Z' || 'a' <= c <= 'z' || c == '_' || c == '$' }

  predicate InName(c: char) { StartsName(c) || IsDigit(c) }

  predicate AllDigits(s: string) { s != "" && forall i :: 0 <= i < |s| ==> IsDigit(s[i]) }

  predicate IsName(s: string) { s != "" && StartsName(s[0]) && forall i :: 0 <= i < |s| ==> InName(s[i]) }

  function InNameLength(s: string): (n: nat)
    ensures n <= |s|
  {
    if s != "" && InName(s[0]) then 1 + InNameLength(s[1..]) else 0
  }

  /** How many characters at the start of s belong to a name or to a number. */
  function NameLength(s: string): (n: nat)
    ensures n <= |s|
  {
    if s != "" && StartsName(s[0]) then 1 + InNameLength(s[1..]) else 0
  }

  function DigitsLength(s: string): (n: nat)
    ensures n <= |s|
  {
    if s != "" && IsDigit(s[0]) then 1 + DigitsLength(s[1..]) else 0
  }

  /** Digits, or digits, a point and digits. */
  predicate IsDecimal(t: string) {
    AllDigits(t) || exists k :: 0 <= k < |t| && t[k] == '.' && AllDigits(t[..k]) && AllDigits(t[k + 1..])
  }

  predicate IsNumber(s: string) {
    IsDecimal(s) || (s != "" && s[0] == '-' && IsDecimal(s[1..]))
  }

  // ---------------------------------------------------------------- nesting

  datatype Kind = Parens | Brackets | Both

  predicate Opens(k: Kind, c: char) { (c == '(' && !k.Brackets?) || (c == '[' && !k.Parens?) }

  predicate Closes(k: Kind, c: char) { (c == ')' && !k.Brackets?) || (c == ']' && !k.Parens?) }

  /** How deep the end of s is nested. */
  function Level(k: Kind, s: string): int {
    if s == "" then 0
    else
      var c := s[|s| - 1];
      Level(k, s[..|s| - 1]) + if Opens(k, c) then 1 else if Closes(k, c) then -1 else 0
  }

  /** No parenthesis before the last character brings the nesting back to 0. */
  predicate Wraps(s: string) {
    forall i :: 0 <= i < |s| - 1 && s[i] == ')' ==> Level(Parens, s[..i + 1]) != 0
  }

  method ParensWrapWhole(expr: string) returns (r: bool)
    ensures r == Wraps(expr)
  {
    var depth := 0;
    var i := 0;
    while i < |expr| - 1
      invariant 0 <= i && (i <= |expr| - 1 || i == 0)
      invariant depth == Level(Parens, expr[..i])
      invariant forall j :: 0 <= j < i && expr[j] == ')' ==> Level(Parens, expr[..j + 1]) != 0
    {
      assert expr[..i + 1][..i] == expr[..i];
      if expr[i] == '(' {
        depth := depth + 1;
      } else if expr[i] == ')' {
        depth := depth - 1;
        if depth == 0 {
          return false;
        }
      }
      i := i + 1;
    }
    return true;
  }

  datatype Op = StrictEq | StrictNe | LooseEq | LooseNe {
    function Spelled(): string {
      match this
      case StrictEq => "==="
      case StrictNe => "!=="
      case LooseEq => "=="
      case LooseNe => "!="
    }

    function Compare(rt: Runtime, l: Value, r: Value): Value {
      match this
      case StrictEq => Bool(rt.identical(l, r))
      case StrictNe => Bool(!rt.identical(l, r))
      case LooseEq => Bool(rt.equal(l, r))
      case LooseNe => Bool(!rt.equal(l, r))
    }
  }

  predicate Marks(c: char) { c == '=' || c == '!' }

  predicate IsEquality(s: string, i: nat) {
    && i + 1 < |s|
    && Marks(s[i]) && s[i + 1] == '='
    && Level(Both, s[..i]) == 0
    && !(i > 0 && Marks(s[i - 1]))
    && Trim(s[..i]) != ""
  }

  function OpAt(s: string, i: nat): (op: Op)
    requires i + 1 < |s| && Marks(s[i]) && s[i + 1] == '='
    ensures op.Spelled() <= s[i..]
  {
    var strict := i + 2 < |s| && s[i + 2] == '=';
    if s[i] == '=' then (if strict then StrictEq else LooseEq)
    else if strict then StrictNe else LooseNe
  }

  /** The first equality operator from i on that is in no parentheses or brackets. */
  function FirstEquality(s: string, i: nat): (r: Option<nat>)
    requires i <= |s|
    ensures r.Some? ==> i <= r.value && IsEquality(s, r.value) && forall j :: i <= j < r.value ==> !IsEquality(s, j)
    ensures r.None? ==> forall j :: i <= j ==> !IsEquality(s, j)
    decreases |s| - i
  {
    if i == |s| then None
    else if IsEquality(s, i) then Some(i)
    else FirstEquality(s, i + 1)
  }

  method FindTopLevelEquality(expr: string) returns (r: Option<(nat, Op)>)
    ensures FirstEquality(expr, 0).None? ==> r == None
    ensures FirstEquality(expr, 0).Some? ==>
      r == Some((FirstEquality(expr, 0).value, OpAt(expr, FirstEquality(expr, 0).value)))
  {
    var depth := 0;
    var i := 0;
    while i < |expr|
      invariant 0 <= i <= |expr|
      invariant depth == Level(Both, expr[..i])
      invariant FirstEquality(expr, 0) == FirstEquality(expr, i)
    {
      assert expr[..i + 1][..i] == expr[..i];
      var c := expr[i];
      if c == '[' || c == '(' {
        depth := depth + 1;
      } else if c == ']' || c == ')' {
        depth := depth - 1;
      } else if depth == 0 && (c == '=' || c == '!') && i + 1 < |expr| && expr[i + 1] == '=' {
        if !(i > 0 && (expr[i - 1] == '=' || expr[i - 1] == '!')) && Trim(expr[..i]) != "" {
          return Some((i, OpAt(expr, i)));
        }
      }
      i := i + 1;
    }
    return None;
  }

  /** The bracket from j on that closes the one at i. */
  function Closing(s: string, i: nat, j: nat): (r: Option<nat>)
    requires i <= j <= |s|
    ensures r.Some? ==> j <= r.value < |s|
    decreases |s| - j
  {
    if j == |s| then None
    else if s[j] == ']' && Level(Brackets, s[i..j + 1]) == 0 then Some(j)
    else Closing(s, i, j + 1)
  }

  // ---------------------------------------------------------------- evaluation of a text

  /** The value of any text at all. */
  function Resolve(rt: Runtime, vals: Value, src: string): Value
    decreases |src|, 2, 0
  {
    var expr := Trim(src);
    if expr == "" then Undefined
    else if expr[0] == '(' && expr[|expr| - 1] == ')' && Wraps(expr) then Resolve(rt, vals, expr[1..|expr| - 1])
    else
      var eq := FirstEquality(expr, 0);
      if eq.Some? then
        var i := eq.value;
        var op := OpAt(expr, i);
        op.Compare(rt, Resolve(rt, vals, expr[..i]), Resolve(rt, vals, expr[i + |op.Spelled()|..]))
      else if expr[0] == '!' then Bool(!rt.truthy(Resolve(rt, vals, expr[1..])))
      else if expr == "true" then Bool(true)
      else if expr == "false" then Bool(false)
      else if expr == "null" then Null
      else if expr == "undefined" then Undefined
      else if IsNumber(expr) then rt.number(expr)
      else if |expr| >= 2 && (expr[0] == '"' || expr[0] == '\'') && expr[|expr| - 1] == expr[0]
      then Text(expr[1..|expr| - 1])
      else PathValue(rt, vals, expr)
  }

  function PathValue(rt: Runtime, vals: Value, expr: string): Value
    decreases |expr|, 1, 0
  {
    var n := NameLength(expr);
    if n == 0 then Undefined
    else Walk(rt, vals, expr, n, Member(rt, vals, Text(expr[..n])))
  }

  /** The rest of a path, from i on, below `cur`. */
  function Walk(rt: Runtime, vals: Value, expr: string, i: nat, cur: Value): Value
    requires 0 < i <= |expr|
    decreases |expr|, 0, |expr| - i
  {
    if i == |expr| then cur
    else
      var next := Turn(rt, vals, expr, i, cur);
      if next.None? then Undefined else Walk(rt, vals, expr, next.value.0, next.value.1)
  }

  function SegmentLength(s: string): (n: nat)
    ensures n <= |s|
  {
    if NameLength(s) > 0 then NameLength(s) else DigitsLength(s)
  }

  /** One segment of a path: where it ends and the value there, or None where the path breaks off. */
  function Turn(rt: Runtime, vals: Value, expr: string, i: nat, cur: Value): (next: Option<(nat, Value)>)
    requires 0 < i < |expr|
    ensures next.Some? ==> i < next.value.0 <= |expr|
    decreases |expr|, 0, 0
  {
    if expr[i] == '.' then
      var n := SegmentLength(expr[i + 1..]);
      if n == 0 then None else Some((i + 1 + n, Member(rt, cur, Text(expr[i + 1..i + 1 + n]))))
    else if expr[i] == '[' then
      var end := Closing(expr, i, i + 1);
      if end.None? then None
      else Some((end.value + 1, Member(rt, cur, Resolve(rt, vals, expr[i + 1..end.value]))))
    else None
  }

  method FindClosing(expr: string, i: nat) returns (r: Option<nat>)
    requires i < |expr| && expr[i] == '['
    ensures r == Closing(expr, i, i + 1)
  {
    var depth := 1;
    var j := i + 1;
    assert expr[i..j][..0] == "" && expr[i..j] == "[";
    while j < |expr| && depth > 0
      invariant i < j <= |expr|
      invariant depth == Level(Brackets, expr[i..j]) > 0
      invariant Closing(expr, i, i + 1) == Closing(expr, i, j)
    {
      assert expr[i..j + 1][..j - i] == expr[i..j];
      if expr[j] == '[' {
        depth := depth + 1;
      } else if expr[j] == ']' {
        depth := depth - 1;
        if depth == 0 {
          return Some(j);
        }
      }
      j := j + 1;
    }
    return None;
  }

  /** The length of a name at the start of s, or of a number. */
  method MatchSegment(s: string) returns (n: nat)
    ensures n == SegmentLength(s)
  {
    n := NameLength(s);
    if n == 0 {
      n := DigitsLength(s);
    }
  }

  method ResolveKey(rt: Runtime, vals: Value, expr: string, i: nat, cur: Value) returns (next: Option<(nat, Value)>)
    requires 0 < i < |expr| && expr[i] == '['
    ensures next == Turn(rt, vals, expr, i, cur)
  {
    var end := FindClosing(expr, i);
    if end.None? {
      return None;
    }
    var key := Resolve(rt, vals, expr[i + 1..end.value]);
    return Some((end.value + 1, Member(rt, cur, key)));
  }

  method ResolveSegment(rt: Runtime, vals: Value, expr: string, i: nat, cur: Value) returns (next: Option<(nat, Value)>)
    requires 0 < i < |expr|
    ensures next == Turn(rt, vals, expr, i, cur)
  {
    if expr[i] == '.' {
      var n := MatchSegment(expr[i + 1..]);
      if n == 0 {
        return None;
      }
      return Some((i + 1 + n, Member(rt, cur, Text(expr[i + 1..i + 1 + n]))));
    } else if expr[i] == '[' {
      next := ResolveKey(rt, vals, expr, i, cur);
      return;
    }
    return None;
  }

  /** The loop of `resolvePath`. */
  method ResolveSegments(rt: Runtime, vals: Value, expr: string, head: nat, first: Value) returns (cur: Value)
    requires 0 < head <= |expr|
    ensures cur == Walk(rt, vals, expr, head, first)
  {
    cur := first;
    var i := head;
    while i < |expr|
      invariant 0 < i <= |expr|
      invariant Walk(rt, vals, expr, head, first) == Walk(rt, vals, expr, i, cur)
      decreases |expr| - i
    {
      var next := ResolveSegment(rt, vals, expr, i, cur);
      if next.None? {
        return Undefined;
      }
      i, cur := next.value.0, next.value.1;
    }
  }

  method ResolvePath(rt: Runtime, vals: Value, expr: string) returns (cur: Value)
    ensures cur == PathValue(rt, vals, expr)
  {
    var head := NameLength(expr);
    if head == 0 {
      return Undefined;
    }
    cur := Member(rt, vals, Text(expr[..head]));
    cur := ResolveSegments(rt, vals, expr, head, cur);
  }
}
