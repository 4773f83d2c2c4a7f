/** The CNPJ check of internal/workshop/validate.go. */
module Cnpj {

  const LENGTH: nat := 14
  const FIRST_WEIGHTS: seq<int> := [5, 4, 3, 2, 9, 8, 7, 6, 5, 4, 3, 2]
  const SECOND_WEIGHTS: seq<int> := [6, 5, 4, 3, 2, 9, 8, 7, 6, 5, 4, 3, 2]

  predicate IsDigit(c: char) { '0' <= c <= '9' }

  function DigitsOf(raw: string): (s: string)
    ensures forall i :: 0 <= i < |s| ==> IsDigit(s[i])
  {
    if raw == "" then "" else
      DigitsOf(raw[..|raw| - 1]) + (if IsDigit(raw[|raw| - 1]) then [raw[|raw| - 1]] else [])
  }

  method NormalizeCNPJ(raw: string) returns (s: string)
    ensures s == DigitsOf(raw)
  {
    s := "";
    for i := 0 to |raw|
      invariant s == DigitsOf(raw[..i])
    {
      assert raw[..i + 1][..i] == raw[..i];
      if '0' <= raw[i] <= '9' {
        s := s + [raw[i]];
      }
    }
    assert raw[..|raw|] == raw;
  }

  /** What a sign-up form may contain around the digits is dropped; digits alone are kept as they are. */
  lemma {:induction false} NormalizedStays(s: string)
    requires forall i :: 0 <= i < |s| ==> IsDigit(s[i])
    ensures DigitsOf(s) == s
  {
    if s != "" {
      var n := |s| - 1;
      NormalizedStays(s[..n]);
      assert s == s[..n] + [s[n]];
    }
  }

  /** Read from the front: the digits in their order, and nothing else. */
  lemma {:induction false} NormalizedMeans(c: char, rest: string)
    ensures DigitsOf("") == ""
    ensures DigitsOf([c] + rest) == if c in "0123456789" then [c] + DigitsOf(rest) else DigitsOf(rest)
  {
    var raw := [c] + rest;
    if rest == "" {
      assert raw[..0] == "";
    } else {
      NormalizedMeans(c, rest[..|rest| - 1]);
      assert raw[..|raw| - 1] == [c] + rest[..|rest| - 1];
    }
  }

  function Value(c: char): int { c as int - '0' as int }

  function Values(s: string): (v: seq<int>)
    ensures |v| == |s| && forall i :: 0 <= i < |s| ==> v[i] == Value(s[i])
  {
    seq(|s|, i requires 0 <= i < |s| => Value(s[i]))
  }

  function Weighted(digits: seq<int>, weights: seq<int>): int
    requires |digits| <= |weights|
  {
    if digits == [] then 0 else
      var n := |digits| - 1;
      Weighted(digits[..n], weights) + digits[n] * weights[n]
  }

  /** Go's `%` takes the sign of its left operand. */
  function Remainder(sum: int): int {
    if sum >= 0 then sum % 11 else -(-sum % 11)
  }

  function CheckDigit(sum: int): int {
    if Remainder(sum) >= 2 then 11 - Remainder(sum) else 0
  }

  method ComputeCheckDigit(digits: seq<int>, weights: seq<int>) returns (d: int)
    requires |digits| <= |weights|
    ensures d == CheckDigit(Weighted(digits, weights))
  {
    var sum := 0;
    for i := 0 to |digits|
      invariant sum == Weighted(digits[..i], weights)
    {
      assert digits[..i + 1][..i] == digits[..i];
      sum := sum + digits[i] * weights[i];
    }
    assert digits[..|digits|] == digits;
    var remainder := Remainder(sum);
    if remainder >= 2 {
      return 11 - remainder;
    }
    return 0;
  }

  function FirstSum(digits: seq<int>): int
    requires |digits| == LENGTH
  {
    Weighted(digits[..12], FIRST_WEIGHTS)
  }

  function SecondSum(digits: seq<int>): int
    requires |digits| == LENGTH
  {
    Weighted(digits[..13], SECOND_WEIGHTS)
  }

  ghost predicate ChecksHold(digits: seq<int>) {
    |digits| == LENGTH && digits[12] == CheckDigit(FirstSum(digits)) && digits[13] == CheckDigit(SecondSum(digits))
  }

  ghost predicate AllSame(s: string) {
    forall i, j :: 0 <= i < j < |s| ==> s[i] == s[j]
  }

  ghost predicate Accepted(s: string) {
    |s| == LENGTH && !AllSame(s) && ChecksHold(Values(s))
  }

  /** Go's `strings.Count` for a one-character string. */
  function Count(s: string, c: char): nat {
    if s == "" then 0 else (if s[0] == c then 1 else 0) + Count(s[1..], c)
  }

  lemma {:induction false} CountAll(s: string, c: char)
    ensures Count(s, c) <= |s|
    ensures Count(s, c) == |s| <==> forall i :: 0 <= i < |s| ==> s[i] == c
  {
    if s != "" {
      CountAll(s[1..], c);
      assert forall i :: 0 < i < |s| ==> s[i] == s[1..][i - 1];
      assert forall i :: 0 <= i < |s| - 1 ==> s[1..][i] == s[i + 1];
    }
  }

  datatype Verdict = Valid | WrongLength | Invalid

  method ValidateCNPJ(cnpj: string) returns (v: Verdict)
    ensures v == WrongLength <==> |cnpj| != LENGTH
    ensures v == Valid <==> Accepted(cnpj)
  {
    if |cnpj| != LENGTH {
      return WrongLength;
    }
    CountAll(cnpj, cnpj[0]);
    if Count(cnpj, cnpj[0]) == LENGTH {
      return Invalid;
    }
    var digits := [];
    for i := 0 to |cnpj|
      invariant digits == Values(cnpj[..i])
    {
      digits := digits + [Value(cnpj[i])];
    }
    assert cnpj[..|cnpj|] == cnpj;
    var first := ComputeCheckDigit(digits[..12], FIRST_WEIGHTS);
    var second := ComputeCheckDigit(digits[..13], SECOND_WEIGHTS);
    if digits[12] != first || digits[13] != second {
      return Invalid;
    }
    return Valid;
  }

  // ---------------------------------------------------------------- the check, digit by digit

  lemma OneMoreWeighs(digits: seq<int>, weights: seq<int>, n: nat, d: int, w: int)
    requires n < |digits| <= |weights| && d == digits[n] && w == weights[n]
    ensures Weighted(digits[..n + 1], weights) == Weighted(digits[..n], weights) + w * d
  {
    assert digits[..n + 1][..n] == digits[..n];
  }

  lemma FourMoreWeigh(digits: seq<int>, weights: seq<int>, n: nat, a: int, b: int, c: int, d: int)
    requires n + 4 <= |digits| <= |weights|
    requires a == weights[n] && b == weights[n + 1] && c == weights[n + 2] && d == weights[n + 3]
    ensures Weighted(digits[..n + 4], weights) == Weighted(digits[..n], weights)
            + a * digits[n] + b * digits[n + 1] + c * digits[n + 2] + d * digits[n + 3]
  {
    OneMoreWeighs(digits, weights, n, digits[n], a);
    OneMoreWeighs(digits, weights, n + 1, digits[n + 1], b);
    OneMoreWeighs(digits, weights, n + 2, digits[n + 2], c);
    OneMoreWeighs(digits, weights, n + 3, digits[n + 3], d);
  }

  lemma FirstSumMeans(v: seq<int>)
    requires |v| == 14
    ensures FirstSum(v) == 5 * v[0] + 4 * v[1] + 3 * v[2] + 2 * v[3] + 9 * v[4] + 8 * v[5]
                         + 7 * v[6] + 6 * v[7] + 5 * v[8] + 4 * v[9] + 3 * v[10] + 2 * v[11]
  {
    var d := v[..12];
    assert d[..12] == d;
    FourMoreWeigh(d, FIRST_WEIGHTS, 0, 5, 4, 3, 2);
    FourMoreWeigh(d, FIRST_WEIGHTS, 4, 9, 8, 7, 6);
    FourMoreWeigh(d, FIRST_WEIGHTS, 8, 5, 4, 3, 2);
  }

  lemma SecondSumMeans(v: seq<int>)
    requires |v| == 14
    ensures SecondSum(v) == 6 * v[0] + 5 * v[1] + 4 * v[2] + 3 * v[3] + 2 * v[4] + 9 * v[5] + 8 * v[6]
                          + 7 * v[7] + 6 * v[8] + 5 * v[9] + 4 * v[10] + 3 * v[11] + 2 * v[12]
  {
    var d := v[..13];
    assert d[..13] == d;
    FourMoreWeigh(d, SECOND_WEIGHTS, 0, 6, 5, 4, 3);
    FourMoreWeigh(d, SECOND_WEIGHTS, 4, 2, 9, 8, 7);
    FourMoreWeigh(d, SECOND_WEIGHTS, 8, 6, 5, 4, 3);
    OneMoreWeighs(d, SECOND_WEIGHTS, 12, v[12], 2);
  }

  /** The check digit that makes the sum divisible by eleven, where one does; else 0, as for the
      negative sums that other characters than digits may have. */
  ghost function Completing(sum: int): int { if sum < 0 || sum % 11 < 2 then 0 else 11 - sum % 11 }

  /** Which strings are accepted: fourteen characters, not all the same, of which the last two complete
      these sums of those before them, each counted from the character 0. */
  lemma AcceptedMeans(s: string, v: seq<int>)
    requires |v| == |s| && forall i :: 0 <= i < |s| ==> v[i] == s[i] as int - '0' as int
    ensures Accepted(s) <==>
      && |s| == 14 && (exists i :: 0 <= i < |s| && s[i] != s[0])
      && v[12] == Completing(5 * v[0] + 4 * v[1] + 3 * v[2] + 2 * v[3] + 9 * v[4] + 8 * v[5]
                             + 7 * v[6] + 6 * v[7] + 5 * v[8] + 4 * v[9] + 3 * v[10] + 2 * v[11])
      && v[13] == Completing(6 * v[0] + 5 * v[1] + 4 * v[2] + 3 * v[3] + 2 * v[4] + 9 * v[5] + 8 * v[6]
                             + 7 * v[7] + 6 * v[8] + 5 * v[9] + 4 * v[10] + 3 * v[11] + 2 * v[12])
  {
    assert Values(s) == v;
    if |s| == 14 {
      FirstSumMeans(v);
      SecondSumMeans(v);
    }
  }

  // ---------------------------------------------------------------- what the check digits catch

  ghost predicate AllDigits(v: seq<int>) {
    forall i :: 0 <= i < |v| ==> 0 <= v[i] <= 9
  }

  lemma {:induction false} WeightedUpdate(digits: seq<int>, weights: seq<int>, i: int, d: int)
    requires 0 <= i < |digits| <= |weights|
    ensures Weighted(digits[i := d], weights) == Weighted(digits, weights) + weights[i] * (d - digits[i])
  {
    var n := |digits| - 1;
    var changed := digits[i := d];
    if i < n {
      assert changed[..n] == digits[..n][i := d];
      WeightedUpdate(digits[..n], weights, i, d);
    } else {
      assert changed[..n] == digits[..n];
      assert d * weights[i] == digits[i] * weights[i] + weights[i] * (d - digits[i]);
    }
  }

  lemma {:induction false} WeightedNatural(digits: seq<int>, weights: seq<int>)
    requires |digits| <= |weights| && AllDigits(digits) && forall i :: 0 <= i < |weights| ==> weights[i] >= 0
    ensures Weighted(digits, weights) >= 0
  {
    if digits != [] {
      var n := |digits| - 1;
      assert AllDigits(digits[..n]);
      WeightedNatural(digits[..n], weights);
      assert digits[n] * weights[n] >= 0;
    }
  }

  /** A weight between 2 and 9 never turns a change of one digit into a multiple of eleven. */
  lemma ElevenIsPrime(w: int, delta: int)
    requires 2 <= w <= 9 && -9 <= delta <= 9 && delta != 0
    ensures (w * delta) % 11 != 0
  {
    if w == 2 {} else if w == 3 {} else if w == 4 {} else if w == 5 {}
    else if w == 6 {} else if w == 7 {} else if w == 8 {} else {}
  }

  /** The same nonzero check digit cannot survive a change; a zero one stands for two remainders. */
  lemma CheckDigitMoves(sum: int, sum': int, w: int, delta: int)
    requires sum >= 0 && sum' >= 0 && sum' == sum + w * delta
    requires 2 <= w <= 9 && -9 <= delta <= 9 && delta != 0
    ensures CheckDigit(sum) == CheckDigit(sum') <==> sum % 11 < 2 && sum' % 11 < 2
    ensures CheckDigit(sum) == 0 <==> sum % 11 < 2
  {
    ElevenIsPrime(w, delta);
    assert sum % 11 != sum' % 11;
  }

  /** Changing one of the twelve base digits moves both sums, by a multiple of a weight each. */
  lemma BaseChange(digits: seq<int>, i: int, d: int)
    requires |digits| == LENGTH && AllDigits(digits) && 0 <= i < 12 && 0 <= d <= 9 && d != digits[i]
    ensures var changed := digits[i := d];
      && FirstSum(changed) == FirstSum(digits) + FIRST_WEIGHTS[i] * (d - digits[i])
      && SecondSum(changed) == SecondSum(digits) + SECOND_WEIGHTS[i] * (d - digits[i])
      && 2 <= FIRST_WEIGHTS[i] <= 9 && 2 <= SECOND_WEIGHTS[i] <= 9
      && FirstSum(digits) >= 0 && SecondSum(digits) >= 0 && FirstSum(changed) >= 0 && SecondSum(changed) >= 0
  {
    var changed := digits[i := d];
    assert changed[..12] == digits[..12][i := d] && changed[..13] == digits[..13][i := d];
    WeightedUpdate(digits[..12], FIRST_WEIGHTS, i, d);
    WeightedUpdate(digits[..13], SECOND_WEIGHTS, i, d);
    WeightedNatural(digits[..12], FIRST_WEIGHTS);
    WeightedNatural(digits[..13], SECOND_WEIGHTS);
    WeightedNatural(changed[..12], FIRST_WEIGHTS);
    WeightedNatural(changed[..13], SECOND_WEIGHTS);
  }

  /** The two check digits hold again after a change of one digit. */
  lemma WrongDigitPasses(digits: seq<int>, i: int, d: int)
    requires ChecksHold(digits) && AllDigits(digits) && 0 <= i < LENGTH && 0 <= d <= 9 && d != digits[i]
    ensures ChecksHold(digits[i := d]) <==>
            && digits[12] == 0 && digits[13] == 0 && i < 12
            && FirstSum(digits[i := d]) % 11 < 2 && SecondSum(digits[i := d]) % 11 < 2
  {
    var changed := digits[i := d];
    if i < 12 {
      BaseChange(digits, i, d);
      CheckDigitMoves(FirstSum(digits), FirstSum(changed), FIRST_WEIGHTS[i], d - digits[i]);
      CheckDigitMoves(SecondSum(digits), SecondSum(changed), SECOND_WEIGHTS[i], d - digits[i]);
    } else {
      assert changed[..12] == digits[..12];
      if i == 13 { assert changed[..13] == digits[..13]; }
    }
  }

  lemma {:induction false} NothingWeighs(digits: seq<int>, weights: seq<int>)
    requires |digits| <= |weights| && forall i :: 0 <= i < |digits| ==> digits[i] == 0
    ensures Weighted(digits, weights) == 0
  {
    if digits != [] { NothingWeighs(digits[..|digits| - 1], weights); }
  }

  /** Two neighbouring weights do not both turn the same digit into a remainder of 1. */
  lemma WeightsDiffer(w: int, w': int, d: int)
    requires 2 <= w <= 9 && 2 <= w' <= 9 && (w' == w + 1 || w' == w - 7) && 1 <= d <= 9
    ensures (w * d) % 11 >= 2 || (w' * d) % 11 >= 2
  {
    ElevenIsPrime(w, d);
    ElevenIsPrime(w', d);
    if w' == w + 1 {
      assert w' * d == w * d + d;
    } else {
      assert w' * d == w * d - 7 * d;
      ElevenIsPrime(7, d);
    }
  }

  /** A single digit among zeros is never checked by 00. */
  lemma LoneDigitFails(zeros: seq<int>, i: int, d: int)
    requires |zeros| == LENGTH && (forall k :: 0 <= k < LENGTH ==> zeros[k] == 0) && 0 <= i < 12 && 1 <= d <= 9
    ensures !ChecksHold(zeros[i := d])
  {
    NothingWeighs(zeros[..12], FIRST_WEIGHTS);
    NothingWeighs(zeros[..13], SECOND_WEIGHTS);
    BaseChange(zeros, i, d);
    WeightsDiffer(FIRST_WEIGHTS[i], SECOND_WEIGHTS[i], d);
  }

  /** Exactly when an accepted number is still accepted with one digit replaced: it ends in 00, the
      digit is not one of those two, and both new sums leave a remainder of 0 or 1. */
  lemma MistypedNumberAccepted(cnpj: string, i: int, c: char)
    requires Accepted(cnpj) && (forall k :: 0 <= k < |cnpj| ==> IsDigit(cnpj[k]))
    requires 0 <= i < LENGTH && IsDigit(c) && c != cnpj[i]
    ensures var wrong := Values(cnpj[i := c]);
      Accepted(cnpj[i := c]) <==>
      cnpj[12..] == "00" && i < 12 && FirstSum(wrong) % 11 < 2 && SecondSum(wrong) % 11 < 2
  {
    var right, wrong := Values(cnpj), Values(cnpj[i := c]);
    assert wrong == right[i := Value(c)];
    assert cnpj[12..] == [cnpj[12], cnpj[13]];
    WrongDigitPasses(right, i, Value(c));
    if ChecksHold(wrong) && AllSame(cnpj[i := c]) {
      assert cnpj[i := c][12] == '0';
      assert right == wrong[i := right[i]];
      LoneDigitFails(wrong, i, right[i]);
    }
  }

  /** Replacing any single digit of an accepted CNPJ is caught, unless it ends in 00. */
  lemma SingleDigitErrorCaught(cnpj: string, i: int, c: char)
    requires Accepted(cnpj) && (forall k :: 0 <= k < |cnpj| ==> IsDigit(cnpj[k]))
    requires 0 <= i < LENGTH && IsDigit(c) && c != cnpj[i]
    requires cnpj[12..] != "00"
    ensures !Accepted(cnpj[i := c])
  {
    MistypedNumberAccepted(cnpj, i, c);
  }

  /** A number that ends in 00 can be mistyped unnoticed. */
  lemma EndingIn00SlipsThrough()
    ensures Accepted("00000600006000") && Accepted("00000600006000"[0 := '9'])
  {
    var right := "00000600006000";
    var zeros := seq(LENGTH, _ => 0);
    var one, two := zeros[5 := 6], zeros[5 := 6][10 := 6];
    var wrong := two[0 := 9];
    assert Values(right) == two;
    assert Values(right[0 := '9']) == wrong;
    assert right[0] != right[5] && right[0 := '9'][0] != right[0 := '9'][1];
    NothingWeighs(zeros[..12], FIRST_WEIGHTS);
    NothingWeighs(zeros[..13], SECOND_WEIGHTS);
    BaseChange(zeros, 5, 6);
    BaseChange(one, 10, 6);
    BaseChange(two, 0, 9);
    assert FirstSum(two) == 66 && SecondSum(two) == 78 && FirstSum(wrong) == 111 && SecondSum(wrong) == 132;
  }

  /** Twelve digits determine the two that complete them. */
  lemma CheckDigitsAreUnique(base: seq<int>) returns (a: int, b: int)
    requires |base| == 12 && AllDigits(base)
    ensures 0 <= a <= 9 && 0 <= b <= 9
    ensures forall x, y :: ChecksHold(base + [x, y]) <==> x == a && y == b
  {
    a := CheckDigit(Weighted(base, FIRST_WEIGHTS));
    b := CheckDigit(Weighted(base + [a], SECOND_WEIGHTS));
    WeightedNatural(base, FIRST_WEIGHTS);
    WeightedNatural(base + [a], SECOND_WEIGHTS);
    forall x, y ensures ChecksHold(base + [x, y]) <==> x == a && y == b {
      assert (base + [x, y])[..12] == base && (base + [x, y])[..13] == base + [x];
    }
  }
}
