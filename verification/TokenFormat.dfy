/** The letters and digits of a token, spelled out: decimal numbers, the alphabet and the bit groups
    of base64url (section 5 of RFC 4648), and the token itself.
 */
module TokenFormat {
  import opened Prelude
  import opened Bytes
  import opened Tokens
  import Decimal
  import Base64Url

  // ---------------------------------------------------------------- decimal numbers

  ghost function PowerOfTen(n: nat): int { if n == 0 then 1 else 10 * PowerOfTen(n - 1) }

  /** The sum of the digits, each times ten to the number of digits behind it. */
  ghost function NumberOf(digits: seq<byte>): int {
    if digits == [] then 0
    else (digits[0] as int - 48) * PowerOfTen(|digits| - 1) + NumberOf(digits[1..])
  }

  ghost predicate SomeDigits(digits: seq<byte>) {
    digits != [] && forall i :: 0 <= i < |digits| ==> 48 <= digits[i] <= 57
  }

  lemma {:induction false} OneMoreDigit(digits: seq<byte>, d: byte)
    ensures NumberOf(digits + [d]) == NumberOf(digits) * 10 + (d as int - 48)
  {
    var more := digits + [d];
    if digits == [] {
      assert more[1..] == [];
    } else {
      OneMoreDigit(digits[1..], d);
      assert more[1..] == digits[1..] + [d];
      var first, p := digits[0] as int - 48, PowerOfTen(|digits| - 1);
      assert PowerOfTen(|more| - 1) == 10 * p;
      assert first * (10 * p) == first * p * 10;
    }
  }

  lemma {:induction false} ValueIsNumber(digits: seq<byte>)
    requires forall i :: 0 <= i < |digits| ==> Decimal.IsDigit(digits[i])
    ensures Decimal.Value(digits) == NumberOf(digits)
  {
    if digits != [] {
      var n := |digits| - 1;
      ValueIsNumber(digits[..n]);
      OneMoreDigit(digits[..n], digits[n]);
      assert digits == digits[..n] + [digits[n]];
    }
  }

  lemma {:induction false} NoLeadingZero(n: nat)
    ensures Decimal.Digits(n)[0] == 48 ==> n == 0
    ensures n < 10 ==> |Decimal.Digits(n)| == 1
  {
    if n >= 10 { NoLeadingZero(n / 10); }
  }

  lemma DigitsMean(n: nat)
    ensures var d := Decimal.Digits(n); SomeDigits(d) && NumberOf(d) == n && (d[0] == 48 ==> n == 0)
  {
    var d := Decimal.Digits(n);
    Decimal.ValueOfDigits(n);
    NoLeadingZero(n);
    assert forall k :: 0 <= k < |d| ==> Decimal.IsDigit(d[k]);
    ValueIsNumber(d);
  }

  /** A minus for a negative number, and the digits of its amount, of which the first is no zero
      unless it is the only one. */
  lemma FormatMeans(i: int) returns (digits: seq<byte>)
    ensures Decimal.Format(i) == if i < 0 then [45] + digits else digits
    ensures SomeDigits(digits) && NumberOf(digits) == (if i < 0 then -i else i) && (digits[0] == 48 ==> i == 0)
  {
    digits := Decimal.Digits(if i < 0 then -i else i);
    DigitsMean(if i < 0 then -i else i);
  }

  /** A sign or none, then digits, in the range of 64 bits. */
  lemma ParseMeans(sign: seq<byte>, digits: seq<byte>)
    requires (sign == [] || sign == [43] || sign == [45]) && SomeDigits(digits)
    ensures var i := if sign == [45] then -NumberOf(digits) else NumberOf(digits);
      Decimal.ParseInt64(sign + digits) ==
      if -9_223_372_036_854_775_808 <= i <= 9_223_372_036_854_775_807 then Some(i) else None
  {
    var s := sign + digits;
    assert Decimal.AllDigits(digits);
    ValueIsNumber(digits);
    if sign == [] {
      assert s == digits;
    } else {
      assert s[1..] == digits && s[0] == sign[0];
    }
  }

  /** Nothing else is read. */
  lemma OnlyNumbersAreParsed(s: seq<byte>) returns (sign: seq<byte>, digits: seq<byte>)
    requires Decimal.ParseInt64(s).Some?
    ensures s == sign + digits && (sign == [] || sign == [43] || sign == [45]) && SomeDigits(digits)
  {
    if s[0] == 43 || s[0] == 45 {
      sign, digits := s[..1], s[1..];
    } else {
      sign, digits := [], s;
    }
    assert Decimal.AllDigits(digits);
  }

  // ---------------------------------------------------------------- base64url

  /** Table 2 of RFC 4648: the capital letters, the small ones, the digits, a hyphen, an underscore. */
  ghost function Symbol(v: int): int
    requires 0 <= v < 64
  {
    if v < 26 then 'A' as int + v
    else if v < 52 then 'a' as int + (v - 26)
    else if v < 62 then '0' as int + (v - 52)
    else if v == 62 then '-' as int
    else '_' as int
  }

  lemma LetterIsSymbol(v: Base64Url.sextet)
    ensures Base64Url.Letter(v) as int == Symbol(v)
  {
  }

  /** 24 bits, cut into 6, 2, 4, 4, 2 and 6. */
  lemma SixBits(a6: int, a2: int, b4: int, b0: int, c2: int, c6: int, n: int)
    requires 0 <= a6 && 0 <= a2 < 4 && 0 <= b4 < 16 && 0 <= b0 < 16 && 0 <= c2 < 4 && 0 <= c6 < 64
    requires n == a6 * 262144 + a2 * 65536 + b4 * 4096 + b0 * 256 + c2 * 64 + c6
    ensures n / 262144 == a6 && n / 4096 % 64 == a2 * 16 + b4 && n / 64 % 64 == b0 * 4 + c2 && n % 64 == c6
  {
    QuotientIs(n, 262144, a6, a2 * 65536 + b4 * 4096 + b0 * 256 + c2 * 64 + c6);
    QuotientIs(n, 4096, a6 * 64 + (a2 * 16 + b4), b0 * 256 + c2 * 64 + c6);
    QuotientIs(a6 * 64 + (a2 * 16 + b4), 64, a6, a2 * 16 + b4);
    QuotientIs(n, 64, a6 * 4096 + a2 * 1024 + b4 * 64 + (b0 * 4 + c2), c6);
    QuotientIs(a6 * 4096 + a2 * 1024 + b4 * 64 + (b0 * 4 + c2), 64, a6 * 64 + a2 * 16 + b4, b0 * 4 + c2);
  }

  /** Three bytes, as one number, are the four symbols of its groups of six bits. */
  lemma GroupsMean(a: byte, b: byte, c: byte, n: int)
    requires n == a as int * 65536 + b as int * 256 + c as int
    ensures Base64Url.G0(a) == n / 262144 && Base64Url.G1(a, b) == n / 4096 % 64
    ensures Base64Url.G2(b, c) == n / 64 % 64 && Base64Url.G3(c) == n % 64
  {
    SixBits(a / 4, a % 4, b / 16, b % 16, c / 64, c % 64, n);
  }

  ghost predicate EncodedAs(e: seq<byte>, groups: seq<int>) {
    && |e| == |groups|
    && forall i :: 0 <= i < |e| ==> 0 <= groups[i] < 64 && e[i] as int == Symbol(groups[i])
  }

  lemma OneByteEncoded(a: byte, n: int)
    requires n == a as int * 65536
    ensures EncodedAs(Base64Url.Encode([a]), [n / 262144, n / 4096 % 64])
  {
    GroupsMean(a, 0, 0, n);
  }

  lemma TwoBytesEncoded(a: byte, b: byte, n: int)
    requires n == a as int * 65536 + b as int * 256
    ensures EncodedAs(Base64Url.Encode([a, b]), [n / 262144, n / 4096 % 64, n / 64 % 64])
  {
    GroupsMean(a, b, 0, n);
    var e := Base64Url.Encode([a, b]);
    LetterIsSymbol(Base64Url.G0(a));
    LetterIsSymbol(Base64Url.G1(a, b));
    LetterIsSymbol(Base64Url.G2(b, 0));
  }

  lemma FourSymbols(g0: Base64Url.sextet, g1: Base64Url.sextet, g2: Base64Url.sextet, g3: Base64Url.sextet)
    ensures EncodedAs([Base64Url.Letter(g0), Base64Url.Letter(g1), Base64Url.Letter(g2), Base64Url.Letter(g3)],
                      [g0 as int, g1 as int, g2 as int, g3 as int])
  {
  }

  lemma MoreEncoded(a: byte, b: byte, c: byte, rest: seq<byte>, four: seq<byte>)
    requires four == [Base64Url.Letter(Base64Url.G0(a)), Base64Url.Letter(Base64Url.G1(a, b)),
                      Base64Url.Letter(Base64Url.G2(b, c)), Base64Url.Letter(Base64Url.G3(c))]
    ensures Base64Url.Encode([a, b, c] + rest) == four + Base64Url.Encode(rest)
  {
    var p := [a, b, c] + rest;
    assert p[3..] == rest;
  }

  lemma FourEncoded(a: byte, b: byte, c: byte, n: int, four: seq<byte>)
    requires n == a as int * 65536 + b as int * 256 + c as int
    requires four == [Base64Url.Letter(Base64Url.G0(a)), Base64Url.Letter(Base64Url.G1(a, b)),
                      Base64Url.Letter(Base64Url.G2(b, c)), Base64Url.Letter(Base64Url.G3(c))]
    ensures EncodedAs(four, [n / 262144, n / 4096 % 64, n / 64 % 64, n % 64])
  {
    GroupsMean(a, b, c, n);
    FourSymbols(Base64Url.G0(a), Base64Url.G1(a, b), Base64Url.G2(b, c), Base64Url.G3(c));
  }

  /** How every byte string is encoded, from its front: three bytes at a time, and, as
      `OneByteEncoded` and `TwoBytesEncoded` say, one or two left over as if zero bits followed, with
      no padding. */
  lemma EncodeMeans(a: byte, b: byte, c: byte, n: int, rest: seq<byte>) returns (four: seq<byte>)
    requires n == a as int * 65536 + b as int * 256 + c as int
    ensures Base64Url.Encode([a, b, c] + rest) == four + Base64Url.Encode(rest)
    ensures EncodedAs(four, [n / 262144, n / 4096 % 64, n / 64 % 64, n % 64])
  {
    four := [Base64Url.Letter(Base64Url.G0(a)), Base64Url.Letter(Base64Url.G1(a, b)),
             Base64Url.Letter(Base64Url.G2(b, c)), Base64Url.Letter(Base64Url.G3(c))];
    MoreEncoded(a, b, c, rest, four);
    FourEncoded(a, b, c, n, four);
  }

  lemma SextetIsSymbol(b: byte)
    ensures var v := Base64Url.Sextet(b); v.Some? ==> 0 <= v.value as int < 64 && Symbol(v.value as int) == b as int
  {
  }

  lemma ForeignHasNoSextet(b: byte)
    requires forall v :: 0 <= v < 64 ==> b as int != Symbol(v)
    ensures Base64Url.Sextet(b) == None
  {
    SextetIsSymbol(b);
  }

  lemma {:induction false} ForeignIsKept(e: seq<byte>, i: nat)
    requires i < |e| && e[i] != 10 && e[i] != 13 && forall v :: 0 <= v < 64 ==> e[i] as int != Symbol(v)
    ensures Base64Url.Sextets(Base64Url.WithoutLineBreaks(e)) == None
  {
    var kept := Base64Url.WithoutLineBreaks(e);
    if i == 0 {
      ForeignHasNoSextet(e[0]);
      assert kept[0] == e[0];
    } else {
      ForeignIsKept(e[1..], i - 1);
      var more := Base64Url.WithoutLineBreaks(e[1..]);
      if e[0] != 10 && e[0] != 13 {
        assert kept[1..] == more;
      } else {
        assert kept == more;
      }
    }
  }

  /** A character that is neither of the alphabet nor a line break, padding included, is an error. */
  lemma {:induction false} ForeignIsRejected(e: seq<byte>, i: nat)
    requires i < |e| && e[i] != 10 && e[i] != 13 && forall v :: 0 <= v < 64 ==> e[i] as int != Symbol(v)
    ensures Base64Url.Decode(e) == None
  {
    ForeignIsKept(e, i);
  }

  // ---------------------------------------------------------------- the token

  /** A token is the code of `kind:id:expiry`, a dot, and the code of its MAC. */
  lemma TokenMeans(mac: Mac, ttl: int, s: Subject, now: int)
    requires ValidSubject(s)
    ensures var payload := s.kind + [58] + (s.id + [58] + Decimal.Format((now + ttl) / 1_000_000_000));
      Issue(mac, ttl, s, now) == Issued(Base64Url.Encode(payload) + [46] + Base64Url.Encode(mac(payload)))
  {
  }

  /** Which reason Issue gives. */
  lemma RefusalMeans(mac: Mac, ttl: int, s: Subject, now: int)
    requires !ValidSubject(s)
    ensures Issue(mac, ttl, s, now) ==
            if s.kind != [119] && s.kind != [111] then UnknownKind else if s.id == [] then MissingId else ColonInId
  {
  }
}
