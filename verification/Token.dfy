/** The signed session tokens of internal/auth/token.go: `<payload>.<signature>`, both parts in
    unpadded base64url (section 5 of RFC 4648, without the padding of section 3.2), the payload
    being "<kind>:<id>:<expiry>". Strings are bytes, as in Go. HMAC-SHA256 is a parameter `mac`.
 */
module Bytes {
  import opened Prelude

  type byte = b: int | 0 <= b < 256

  const PLUS: byte := 43
  const MINUS: byte := 45
  const DOT: byte := 46
  const COLON: byte := 58

  /** Go's `strings.Cut`: around the first separator. */
  function Cut(s: seq<byte>, sep: byte): (r: Option<(seq<byte>, seq<byte>)>)
    ensures r.None? <==> sep !in s
    ensures r.Some? ==> s == r.value.0 + [sep] + r.value.1 && sep !in r.value.0
  {
    if s == [] then None
    else if s[0] == sep then Some(([], s[1..]))
    else match Cut(s[1..], sep)
      case None => None
      case Some(parts) => Some(([s[0]] + parts.0, parts.1))
  }

  /** Go's `strings.Split` for a one-byte separator. */
  function Split(s: seq<byte>, sep: byte): (r: seq<seq<byte>>)
    ensures r != []
    decreases |s|
  {
    match Cut(s, sep)
    case None => [s]
    case Some(parts) => [parts.0] + Split(parts.1, sep)
  }

  lemma {:induction false} CutFirst(a: seq<byte>, sep: byte, b: seq<byte>)
    requires sep !in a
    ensures Cut(a + [sep] + b, sep) == Some((a, b))
  {
    var s := a + [sep] + b;
    if a == [] {
      assert s == [sep] + b;
    } else {
      assert s[1..] == a[1..] + [sep] + b;
      CutFirst(a[1..], sep, b);
      assert s[0] == a[0] && a[0] != sep;
      assert [a[0]] + a[1..] == a;
    }
  }

  lemma {:induction false} SplitFirst(a: seq<byte>, sep: byte, b: seq<byte>)
    requires sep !in a
    ensures Split(a, sep) == [a]
    ensures Split(a + [sep] + b, sep) == [a] + Split(b, sep)
  {
    CutFirst(a, sep, b);
  }
}

module Decimal {
  import opened Prelude
  import opened Bytes

  function Digits(n: nat): (s: seq<byte>)
    ensures s != [] && forall i :: 0 <= i < |s| ==> 48 <= s[i] <= 57
  {
    if n < 10 then [48 + n] else Digits(n / 10) + [48 + n % 10]
  }

  /** Go's `%d`. */
  function Format(i: int): seq<byte> {
    if i < 0 then [MINUS] + Digits(-i) else Digits(i)
  }

  predicate IsDigit(b: byte) { 48 <= b <= 57 }

  predicate AllDigits(s: seq<byte>) { s != [] && forall i :: 0 <= i < |s| ==> IsDigit(s[i]) }

  function Value(s: seq<byte>): nat
    requires forall i :: 0 <= i < |s| ==> IsDigit(s[i])
  {
    if s == [] then 0 else
      assert IsDigit(s[|s| - 1]);
      var last: int := s[|s| - 1];
      Value(s[..|s| - 1]) * 10 + (last - 48)
  }

  const LIMIT: int := 0x8000_0000_0000_0000

  predicate IsInt64(i: int) { -LIMIT <= i < LIMIT }

  /** Go's `strconv.ParseInt(s, 10, 64)`: an optional sign, then digits only, in range. */
  function ParseInt64(s: seq<byte>): Option<int> {
    var negative := s != [] && s[0] == MINUS;
    var digits := if negative || (s != [] && s[0] == PLUS) then s[1..] else s;
    if !AllDigits(digits) then None
    else
      var v: int := Value(digits);
      var v := if negative then -v else v;
      if IsInt64(v) then Some(v) else None
  }

  lemma {:induction false} ValueOfDigits(n: nat)
    ensures Value(Digits(n)) == n
  {
    if n >= 10 {
      ValueOfDigits(n / 10);
      var s := Digits(n);
      assert s[..|s| - 1] == Digits(n / 10);
    } else {
      assert Digits(n)[..0] == [];
    }
  }

  lemma DigitsParsed(n: nat)
    requires IsInt64(n)
    ensures ParseInt64(Digits(n)) == Some(n)
  {
    ValueOfDigits(n);
    assert 48 <= Digits(n)[0] <= 57;
    assert forall k :: 0 <= k < |Digits(n)| ==> IsDigit(Digits(n)[k]);
  }

  lemma NegativeParsed(digits: seq<byte>, i: int)
    requires digits != [] && (forall k :: 0 <= k < |digits| ==> IsDigit(digits[k])) && Value(digits) == -i && IsInt64(i)
    ensures ParseInt64([MINUS] + digits) == Some(i)
  {
    assert ([MINUS] + digits)[1..] == digits;
  }

  /** Every int64 is read back as printed, and the print has no separator in it. */
  lemma ParseFormat(i: int)
    requires IsInt64(i)
    ensures ParseInt64(Format(i)) == Some(i)
    ensures COLON !in Format(i) && DOT !in Format(i)
  {
    if i < 0 {
      ValueOfDigits(-i);
      NegativeParsed(Digits(-i), i);
    } else {
      DigitsParsed(i);
    }
  }
}

module Base64Url {
  import opened Prelude
  import opened Bytes

  type sextet = v: int | 0 <= v < 64

  function Letter(v: sextet): byte {
    if v < 26 then 65 + v
    else if v < 52 then 97 + (v - 26)
    else if v < 62 then 48 + (v - 52)
    else if v == 62 then 45
    else 95
  }

  function Sextet(b: byte): Option<sextet> {
    if 65 <= b <= 90 then Some(b - 65)
    else if 97 <= b <= 122 then Some(b - 97 + 26)
    else if 48 <= b <= 57 then Some(b - 48 + 52)
    else if b == 45 then Some(62)
    else if b == 95 then Some(63)
    else None
  }

  // The four six-bit groups of three bytes.
  function G0(a: byte): sextet { a / 4 }
  function G1(a: byte, b: byte): sextet { a % 4 * 16 + b / 16 }
  function G2(b: byte, c: byte): sextet { b % 16 * 4 + c / 64 }
  function G3(c: byte): sextet { c % 64 }

  function Encode(p: seq<byte>): seq<byte> {
    if |p| == 0 then []
    else if |p| == 1 then [Letter(G0(p[0])), Letter(G1(p[0], 0))]
    else if |p| == 2 then [Letter(G0(p[0])), Letter(G1(p[0], p[1])), Letter(G2(p[1], 0))]
    else [Letter(G0(p[0])), Letter(G1(p[0], p[1])), Letter(G2(p[1], p[2])), Letter(G3(p[2]))] + Encode(p[3..])
  }

  /** Go's decoder steps over line breaks wherever they stand. */
  function WithoutLineBreaks(s: seq<byte>): seq<byte> {
    if s == [] then []
    else (if s[0] == 10 || s[0] == 13 then [] else [s[0]]) + WithoutLineBreaks(s[1..])
  }

  function Sextets(s: seq<byte>): Option<seq<sextet>> {
    if s == [] then Some([]) else
      match (Sextet(s[0]), Sextets(s[1..]))
      case (Some(v), Some(vs)) => Some([v] + vs)
      case _ => None
  }

  // The three bytes of four six-bit groups.
  function First(a: sextet, b: sextet): byte { a * 4 + b / 16 }
  function Second(b: sextet, c: sextet): byte { b % 16 * 16 + c / 4 }
  function Third(c: sextet, d: sextet): byte { c % 4 * 64 + d }

  /** Groups of four; a last group of two or three drops its spare bits unread. */
  function Pack(v: seq<sextet>): Option<seq<byte>> {
    if |v| == 0 then Some([])
    else if |v| == 1 then None
    else if |v| == 2 then Some([First(v[0], v[1])])
    else if |v| == 3 then Some([First(v[0], v[1]), Second(v[1], v[2])])
    else match Pack(v[4..])
      case None => None
      case Some(rest) =>
        Some([First(v[0], v[1]), Second(v[1], v[2]), Third(v[2], v[3])] + rest)
  }

  function Decode(s: seq<byte>): Option<seq<byte>> {
    match Sextets(WithoutLineBreaks(s))
    case None => None
    case Some(v) => Pack(v)
  }

  /** The six-bit groups that Encode spells out. */
  function Groups(p: seq<byte>): seq<sextet> {
    if |p| == 0 then []
    else if |p| == 1 then [G0(p[0]), G1(p[0], 0)]
    else if |p| == 2 then [G0(p[0]), G1(p[0], p[1]), G2(p[1], 0)]
    else [G0(p[0]), G1(p[0], p[1]), G2(p[1], p[2]), G3(p[2])] + Groups(p[3..])
  }

  function Spell(v: seq<sextet>): seq<byte> {
    if v == [] then [] else [Letter(v[0])] + Spell(v[1..])
  }

  lemma SextetOfLetter(v: sextet)
    ensures Sextet(Letter(v)) == Some(v) && Letter(v) !in {10, 13, DOT}
  {
  }

  lemma {:induction false} ReadBackSpelling(v: seq<sextet>)
    ensures WithoutLineBreaks(Spell(v)) == Spell(v) && Sextets(Spell(v)) == Some(v) && DOT !in Spell(v)
  {
    if v != [] {
      SextetOfLetter(v[0]);
      ReadBackSpelling(v[1..]);
      var s := Spell(v);
      assert s[1..] == Spell(v[1..]) && s[0] == Letter(v[0]);
      assert [v[0]] + v[1..] == v;
    }
  }

  lemma {:induction false} SpellJoins(v: seq<sextet>, w: seq<sextet>)
    ensures Spell(v + w) == Spell(v) + Spell(w)
  {
    if v == [] {
      assert v + w == w;
    } else {
      assert (v + w)[1..] == v[1..] + w;
      SpellJoins(v[1..], w);
    }
  }

  lemma SpellTwo(a: sextet, b: sextet)
    ensures Spell([a]) == [Letter(a)] && Spell([a, b]) == [Letter(a), Letter(b)]
  {
    assert [a, b][1..] == [b] && [b][1..] == [];
  }

  lemma SpellFour(a: sextet, b: sextet, c: sextet, d: sextet)
    ensures Spell([a, b, c]) == [Letter(a), Letter(b), Letter(c)]
    ensures Spell([a, b, c, d]) == [Letter(a), Letter(b), Letter(c), Letter(d)]
  {
    SpellTwo(a, b);
    SpellTwo(c, d);
    SpellJoins([a, b], [c]);
    SpellJoins([a, b], [c, d]);
    assert [a, b, c] == [a, b] + [c] && [a, b, c, d] == [a, b] + [c, d];
  }

  lemma {:induction false} EncodeSpellsGroups(p: seq<byte>)
    ensures Encode(p) == Spell(Groups(p))
  {
    var g := Groups(p);
    if |p| == 0 {
    } else if |p| == 1 {
      SpellTwo(g[0], g[1]);
    } else if |p| == 2 {
      SpellFour(g[0], g[1], g[2], 0);
    } else {
      SpellFour(g[0], g[1], g[2], g[3]);
      assert g == [g[0], g[1], g[2], g[3]] + Groups(p[3..]);
      SpellJoins([g[0], g[1], g[2], g[3]], Groups(p[3..]));
      EncodeSpellsGroups(p[3..]);
    }
  }

  lemma OneByte(a: byte, b: byte)
    ensures First(G0(a), G1(a, b)) == a
  {
  }

  lemma TwoBytes(a: byte, b: byte, c: byte)
    ensures Second(G1(a, b), G2(b, c)) == b
  {
    assert G1(a, b) % 16 == b / 16;
    assert G2(b, c) / 4 == b % 16;
  }

  lemma ThreeBytes(b: byte, c: byte)
    ensures Third(G2(b, c), G3(c)) == c
  {
    assert G2(b, c) % 4 == c / 64;
  }

  lemma PackBySize(a: sextet, b: sextet, c: sextet, d: sextet, v: seq<sextet>)
    ensures Pack([a, b]) == Some([First(a, b)])
    ensures Pack([a, b, c]) == Some([First(a, b), Second(b, c)])
    ensures Pack(v).Some? ==> Pack([a, b, c, d] + v) == Some([First(a, b), Second(b, c), Third(c, d)] + Pack(v).value)
  {
    var w := [a, b, c, d] + v;
    assert w[4..] == v;
  }

  lemma PackOne(a: byte, none: byte)
    requires none == 0
    ensures Pack(Groups([a])) == Some([a])
  {
    OneByte(a, none);
    PackBySize(G0(a), G1(a, none), 0, 0, []);
    assert Groups([a]) == [G0(a), G1(a, none)];
  }

  lemma PackTwo(a: byte, b: byte, none: byte)
    requires none == 0
    ensures Pack(Groups([a, b])) == Some([a, b])
  {
    OneByte(a, b);
    TwoBytes(a, b, none);
    PackBySize(G0(a), G1(a, b), G2(b, none), 0, []);
    assert Groups([a, b]) == [G0(a), G1(a, b), G2(b, none)];
  }

  lemma PackMore(a: byte, b: byte, c: byte, rest: seq<byte>)
    requires Pack(Groups(rest)) == Some(rest)
    ensures Pack(Groups([a, b, c] + rest)) == Some([a, b, c] + rest)
  {
    OneByte(a, b);
    TwoBytes(a, b, c);
    ThreeBytes(b, c);
    PackBySize(G0(a), G1(a, b), G2(b, c), G3(c), Groups(rest));
    assert ([a, b, c] + rest)[3..] == rest;
  }

  lemma {:induction false} PackGroups(p: seq<byte>)
    ensures Pack(Groups(p)) == Some(p)
    decreases |p|
  {
    if |p| >= 3 {
      PackGroups(p[3..]);
      PackMore(p[0], p[1], p[2], p[3..]);
      assert p == [p[0], p[1], p[2]] + p[3..];
    } else if |p| == 2 {
      PackTwo(p[0], p[1], 0);
      assert p == [p[0], p[1]];
    } else if |p| == 1 {
      PackOne(p[0], 0);
      assert p == [p[0]];
    }
  }

  /** Every byte string survives the trip, and its code is free of the token's separator. */
  lemma DecodeEncode(p: seq<byte>)
    ensures Decode(Encode(p)) == Some(p) && DOT !in Encode(p)
  {
    EncodeSpellsGroups(p);
    ReadBackSpelling(Groups(p));
    PackGroups(p);
  }
}

module Tokens {
  import opened Prelude
  import opened Bytes
  import Decimal
  import Base64Url

  const NANOSECONDS: int := 1_000_000_000
  const WORKSHOP: seq<byte> := [119]  // "w"
  const OWNER: seq<byte> := [111]     // "o"

  datatype Subject = Subject(kind: seq<byte>, id: seq<byte>)

  datatype IssueResult = Issued(token: seq<byte>) | UnknownKind | MissingId | ColonInId

  predicate ValidKind(kind: seq<byte>) { kind == WORKSHOP || kind == OWNER }

  ghost predicate ValidSubject(s: Subject) {
    (s.kind == [119] || s.kind == [111]) && s.id != [] && 58 !in s.id
  }

  /** Go's `Time.Unix`: whole seconds, rounded down. */
  function Unix(t: int): int { t / NANOSECONDS }

  function Payload(s: Subject, expiry: int): seq<byte> {
    s.kind + [COLON] + (s.id + [COLON] + Decimal.Format(expiry))
  }

  function Pack(payload: seq<byte>, signature: seq<byte>): seq<byte> {
    Base64Url.Encode(payload) + [DOT] + Base64Url.Encode(signature)
  }

  type Mac = seq<byte> -> seq<byte>

  function Issue(mac: Mac, ttl: int, s: Subject, now: int): IssueResult {
    if !ValidKind(s.kind) then UnknownKind
    else if s.id == [] then MissingId
    else if COLON in s.id then ColonInId
    else
      var payload := Payload(s, Unix(now + ttl));
      Issued(Pack(payload, mac(payload)))
  }

  function ReadPayload(payload: seq<byte>, now: int): Option<Subject> {
    var fields := Split(payload, COLON);
    if |fields| != 3 then None
    else
      var s := Subject(fields[0], fields[1]);
      if !ValidKind(s.kind) || s.id == [] then None
      else match Decimal.ParseInt64(fields[2])
        case None => None
        case Some(expiry) => if now > expiry * NANOSECONDS then None else Some(s)
  }

  function Verify(mac: Mac, token: seq<byte>, now: int): Option<Subject> {
    match Cut(token, DOT)
    case None => None
    case Some(parts) =>
      match (Base64Url.Decode(parts.0), Base64Url.Decode(parts.1))
      case (Some(payload), Some(signature)) =>
        if signature != mac(payload) then None else ReadPayload(payload, now)
      case _ => None
  }
}
