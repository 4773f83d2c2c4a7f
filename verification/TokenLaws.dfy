/** What the tokens of internal/auth/token.go promise. */
module TokenLaws {
  import opened Prelude
  import opened Bytes
  import opened Tokens
  import Decimal
  import Base64Url

  lemma UnpackedByVerify(mac: Mac, payload: seq<byte>, signature: seq<byte>, now: int)
    ensures Verify(mac, Pack(payload, signature), now) ==
            if signature == mac(payload) then ReadPayload(payload, now) else None
  {
    Base64Url.DecodeEncode(payload);
    Base64Url.DecodeEncode(signature);
    CutFirst(Base64Url.Encode(payload), DOT, Base64Url.Encode(signature));
  }

  lemma ThreeFields(kind: seq<byte>, id: seq<byte>, text: seq<byte>)
    requires COLON !in kind && COLON !in id && COLON !in text
    ensures Split(kind + [COLON] + (id + [COLON] + text), COLON) == [kind, id, text]
  {
    SplitFirst(kind, COLON, id + [COLON] + text);
    SplitFirst(id, COLON, text);
    SplitFirst(text, COLON, []);
  }

  lemma ReadBackPayload(s: Subject, expiry: int, now: int)
    requires ValidSubject(s) && Decimal.IsInt64(expiry)
    ensures Split(Payload(s, expiry), COLON) == [s.kind, s.id, Decimal.Format(expiry)]
    ensures ReadPayload(Payload(s, expiry), now) == if now > expiry * NANOSECONDS then None else Some(s)
  {
    var text := Decimal.Format(expiry);
    Decimal.ParseFormat(expiry);
    assert COLON !in s.kind && ValidKind(s.kind);
    ThreeFields(s.kind, s.id, text);
  }

  /** The round trip: Issue accepts exactly the valid subjects, and its token gives that subject
      back, and nothing else, up to and including the expiry rounded down to a whole second. */
  lemma IssueThenVerify(mac: Mac, ttl: int, s: Subject, now: int, later: int)
    requires Decimal.IsInt64(Unix(now + ttl))
    ensures Issue(mac, ttl, s, now).Issued? <==> ValidSubject(s)
    ensures ValidSubject(s) ==>
      Verify(mac, Issue(mac, ttl, s, now).token, later) ==
      if later <= (now + ttl) / 1_000_000_000 * 1_000_000_000 then Some(s) else None
  {
    if ValidSubject(s) {
      var payload := Payload(s, Unix(now + ttl));
      UnpackedByVerify(mac, payload, mac(payload), later);
      ReadBackPayload(s, Unix(now + ttl), later);
    }
  }

  lemma RoundedDown(now: int, ttl: int)
    requires ttl > 0
    ensures now <= Unix(now + ttl) * NANOSECONDS <==> now % NANOSECONDS == 0 || now % NANOSECONDS + ttl >= NANOSECONDS
  {
    var second, r := now / NANOSECONDS, now % NANOSECONDS;
    assert now == second * NANOSECONDS + r;
    var later := Unix(now + ttl);
    assert later * NANOSECONDS <= now + ttl < (later + 1) * NANOSECONDS;
    assert r + ttl >= NANOSECONDS <==> later >= second + 1;
  }

  /** A token is good at the moment it is issued exactly when its life reaches past the second it
      was issued in, or it was issued on the second; a second of life is always enough. */
  lemma GoodAtOnce(mac: Mac, ttl: int, s: Subject, now: int)
    requires ValidSubject(s) && Decimal.IsInt64(Unix(now + ttl)) && ttl > 0
    ensures Verify(mac, Issue(mac, ttl, s, now).token, now) == Some(s) <==>
            now % 1_000_000_000 == 0 || now % 1_000_000_000 + ttl >= 1_000_000_000
    ensures ttl >= 1_000_000_000 ==> Verify(mac, Issue(mac, ttl, s, now).token, now) == Some(s)
  {
    IssueThenVerify(mac, ttl, s, now, now);
    RoundedDown(now, ttl);
  }

  /** The payload says who and until when: no two valid subjects and expiries share one. */
  lemma PayloadsAreDistinct(s: Subject, expiry: int, s': Subject, expiry': int)
    requires ValidSubject(s) && ValidSubject(s') && Decimal.IsInt64(expiry) && Decimal.IsInt64(expiry')
    requires Payload(s, expiry) == Payload(s', expiry')
    ensures s == s' && expiry == expiry'
  {
    ReadBackPayload(s, expiry, 0);
    ReadBackPayload(s', expiry', 0);
    Decimal.ParseFormat(expiry);
    Decimal.ParseFormat(expiry');
    var fields, fields' := [s.kind, s.id, Decimal.Format(expiry)], [s'.kind, s'.id, Decimal.Format(expiry')];
    assert fields == fields';
    assert fields[0] == fields'[0] && fields[1] == fields'[1] && fields[2] == fields'[2];
  }

  /** A payload moved under another payload's signature is refused, unless the two signatures are
      the same. */
  lemma SwappedPayloadRefused(mac: Mac, payload: seq<byte>, other: seq<byte>, now: int)
    requires mac(payload) != mac(other)
    ensures Verify(mac, Pack(other, mac(payload)), now) == None
  {
    UnpackedByVerify(mac, other, mac(payload), now);
  }

  lemma JoinOfThree(payload: seq<byte>)
    requires |Split(payload, COLON)| == 3
    ensures var f := Split(payload, COLON);
      payload == f[0] + [COLON] + (f[1] + [COLON] + f[2]) && COLON !in f[1]
  {
    var rest := Cut(payload, COLON).value.1;
    var last := Cut(rest, COLON).value.1;
    assert Split(last, COLON) == [last];
  }

  /** Whatever Verify accepts is, up to its first dot, the code of a payload that names a valid
      subject and an expiry that has not passed, and behind it the code of that payload's signature. */
  lemma AcceptedIsSigned(mac: Mac, token: seq<byte>, now: int) returns (payload: seq<byte>, text: seq<byte>)
    requires Verify(mac, token, now).Some?
    ensures var s := Verify(mac, token, now).value;
      && ValidSubject(s)
      && payload == s.kind + [58] + (s.id + [58] + text)
      && Cut(token, 46).Some?
      && Base64Url.Decode(Cut(token, 46).value.0) == Some(payload)
      && Base64Url.Decode(Cut(token, 46).value.1) == Some(mac(payload))
      && Decimal.ParseInt64(text).Some? && now <= Decimal.ParseInt64(text).value * 1_000_000_000
  {
    var parts := Cut(token, DOT).value;
    payload := Base64Url.Decode(parts.0).value;
    text := Split(payload, COLON)[2];
    JoinOfThree(payload);
  }
}
