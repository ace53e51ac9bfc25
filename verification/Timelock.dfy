/** timelock.go: a payload sealed together with the second in which it expires. Instants and durations are
    in nanoseconds since the Unix epoch. */
module Timelock {
  import opened Octets
  import opened Errors
  import opened Primitives
  import AeadV1
  import Base64

  const SECOND := 1_000_000_000
  const MAX_INT64: int := 0x7FFF_FFFF_FFFF_FFFF

  /** `Time.Unix()`: whole seconds, rounded down. */
  function Unix(t: int): int {
    t / SECOND
  }

  predicate IsInt64(n: int) {
    -MAX_INT64 - 1 <= n <= MAX_INT64
  }

  /** `uint64(n)` and `int64(u)` */
  function ToUint64(n: int): int {
    n % TWO_64
  }

  function ToInt64(u: int): int {
    if u <= MAX_INT64 then u else u - TWO_64
  }

  lemma Int64Inverse(n: int)
    requires IsInt64(n)
    ensures ToInt64(ToUint64(n)) == n && 0 <= ToUint64(n) < TWO_64
  {
    if 0 <= n {
      assert n % TWO_64 == n;
    } else {
      assert n % TWO_64 == n + TWO_64;
    }
  }

  /** What is sealed: the expiry second, and the payload. */
  function Body(expiry: int, payload: Bytes): Bytes {
    Be64(ToUint64(expiry)) + payload
  }

  /** The token that `IssueToken` returns at `now` when nothing fails. */
  function Token(g: Gcm, key: Bytes, payload: Bytes, ttl: int, aad: Bytes, now: int, nonce: Bytes): string {
    AeadV1.Sealed(g, key, nonce, aad, Body(Unix(now + ttl), payload))
  }

  method IssueToken(g: Gcm, key: Bytes, payload: array<byte>, ttl: int, aad: Bytes, now: int, entropy: Option<Bytes>)
    returns (r: Result<string>)
    requires entropy.Some? ==> |entropy.value| == AeadV1.NONCE_SIZE
    ensures r == if ttl <= 0 then Err(BadTtl)
                 else if |key| != KEY_SIZE then Err(InvalidKey)
                 else if entropy.None? then Err(EntropyFault)
                 else Ok(Token(g, key, payload[..], ttl, aad, now, entropy.value))
  {
    if ttl <= 0 {
      return Err(BadTtl);
    }
    var expiry := Unix(now + ttl);
    var wrapped := new byte[8 + payload.Length](_ => 0);
    var field := Be64(ToUint64(expiry));
    forall i | 0 <= i < 8 {
      wrapped[i] := field[i];
    }
    forall i | 0 <= i < payload.Length {
      wrapped[8 + i] := payload[i];
    }
    assert wrapped[..] == Body(expiry, payload[..]);
    r := AeadV1.SealWithNonce(g, key, wrapped[..], aad, None, entropy);
  }

  function VerifyToken(g: Gcm, key: Bytes, token: string, aad: Bytes, now: int): Result<Bytes> {
    match AeadV1.Open(g, key, token, aad)
    case Err(e) => Err(e)
    case Ok(wrapped) =>
      if |wrapped| < 8 then Err(InvalidCiphertext)
      else
        var expiry := ToInt64(FromBe64(wrapped[..8]));
        if Unix(now) >= expiry then Err(Expired) else Ok(wrapped[8..])
  }

  lemma BodyParts(expiry: int, payload: Bytes)
    requires IsInt64(expiry)
    ensures var b := Body(expiry, payload);
            |b| == 8 + |payload| && ToInt64(FromBe64(b[..8])) == expiry && b[8..] == payload
  {
    Int64Inverse(expiry);
    Be64Inverse(ToUint64(expiry));
    assert Body(expiry, payload)[..8] == Be64(ToUint64(expiry));
  }

  /** The window: a token yields its payload exactly while the clock shows a second before that of its
      expiry, and from then on it is expired. */
  lemma Window(g: Gcm, key: Bytes, payload: Bytes, ttl: int, aad: Bytes, issued: int, nonce: Bytes, now: int)
    requires g.Lawful() && |key| == KEY_SIZE && |nonce| == AeadV1.NONCE_SIZE && IsInt64(Unix(issued + ttl))
    ensures VerifyToken(g, key, Token(g, key, payload, ttl, aad, issued, nonce), aad, now)
         == if Unix(now) < Unix(issued + ttl) then Ok(payload) else Err(Expired)
  {
    hide AeadV1.Open, AeadV1.Sealed, Body, Unix;
    BodyParts(Unix(issued + ttl), payload);
    AeadV1.RoundTrip(g, key, nonce, aad, Body(Unix(issued + ttl), payload));
  }

  /** In terms of the lifetime asked for: never valid once it is over, always valid until its last second,
      and once expired always expired. A lifetime of a second or more is never over at once. */
  lemma Lifetime(g: Gcm, key: Bytes, payload: Bytes, ttl: int, aad: Bytes, issued: int, nonce: Bytes, now: int, later: int)
    requires g.Lawful() && |key| == KEY_SIZE && |nonce| == AeadV1.NONCE_SIZE && IsInt64(Unix(issued + ttl))
    requires now <= later
    ensures var token := Token(g, key, payload, ttl, aad, issued, nonce);
            && (now >= issued + ttl ==> VerifyToken(g, key, token, aad, now) == Err(Expired))
            && (now <= issued + ttl - SECOND ==> VerifyToken(g, key, token, aad, now) == Ok(payload))
            && (VerifyToken(g, key, token, aad, now) == Err(Expired) ==>
                  VerifyToken(g, key, token, aad, later) == Err(Expired))
            && (ttl >= SECOND ==> VerifyToken(g, key, token, aad, issued) == Ok(payload))
            && (VerifyToken(g, key, token, aad, issued) == Ok(payload) <==> Unix(issued) < Unix(issued + ttl))
  {
    hide VerifyToken, Token;
    Window(g, key, payload, ttl, aad, issued, nonce, now);
    Window(g, key, payload, ttl, aad, issued, nonce, later);
    Window(g, key, payload, ttl, aad, issued, nonce, issued);
  }

  /** The shortest lifetime that leaves every token alive at first: one second. A shorter one is not enough
      at the start of a second, whatever the clock shows otherwise. */
  lemma ShortestTtl(ttl: int)
    requires 0 < ttl
    ensures (forall t :: Unix(t) < Unix(t + ttl)) <==> ttl >= SECOND
  {
    if ttl < SECOND {
      assert Unix(0) == 0 == Unix(0 + ttl);
    } else {
      forall t
        ensures Unix(t) < Unix(t + ttl)
      {
        assert Unix(t + SECOND) == Unix(t) + 1;
      }
    }
  }

  /** A lifetime makes every token valid when it is issued, whatever the clock then shows, if and only if it
      is at least a second. */
  lemma AliveAtIssue(g: Gcm, key: Bytes, payload: Bytes, ttl: int, aad: Bytes, nonce: Bytes)
    requires g.Lawful() && |key| == KEY_SIZE && |nonce| == AeadV1.NONCE_SIZE && 0 < ttl
    ensures (forall t :: IsInt64(Unix(t + ttl)) ==>
               VerifyToken(g, key, Token(g, key, payload, ttl, aad, t, nonce), aad, t) == Ok(payload))
       <==> ttl >= SECOND
  {
    hide VerifyToken, Token, Unix;
    if ttl >= SECOND {
      ShortestTtl(ttl);
      forall t | IsInt64(Unix(t + ttl))
        ensures VerifyToken(g, key, Token(g, key, payload, ttl, aad, t, nonce), aad, t) == Ok(payload)
      {
        Window(g, key, payload, ttl, aad, t, nonce, t);
      }
    } else {
      DeadAtZero(ttl);
      Window(g, key, payload, ttl, aad, 0, nonce, 0);
      assert VerifyToken(g, key, Token(g, key, payload, ttl, aad, 0, nonce), aad, 0) == Err(Expired);
    }
  }

  lemma DeadAtZero(ttl: int)
    requires 0 < ttl < SECOND
    ensures Unix(0) == Unix(0 + ttl) == 0
  {
  }

  /** A call of `IssueToken` that went through. */
  datatype Issue = Issue(expiry: int, payload: Bytes, aad: Bytes, nonce: Bytes)

  function LogOf(key: Bytes, issues: seq<Issue>): seq<Sealing> {
    seq(|issues|, i requires 0 <= i < |issues| =>
      Sealing(key, issues[i].nonce, issues[i].aad, Body(issues[i].expiry, issues[i].payload)))
  }

  /** Under a key that only ever issued tokens, a string verifies exactly when it decodes to a token issued
      for this aad whose expiry is still to come, and it yields that token's payload. */
  lemma OnlyIssuedTokens(g: Gcm, key: Bytes, issues: seq<Issue>, token: string, aad: Bytes, now: int)
    requires g.Lawful() && |key| == KEY_SIZE
    requires forall i :: 0 <= i < |issues| ==> |issues[i].nonce| == AeadV1.NONCE_SIZE && IsInt64(issues[i].expiry)
    requires AeadV1.UnforgedText(g, key, LogOf(key, issues), token, aad)
    ensures forall p :: VerifyToken(g, key, token, aad, now) == Ok(p) <==>
              exists i :: 0 <= i < |issues| && issues[i].aad == aad && issues[i].payload == p
                          && Unix(now) < issues[i].expiry && IsToken(g, key, issues[i], token)
  {
    hide AeadV1.Open, AeadV1.UnforgedText, AeadV1.Frame, Base64.Decode, Body;
    var log := LogOf(key, issues);
    AeadV1.OpensExactlyTheLog(g, key, log, token, aad);
    forall i | 0 <= i < |issues|
      ensures |Body(issues[i].expiry, issues[i].payload)| >= 8
      ensures issues[i].aad == aad && IsToken(g, key, issues[i], token) ==>
        VerifyToken(g, key, token, aad, now)
        == if Unix(now) >= issues[i].expiry then Err(Expired) else Ok(issues[i].payload)
    {
      BodyParts(issues[i].expiry, issues[i].payload);
      assert IsToken(g, key, issues[i], token) == AeadV1.IsTextOf(g, log[i], token);
      assert issues[i].aad == aad && IsToken(g, key, issues[i], token) ==>
          AeadV1.Open(g, key, token, aad) == Ok(log[i].plaintext);
    }
    if AeadV1.Open(g, key, token, aad).Ok? {
      var i :| 0 <= i < |log| && log[i].aad == aad
        && log[i].plaintext == AeadV1.Open(g, key, token, aad).value && AeadV1.IsTextOf(g, log[i], token);
      assert IsToken(g, key, issues[i], token);
    }
  }

  ghost predicate IsToken(g: Gcm, key: Bytes, issue: Issue, token: string) {
    Base64.Decode(Base64.Url, token)
    == Some(AeadV1.Frame(g, key, issue.nonce, issue.aad, Body(issue.expiry, issue.payload)))
  }

  /** The signed number that two halves of eight bytes stand for. */
  function Signed(hi: uint32, lo: uint32): int {
    hi * 4294967296 + lo - (if hi >= 0x8000_0000 then 18446744073709551616 else 0)
  }

  lemma HalvesOf(field: Bytes) returns (hi: uint32, lo: uint32)
    requires |field| == 8
    ensures field == Be32(hi) + Be32(lo) && ToInt64(FromBe64(field)) == Signed(hi, lo)
  {
    hide Be32, FromBe32;
    hi, lo := FromBe32(field[..4]), FromBe32(field[4..]);
    Be32Inverse(hi, field[..4]);
    Be32Inverse(lo, field[4..]);
    assert field == field[..4] + field[4..];
  }

  /** `VerifyToken` in terms of what the box holds, eight bytes of expiry and the payload, and of the second the
      clock is in. */
  lemma VerifiesExactly(g: Gcm, key: Bytes, token: string, aad: Bytes, now: int)
    returns (hi: uint32, lo: uint32, payload: Bytes)
    ensures match AeadV1.Open(g, key, token, aad)
            case Err(e) => VerifyToken(g, key, token, aad, now) == Err(e)
            case Ok(held) =>
              if |held| < 8 then VerifyToken(g, key, token, aad, now) == Err(InvalidCiphertext)
              else
                && held == Be32(hi) + Be32(lo) + payload
                && VerifyToken(g, key, token, aad, now)
                == if now / 1_000_000_000 < Signed(hi, lo) then Ok(payload) else Err(Expired)
  {
    hide AeadV1.Open, Be32, Signed;
    hi, lo, payload := 0, 0, [];
    var box := AeadV1.Open(g, key, token, aad);
    if box.Ok? && |box.value| >= 8 {
      hi, lo := HalvesOf(box.value[..8]);
      payload := box.value[8..];
      assert box.value == box.value[..8] + payload;
    }
  }

  /** The token, byte by byte: its expiry is the second in which the lifetime ends, as a 64-bit number. */
  lemma TokenIs(g: Gcm, key: Bytes, payload: Bytes, ttl: int, aad: Bytes, now: int, nonce: Bytes) returns (hi: uint32, lo: uint32)
    requires -0x8000_0000_0000_0000 <= (now + ttl) / 1_000_000_000 < 0x8000_0000_0000_0000
    ensures Signed(hi, lo) == (now + ttl) / 1_000_000_000
    ensures Token(g, key, payload, ttl, aad, now, nonce)
         == Base64.Encode(Base64.Url, [1] + nonce + g.seal(key, nonce, aad, Be32(hi) + Be32(lo) + payload))
  {
    hide Be32, Signed, Base64.Encode;
    var expiry := (now + ttl) / 1_000_000_000;
    Int64Inverse(expiry);
    Be64Inverse(ToUint64(expiry));
    hi, lo := HalvesOf(Be64(ToUint64(expiry)));
  }
}
