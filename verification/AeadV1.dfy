/** The version-1 frame of aead.go: one AES-256-GCM box behind a version byte and a nonce, as base64url. */
module AeadV1 {
  import opened Octets
  import opened Errors
  import opened Primitives
  import Base64

  const NONCE_SIZE := 12
  const AEAD_HEADER_SIZE := 13
  const MIN_SIZE := 29
  const VERSION_1: byte := 1

  function Frame(g: Gcm, key: Bytes, nonce: Bytes, aad: Bytes, plaintext: Bytes): Bytes {
    [VERSION_1] + nonce + g.seal(key, nonce, aad, plaintext)
  }

  /** The text `Seal` returns once key and nonce are settled. */
  function Sealed(g: Gcm, key: Bytes, nonce: Bytes, aad: Bytes, plaintext: Bytes): string {
    Base64.Encode(Base64.Url, Frame(g, key, nonce, aad, plaintext))
  }

  /** `sealWithNonce`. `given` is its nonce argument, `entropy` what the random source yields. */
  method SealWithNonce(g: Gcm, key: Bytes, plaintext: Bytes, aad: Bytes, given: Option<Bytes>, entropy: Option<Bytes>)
    returns (r: Result<string>)
    requires entropy.Some? ==> |entropy.value| == NONCE_SIZE
    ensures r == if |key| != KEY_SIZE then Err(InvalidKey)
                 else if given.Some? && |given.value| != NONCE_SIZE then Err(BadNonce)
                 else if given.None? && entropy.None? then Err(EntropyFault)
                 else Ok(Sealed(g, key, (if given.Some? then given else entropy).value, aad, plaintext))
    ensures r == Err(InvalidKey) <==> |key| != 32
    ensures r == Err(BadNonce) <==> |key| == 32 && given.Some? && |given.value| != 12
    ensures r == Err(EntropyFault) <==> |key| == 32 && given.None? && entropy.None?
    ensures r.Ok? ==>
      var nonce := if given.Some? then given.value else entropy.value;
      r.value == Base64.Encode(Base64.Url, [1] + nonce + g.seal(key, nonce, aad, plaintext))
  {
    if |key| != KEY_SIZE {
      return Err(InvalidKey);
    }
    var nonce := given;
    if nonce.None? {
      if entropy.None? {
        return Err(EntropyFault);
      }
      nonce := entropy;
    } else if |nonce.value| != NONCE_SIZE {
      return Err(BadNonce);
    }
    var out: Bytes := [];
    out := out + [VERSION_1];
    out := out + nonce.value;
    out := out + g.seal(key, nonce.value, aad, plaintext);
    assert out == Frame(g, key, nonce.value, aad, plaintext);
    return Ok(Base64.Encode(Base64.Url, out));
  }

  /** `Open` */
  function Open(g: Gcm, key: Bytes, ciphertext: string, aad: Bytes): Result<Bytes> {
    if |key| != KEY_SIZE then Err(InvalidKey)
    else
      match Base64.Decode(Base64.Url, ciphertext)
      case None => Err(InvalidCiphertext)
      case Some(raw) =>
        if |raw| < MIN_SIZE then Err(CiphertextTooShort)
        else if raw[0] != VERSION_1 then Err(UnsupportedVersion)
        else
          match g.open(key, raw[1..AEAD_HEADER_SIZE], aad, raw[AEAD_HEADER_SIZE..])
          case None => Err(Tampered)
          case Some(plaintext) => Ok(plaintext)
  }

  /** A key checked once and bound to its cipher. It never changes. */
  datatype Sealer = Sealer(g: Gcm, key: Bytes)
  {
    method Seal(plaintext: Bytes, aad: Bytes, entropy: Option<Bytes>) returns (r: Result<string>)
      requires entropy.Some? ==> |entropy.value| == NONCE_SIZE
      ensures r == if entropy.None? then Err(EntropyFault)
                   else Ok(Sealed(g, key, entropy.value, aad, plaintext))
      ensures r.Ok? ==>
        r.value == Base64.Encode(Base64.Url, [1] + entropy.value + g.seal(key, entropy.value, aad, plaintext))
    {
      if entropy.None? {
        return Err(EntropyFault);
      }
      var out: Bytes := [VERSION_1];
      out := out + entropy.value;
      out := out + g.seal(key, entropy.value, aad, plaintext);
      return Ok(Base64.Encode(Base64.Url, out));
    }

    function Open(ciphertext: string, aad: Bytes): Result<Bytes> {
      var decoded := Base64.Decode(Base64.Url, ciphertext);
      if decoded.None? then Err(InvalidCiphertext)
      else
        var raw := decoded.value;
        if |raw| < MIN_SIZE then Err(CiphertextTooShort)
        else if raw[0] != VERSION_1 then Err(UnsupportedVersion)
        else
          var unsealed := g.open(key, raw[1..AEAD_HEADER_SIZE], aad, raw[AEAD_HEADER_SIZE..]);
          if unsealed.None? then Err(Tampered) else Ok(unsealed.value)
    }
  }

  function NewSealer(g: Gcm, key: Bytes): Result<Sealer> {
    if |key| != KEY_SIZE then Err(InvalidKey) else Ok(Sealer(g, key))
  }

  /** Binding the key early changes nothing: same plaintext, same error, for every string and aad. */
  lemma SealerRefinesOpen(g: Gcm, key: Bytes, ciphertext: string, aad: Bytes)
    ensures match NewSealer(g, key)
            case Err(e) => Open(g, key, ciphertext, aad) == Err(e)
            case Ok(sealer) => Open(g, key, ciphertext, aad) == sealer.Open(ciphertext, aad)
  {
  }

  lemma FrameParts(g: Gcm, key: Bytes, nonce: Bytes, aad: Bytes, plaintext: Bytes)
    requires g.Lawful() && |nonce| == NONCE_SIZE
    ensures var raw := Frame(g, key, nonce, aad, plaintext);
            && |raw| == MIN_SIZE + |plaintext| && raw[0] == VERSION_1
            && raw[1..AEAD_HEADER_SIZE] == nonce && raw[AEAD_HEADER_SIZE..] == g.seal(key, nonce, aad, plaintext)
  {
  }

  /** `Open` inverts `Seal`, and the size on the wire is four thirds of 29 + N, rounded up. */
  lemma RoundTrip(g: Gcm, key: Bytes, nonce: Bytes, aad: Bytes, plaintext: Bytes)
    requires g.Lawful() && |key| == KEY_SIZE && |nonce| == NONCE_SIZE
    ensures Open(g, key, Sealed(g, key, nonce, aad, plaintext), aad) == Ok(plaintext)
    ensures |Sealed(g, key, nonce, aad, plaintext)| == ((MIN_SIZE + |plaintext|) * 4 + 2) / 3
  {
    hide Base64.Encode, Base64.Decode;
    FrameParts(g, key, nonce, aad, plaintext);
    Base64.RoundTrip(Base64.Url, Frame(g, key, nonce, aad, plaintext));
  }

  /** The one box that `Open` finds in a text, if it finds any, is no forgery. */
  ghost predicate UnforgedText(g: Gcm, key: Bytes, log: seq<Sealing>, ciphertext: string, aad: Bytes) {
    match Base64.Decode(Base64.Url, ciphertext)
    case None => true
    case Some(raw) => |raw| >= MIN_SIZE ==> Unforged(g, log, key, raw[1..AEAD_HEADER_SIZE], aad, raw[AEAD_HEADER_SIZE..])
  }

  /** The text is the frame of a logged call, up to what base64 leaves open. */
  ghost predicate IsTextOf(g: Gcm, e: Sealing, ciphertext: string) {
    Base64.Decode(Base64.Url, ciphertext) == Some(Frame(g, e.key, e.nonce, e.aad, e.plaintext))
  }

  /** Authenticity, over decoded bytes: a string opens to `p` exactly when it decodes to a whole frame that
      was sealed, version byte and nonce included, under the same aad, around `p`. */
  lemma OpensExactlyTheLog(g: Gcm, key: Bytes, log: seq<Sealing>, ciphertext: string, aad: Bytes)
    requires g.Lawful() && |key| == KEY_SIZE
    requires forall i :: 0 <= i < |log| ==> |log[i].nonce| == NONCE_SIZE
    requires UnforgedText(g, key, log, ciphertext, aad)
    ensures forall p :: Open(g, key, ciphertext, aad) == Ok(p) <==>
              exists i :: 0 <= i < |log| && log[i].key == key && log[i].aad == aad && log[i].plaintext == p
                          && IsTextOf(g, log[i], ciphertext)
  {
    hide Base64.Decode;
    forall i | 0 <= i < |log| && log[i].key == key && log[i].aad == aad && IsTextOf(g, log[i], ciphertext)
      ensures Open(g, key, ciphertext, aad) == Ok(log[i].plaintext)
    {
      FrameParts(g, key, log[i].nonce, aad, log[i].plaintext);
    }
    if Open(g, key, ciphertext, aad).Ok? {
      var raw := Base64.Decode(Base64.Url, ciphertext).value;
      var nonce, ct := raw[1..AEAD_HEADER_SIZE], raw[AEAD_HEADER_SIZE..];
      var i :| 0 <= i < |log| && log[i].key == key && log[i].nonce == nonce && log[i].aad == aad
               && g.seal(key, nonce, aad, log[i].plaintext) == ct;
      assert raw == [raw[0]] + nonce + ct == Frame(g, key, nonce, aad, log[i].plaintext);
      assert IsTextOf(g, log[i], ciphertext);
    }
  }

  /** A cipher, key, log and text that meet these hypotheses, and the text opens. */
  lemma HypothesesAreMet() returns (key: Bytes, log: seq<Sealing>, ciphertext: string)
    ensures TOY_GCM.Lawful() && |key| == KEY_SIZE && |log| == 1 && |log[0].nonce| == NONCE_SIZE
    ensures UnforgedText(TOY_GCM, key, log, ciphertext, log[0].aad)
    ensures Open(TOY_GCM, key, ciphertext, log[0].aad) == Ok([104, 105])
  {
    hide Base64.Encode, Base64.Decode;
    ToyGcmIsLawful();
    key := seq(KEY_SIZE, _ => 7);
    var e := Sealing(key, seq(NONCE_SIZE, _ => 1), [5], [104, 105]);
    log, ciphertext := [e], Sealed(TOY_GCM, key, e.nonce, e.aad, e.plaintext);
    FrameParts(TOY_GCM, key, e.nonce, e.aad, e.plaintext);
    Base64.RoundTrip(Base64.Url, Frame(TOY_GCM, key, e.nonce, e.aad, e.plaintext));
    RoundTrip(TOY_GCM, key, e.nonce, e.aad, e.plaintext);
    assert log[0].key == key && log[0].nonce == e.nonce && log[0].aad == e.aad;
  }

  /** The string itself is not authenticated: a line break in it goes unnoticed. */
  lemma LineBreaksOpen(g: Gcm, key: Bytes, s: string, t: string, aad: Bytes)
    ensures Open(g, key, s + "\n" + t, aad) == Open(g, key, s + t, aad)
  {
    hide Base64.Decode;
    Base64.LineBreakIsSkipped(Base64.Url, s, t);
  }

  /** The version byte shows in the text: every sealed string begins with `A`. */
  lemma BeginsWithA(g: Gcm, key: Bytes, nonce: Bytes, aad: Bytes, plaintext: Bytes)
    requires g.Lawful() && |nonce| == NONCE_SIZE
    ensures 0 < |Sealed(g, key, nonce, aad, plaintext)| && Sealed(g, key, nonce, aad, plaintext)[0] == 'A'
  {
    FrameParts(g, key, nonce, aad, plaintext);
    Base64.SextetsSize(Frame(g, key, nonce, aad, plaintext));
  }

  /** The text is that of a version-1 box: version byte, nonce, and at least a tag. */
  ghost predicate IsBox(s: string, nonce: Bytes, ct: Bytes) {
    |nonce| == 12 && |ct| >= 16 && Base64.Decode(Base64.Url, s) == Some([1] + nonce + ct)
  }

  /** What `Open` returns, error by error and plaintext by plaintext, for every key, string and aad. */
  lemma OpensExactly(g: Gcm, key: Bytes, s: string, aad: Bytes)
    ensures var r := Open(g, key, s, aad);
            && (r == Err(InvalidKey) <==> |key| != 32)
            && (r == Err(InvalidCiphertext) <==> |key| == 32 && Base64.Decode(Base64.Url, s).None?)
            && (r == Err(CiphertextTooShort) <==>
                  |key| == 32 && exists raw :: |raw| < 29 && Base64.Decode(Base64.Url, s) == Some(raw))
            && (r == Err(UnsupportedVersion) <==>
                  |key| == 32 && exists v, rest :: v != 1 && |rest| >= 28 && Base64.Decode(Base64.Url, s) == Some([v] + rest))
            && (r == Err(Tampered) <==>
                  |key| == 32 && exists nonce, ct :: IsBox(s, nonce, ct) && g.open(key, nonce, aad, ct) == None)
            && (forall p :: r == Ok(p) <==>
                  |key| == 32 && exists nonce, ct :: IsBox(s, nonce, ct) && g.open(key, nonce, aad, ct) == Some(p))
  {
    hide Base64.Decode;
    match Base64.Decode(Base64.Url, s)
    case None =>
    case Some(raw) =>
      if |raw| >= 29 {
        assert raw == [raw[0]] + raw[1..] && raw == [raw[0]] + raw[1..13] + raw[13..];
        assert raw[0] == 1 ==> IsBox(s, raw[1..13], raw[13..]);
        forall nonce, ct | IsBox(s, nonce, ct)
          ensures raw[0] == 1 && nonce == raw[1..13] && ct == raw[13..]
        {
        }
      }
  }
}
