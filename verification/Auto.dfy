/** auto.go: telling base64url boxes and hex CBC texts apart, and opening either. */
module Auto {
  import opened Octets
  import opened Errors
  import opened Primitives
  import opened AeadV1
  import Base64
  import Cbc
  import Hex

  predicate IsLikelyAEAD(ciphertext: string) {
    match Base64.Decode(Base64.Url, ciphertext)
    case None => false
    case Some(raw) => |raw| >= MIN_SIZE && raw[0] == VERSION_1
  }

  predicate IsLikelyCBC(ciphertext: string) {
    match Hex.Decode(ciphertext)
    case None => false
    case Some(raw) => |raw| >= BLOCK_SIZE && (|raw| - BLOCK_SIZE) % BLOCK_SIZE == 0 && |raw| - BLOCK_SIZE > 0
  }

  function OpenAuto(g: Gcm, c: BlockCipher, key: Bytes, ciphertext: string, aad: Bytes): Result<Bytes> {
    var box := if IsLikelyAEAD(ciphertext) then Open(g, key, ciphertext, aad) else Err(UnknownFormat);
    if box.Ok? then box
    else
      var cbc := if IsLikelyCBC(ciphertext) then Cbc.Decrypted(c, key, ciphertext) else Err(UnknownFormat);
      if cbc.Ok? then cbc else Err(UnknownFormat)
  }

  /** The two detectors only save work: the result is that of trying `Open` and then `DecryptCBC`. */
  lemma DetectorsLoseNothing(g: Gcm, c: BlockCipher, key: Bytes, s: string, aad: Bytes)
    ensures OpenAuto(g, c, key, s, aad)
         == if Open(g, key, s, aad).Ok? then Open(g, key, s, aad)
            else if Cbc.Decrypted(c, key, s).Ok? then Cbc.Decrypted(c, key, s)
            else Err(UnknownFormat)
  {
    hide Base64.Decode, Hex.Decode, Cbc.DecBlocks;
  }

  /** What a text must begin with to decode to a first byte below 4, and so to a version byte. */
  lemma FirstDigit(s: string)
    requires Base64.AllDigits(Base64.Url, s) && |s| % 4 == 0 && s != ""
    ensures Base64.Decode(Base64.Url, s).Some? && Base64.Decode(Base64.Url, s).value != []
    ensures Base64.Decode(Base64.Url, s).value[0] < 4 <==> s[0] == 'A'
  {
    Base64.StripKeepsDigits(Base64.Url, s);
    var q := Base64.Values(Base64.Url, s);
    assert q[0] == 0 <==> s[0] == 'A' by {
      Base64.DigitInverse(Base64.Url, s[0], 0);
    }
    assert Base64.Unpack(q)[0] == Base64.Byte0(q[0], q[1]);
  }

  lemma HexIsNoBox(raw: Bytes)
    requires raw != [] && |raw| % 2 == 0
    ensures Base64.Decode(Base64.Url, Hex.Encode(raw)).Some? && !IsLikelyAEAD(Hex.Encode(raw))
  {
    hide Base64.Decode, Hex.Encode;
    var s := Hex.Encode(raw);
    Hex.EncodeShape(raw);
    assert |s| % 4 == 0 && s != "";
    assert Base64.AllDigits(Base64.Url, s) && s[0] != 'A';
    FirstDigit(s);
  }

  lemma HexIsCbc(raw: Bytes)
    requires |raw| % BLOCK_SIZE == 0 && BLOCK_SIZE < |raw|
    ensures IsLikelyCBC(Hex.Encode(raw))
  {
    hide Hex.Encode, Hex.Decode;
    Hex.RoundTrip(raw);
  }

  /** CBC text is always valid base64url, but never of a version-1 frame: its first character is not `A`. */
  lemma CbcTextIsNoBox(c: BlockCipher, key: Bytes, iv: Bytes, p: Bytes)
    requires c.Lawful() && |iv| == BLOCK_SIZE
    ensures var s := Cbc.CbcText(c, key, iv, p);
            && Base64.Decode(Base64.Url, s).Some?
            && !IsLikelyAEAD(s) && IsLikelyCBC(s)
  {
    hide Base64.Decode, Hex.Encode, Cbc.CbcText, IsLikelyAEAD, IsLikelyCBC;
    var raw := Cbc.TextIsHex(c, key, iv, p);
    HexIsCbc(raw);
    HexIsNoBox(raw);
  }

  /** `OpenAuto` opens what `Seal` wrote. */
  lemma OpensBoxes(g: Gcm, c: BlockCipher, key: Bytes, nonce: Bytes, aad: Bytes, p: Bytes)
    requires g.Lawful() && |key| == KEY_SIZE && |nonce| == NONCE_SIZE
    ensures OpenAuto(g, c, key, Sealed(g, key, nonce, aad, p), aad) == Ok(p)
  {
    AeadV1.RoundTrip(g, key, nonce, aad, p);
    DetectorsLoseNothing(g, c, key, Sealed(g, key, nonce, aad, p), aad);
  }

  /** `OpenAuto` opens what `EncryptCBC` wrote, for all three key sizes and any aad, whatever the AEAD cipher
      would have made of it. */
  lemma OpensCbc(g: Gcm, c: BlockCipher, key: Bytes, iv: Bytes, aad: Bytes, p: Bytes)
    requires c.Lawful() && Cbc.ValidKeyLen(|key|) && |iv| == BLOCK_SIZE
    ensures OpenAuto(g, c, key, Cbc.CbcText(c, key, iv, p), aad) == Ok(p)
  {
    hide Base64.Decode, Hex.Decode, Cbc.DecBlocks;
    CbcTextIsNoBox(c, key, iv, p);
    Cbc.RoundTrip(c, key, iv, p);
  }

  /** What the one detector looks at. */
  lemma LooksLikeBox(s: string)
    ensures IsLikelyAEAD(s) <==> exists rest :: |rest| >= 28 && Base64.Decode(Base64.Url, s) == Some([1] + rest)
  {
    hide Base64.Decode;
    match Base64.Decode(Base64.Url, s)
    case None =>
    case Some(raw) =>
      assert raw != [] ==> raw == [raw[0]] + raw[1..];
  }

  /** And the other. */
  lemma LooksLikeCbc(s: string)
    ensures IsLikelyCBC(s) <==> exists raw :: |raw| >= 32 && |raw| % 16 == 0 && Hex.Decode(s) == Some(raw)
  {
    hide Hex.Decode;
  }
}
