/** The objects of kms.go: stored keys, data-key buffers, and the wiping of the latter. */
module EnvelopeHeap {
  import opened Octets
  import opened Errors
  import opened Primitives
  import opened Envelope
  import AeadV1
  import Base64

  /** `zeroBytes` */
  method ZeroBytes(b: array<byte>)
    modifies b
    ensures forall i :: 0 <= i < b.Length ==> b[i] == 0
  {
    for i := 0 to b.Length
      invariant forall j :: 0 <= j < i ==> b[j] == 0
    {
      b[i] := 0;
    }
  }

  ghost predicate Wiped(b: array<byte>)
    reads b
  {
    forall i :: 0 <= i < b.Length ==> b[i] == 0
  }

  method Buffer(b: Bytes) returns (a: array<byte>)
    ensures fresh(a) && a[..] == b
  {
    a := new byte[|b|](_ => 0);
    forall i | 0 <= i < |b| {
      a[i] := b[i];
    }
  }

  class StaticKMS {
    var keks: map<string, array<byte>>
    /** Every data-key buffer this KMS has handed out. */
    ghost var issued: set<array<byte>>

    constructor ()
      ensures Keks() == map[] && keks.Values == {} && issued == {}
    {
      keks, issued := map[], {};
    }

    /** The keys themselves, as opposed to the buffers that hold them. */
    ghost function Keks(): map<string, Bytes>
      reads this, keks.Values
    {
      map id | id in keks :: keks[id][..]
    }

    method AddKey(keyID: string, key: array<byte>) returns (err: Option<Error>)
      modifies `keks
      ensures Keks() == Added(old(Keks()), keyID, key[..])
      ensures err == if key.Length != 32 then Some(InvalidKey) else None
      ensures Keks() == if key.Length == 32 then old(Keks())[keyID := key[..]] else old(Keks())
      ensures fresh(keks.Values - old(keks.Values))
    {
      if key.Length != KEY_SIZE {
        return Some(InvalidKey);
      }
      var copy := Buffer(key[..]);
      keks := keks[keyID := copy];
      return None;
    }

    /** Hands out the stored buffer itself. */
    method Lookup(keyID: string) returns (kek: array?<byte>)
      ensures kek == if keyID in keks then keks[keyID] else null
    {
      kek := if keyID in keks then keks[keyID] else null;
    }

    /** `random` and `nonce` are what the random source yields. */
    method GenerateDataKey(g: Gcm, keyID: string, random: Option<Bytes>, nonce: Option<Bytes>)
      returns (err: Option<Error>, dek: array<byte>, wrapped: Bytes)
      requires random.Some? ==> |random.value| == KEY_SIZE
      requires nonce.Some? ==> |nonce.value| == AeadV1.NONCE_SIZE
      modifies `issued
      ensures fresh(dek) && issued == old(issued) + (if err.None? then {dek} else {})
      ensures err == if keyID !in keks then Some(UnknownKeyId)
                     else if random.None? then Some(EntropyFault)
                     else if |Keks()[keyID]| != KEY_SIZE then Some(InvalidKey)
                     else if nonce.None? then Some(EntropyFault)
                     else None
      ensures err.None? ==> dek[..] == random.value && wrapped == Wrapped(g, Keks()[keyID], nonce.value, dek[..])
    {
      var kek := Lookup(keyID);
      dek, wrapped := new byte[0], [];
      if kek == null {
        err := Some(UnknownKeyId);
        return;
      }
      if random.None? {
        err := Some(EntropyFault);
        return;
      }
      dek := Buffer(random.value);
      var sealed := AeadV1.SealWithNonce(g, kek[..], dek[..], [], None, nonce);
      if sealed.Err? {
        err := Some(sealed.error);
        return;
      }
      err, wrapped := None, ToBytes(sealed.value);
      issued := issued + {dek};
    }

    method Decrypt(g: Gcm, keyID: string, wrapped: Bytes) returns (err: Option<Error>, dek: array<byte>)
      modifies `issued
      ensures fresh(dek) && issued == old(issued) + (if err.None? then {dek} else {})
      ensures match StaticUnwrap(g, Keks(), keyID, wrapped)
              case Err(e) => err == Some(e)
              case Ok(key) => err == None && dek[..] == key
    {
      var kek := Lookup(keyID);
      dek := new byte[0];
      if kek == null {
        err := Some(UnknownKeyId);
        return;
      }
      var key := AeadV1.Open(g, kek[..], ToText(wrapped), []);
      if key.Err? {
        err := Some(key.error);
        return;
      }
      err := None;
      dek := Buffer(key.value);
      issued := issued + {dek};
    }
  }

  class EnvelopeSealer {
    const kms: StaticKMS
    const keyID: string

    constructor (kms: StaticKMS, keyID: string)
      ensures this.kms == kms && this.keyID == keyID
    {
      this.kms, this.keyID := kms, keyID;
    }

    /** `Seal`. On every way out, each data-key buffer that the KMS handed out meanwhile is wiped; none of
        them is a stored key, and those are as they were. */
    method Seal(g: Gcm, plaintext: Bytes, aad: Bytes, random: Option<Bytes>, wrapNonce: Option<Bytes>, nonce: Option<Bytes>)
      returns (r: Result<string>)
      requires random.Some? ==> |random.value| == KEY_SIZE
      requires wrapNonce.Some? ==> |wrapNonce.value| == AeadV1.NONCE_SIZE
      requires nonce.Some? ==> |nonce.value| == AeadV1.NONCE_SIZE
      modifies kms`issued
      ensures forall b :: b in kms.issued - old(kms.issued) ==> fresh(b) && b !in kms.keks.Values && Wiped(b)
      ensures old(kms.issued) <= kms.issued && (r.Ok? ==> old(kms.issued) < kms.issued)
      ensures kms.Keks() == old(kms.Keks())
      ensures r == if keyID !in kms.Keks() then Err(UnknownKeyId)
                   else if random.None? then Err(EntropyFault)
                   else if |kms.Keks()[keyID]| != KEY_SIZE then Err(InvalidKey)
                   else if wrapNonce.None? || nonce.None? then Err(EntropyFault)
                   else Ok(Sealed(g, random.value, Wrapped(g, kms.Keks()[keyID], wrapNonce.value, random.value),
                                  nonce.value, aad, plaintext))
    {
      var err, dek, wrapped := kms.GenerateDataKey(g, keyID, random, wrapNonce);
      if err.Some? {
        return Err(err.value);
      }
      r := SealThenWipe(g, dek, wrapped, plaintext, aad, nonce);
    }

    method Open(g: Gcm, ciphertext: string, aad: Bytes) returns (r: Outcome)
      modifies kms`issued
      ensures forall b :: b in kms.issued - old(kms.issued) ==> fresh(b) && b !in kms.keks.Values && Wiped(b)
      ensures old(kms.issued) <= kms.issued && (r.Returns? && r.r.Ok? ==> old(kms.issued) < kms.issued)
      ensures kms.Keks() == old(kms.Keks())
      ensures r == Envelope.Open(g, UnwrapWith(g, kms.Keks()), keyID, ciphertext, aad)
    {
      hide Base64.Decode, StaticUnwrap, OpenInner;
      var decoded := Base64.Decode(Base64.Url, ciphertext);
      if decoded.None? {
        return Returns(Err(InvalidCiphertext));
      }
      var raw := decoded.value;
      if |raw| < 5 {
        return Returns(Err(CiphertextTooShort));
      }
      if raw[0] != VERSION_ENVELOPE {
        return Returns(Err(UnsupportedVersion));
      }
      var wrappedLen := FromBe32(raw[1..5]);
      if 5 + wrappedLen > |raw| {
        return Returns(Err(CiphertextTooShort));
      }
      var end := Wrap32(5 + wrappedLen);
      if end < 5 {
        return Panic;
      }
      var wrapped, inner := raw[5..end], raw[end..];
      var err, dek := kms.Decrypt(g, keyID, wrapped);
      if err.Some? {
        return Returns(Err(err.value));
      }
      var plain := OpenThenWipe(g, dek, inner, aad);
      r := Returns(plain);
    }
  }

  /** The rest of `Seal` once some KMS, of whatever kind, has handed out the data key: the text or the error,
      and the buffer wiped in either case. */
  method SealThenWipe(g: Gcm, dek: array<byte>, wrapped: Bytes, plaintext: Bytes, aad: Bytes, nonce: Option<Bytes>)
    returns (r: Result<string>)
    requires nonce.Some? ==> |nonce.value| == AeadV1.NONCE_SIZE
    modifies dek
    ensures Wiped(dek)
    ensures r == if dek.Length != KEY_SIZE then Err(InvalidKey)
                 else if nonce.None? then Err(EntropyFault)
                 else Ok(Sealed(g, old(dek[..]), wrapped, nonce.value, aad, plaintext))
  {
    r := SealUnder(g, dek[..], wrapped, plaintext, aad, nonce);
    ZeroBytes(dek);
  }

  /** The rest of `Open` once some KMS has handed out the data key. */
  method OpenThenWipe(g: Gcm, dek: array<byte>, inner: Bytes, aad: Bytes) returns (r: Result<Bytes>)
    modifies dek
    ensures Wiped(dek)
    ensures r == OpenInner(g, old(dek[..]), inner, aad)
  {
    r := OpenInner(g, dek[..], inner, aad);
    ZeroBytes(dek);
  }

  /** The part of `Seal` between obtaining the data key and wiping it. */
  method SealUnder(g: Gcm, dek: Bytes, wrapped: Bytes, plaintext: Bytes, aad: Bytes, nonce: Option<Bytes>)
    returns (r: Result<string>)
    requires nonce.Some? ==> |nonce.value| == AeadV1.NONCE_SIZE
    ensures r == if |dek| != KEY_SIZE then Err(InvalidKey)
                 else if nonce.None? then Err(EntropyFault)
                 else Ok(Sealed(g, dek, wrapped, nonce.value, aad, plaintext))
  {
    var inner := AeadV1.SealWithNonce(g, dek, plaintext, aad, None, nonce);
    if inner.Err? {
      return Err(inner.error);
    }
    var innerRaw := Base64.Decode(Base64.Url, inner.value);
    Base64.RoundTrip(Base64.Url, AeadV1.Frame(g, dek, nonce.value, aad, plaintext));
    if innerRaw.None? {
      return Err(InvalidCiphertext);
    }
    var out: Bytes := [VERSION_ENVELOPE];
    out := out + Be32(Wrap32(|wrapped|));
    out := out + wrapped;
    out := out + innerRaw.value;
    return Ok(Base64.Encode(Base64.Url, out));
  }
}
