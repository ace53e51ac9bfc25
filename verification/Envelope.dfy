/** kms.go: the envelope frame, the in-memory KMS and its handling of key buffers. */
module Envelope {
  import opened Octets
  import opened Errors
  import opened Primitives
  import AeadV1
  import Base64

  const VERSION_ENVELOPE: byte := 6

  function Frame(wrapped: Bytes, inner: Bytes): Bytes {
    [VERSION_ENVELOPE] + Be32(Wrap32(|wrapped|)) + wrapped + inner
  }

  /** What the opener makes of the decoded bytes. `Panics`: slice bounds in reverse order. */
  datatype Parsed = Refused(error: Error) | Panics | Parts(wrapped: Bytes, inner: Bytes)

  function Parse(raw: Bytes): Parsed {
    if |raw| < 5 then Refused(CiphertextTooShort)
    else if raw[0] != VERSION_ENVELOPE then Refused(UnsupportedVersion)
    else
      var wrappedLen := FromBe32(raw[1..5]);
      if 5 + wrappedLen > |raw| then Refused(CiphertextTooShort)   // compared in 64 bits
      else
        var end := Wrap32(5 + wrappedLen);                         // sliced in 32 bits
        if end < 5 then Panics else Parts(raw[5..end], raw[end..])
  }

  /** Below 2^32 bytes the guard does its work: no slice bound wraps, and the parts are those of the frame. */
  lemma ParseInvertsFrame(raw: Bytes, wrapped: Bytes, inner: Bytes)
    requires |raw| < TWO_32
    ensures Parse(raw) != Panics
    ensures Parse(raw) == Parts(wrapped, inner) <==> raw == Frame(wrapped, inner)
  {
    hide Wrap32, FromBe32, Be32;
    if raw == Frame(wrapped, inner) {
      FrameParses(wrapped, inner);
    }
    if 5 <= |raw| {
      var len: nat := FromBe32(raw[1..5]);
      WrapKeeps(5 + len);
      WrapKeeps(len);
      if Parse(raw) == Parts(wrapped, inner) {
        Be32Encodes(raw[1..5]);
        assert raw == [raw[0]] + raw[1..5] + raw[5..5 + len] + raw[5 + len..];
      }
    }
  }

  /** A frame of any length comes apart as it was put together exactly when its wrapped key is short enough
      for five more bytes to be counted in 32 bits. */
  lemma FrameParses(wrapped: Bytes, inner: Bytes)
    ensures Parse(Frame(wrapped, inner)) == Parts(wrapped, inner) <==> |wrapped| < TWO_32 - 5
  {
    hide Wrap32, Be32, FromBe32;
    var raw := Frame(wrapped, inner);
    WrapKeeps(|wrapped|);
    WrapKeeps(5 + |wrapped|);
    Be32Decodes(Wrap32(|wrapped|));
    assert raw[1..5] == Be32(Wrap32(|wrapped|));
    if |wrapped| < TWO_32 - 5 {
      assert raw[5..5 + |wrapped|] == wrapped && raw[5 + |wrapped|..] == inner;
    }
  }

  /** The guard alone is not enough above that: the sum it checked in 64 bits is taken again in 32. */
  lemma PanicsExactly(raw: Bytes)
    ensures Parse(raw) == Panics
       <==> 5 <= |raw| && raw[0] == VERSION_ENVELOPE && TWO_32 - 5 <= FromBe32(raw[1..5]) <= |raw| - 5
  {
  }

  /** `Unwrap(keyID, wrapped)`: the KMS's `Decrypt`. */
  type Unwrap = (string, Bytes) -> Result<Bytes>

  /** The text `EnvelopeSealer.Seal` returns for the data key and wrapped key it was given. */
  function Sealed(g: Gcm, dek: Bytes, wrapped: Bytes, nonce: Bytes, aad: Bytes, plaintext: Bytes): string {
    Base64.Encode(Base64.Url, Frame(wrapped, AeadV1.Frame(g, dek, nonce, aad, plaintext)))
  }

  datatype Outcome = Panic | Returns(r: Result<Bytes>)

  function OpenInner(g: Gcm, dek: Bytes, inner: Bytes, aad: Bytes): Result<Bytes> {
    AeadV1.Open(g, dek, Base64.Encode(Base64.Url, inner), aad)
  }

  function Open(g: Gcm, unwrap: Unwrap, keyID: string, ciphertext: string, aad: Bytes): Outcome {
    match Base64.Decode(Base64.Url, ciphertext)
    case None => Returns(Err(InvalidCiphertext))
    case Some(raw) =>
      match Parse(raw)
      case Refused(e) => Returns(Err(e))
      case Panics => Panic
      case Parts(wrapped, inner) =>
        match unwrap(keyID, wrapped)
        case Err(e) => Returns(Err(e))
        case Ok(dek) => Returns(OpenInner(g, dek, inner, aad))
  }

  /** The text of such bytes, on which `Open` panics whatever the cipher, the KMS and the key id. */
  lemma PanicInput(g: Gcm, unwrap: Unwrap, keyID: string, aad: Bytes)
    ensures var raw: Bytes := [VERSION_ENVELOPE, 255, 255, 255, 255] + seq(TWO_32 - 1, _ => 0);
            Open(g, unwrap, keyID, Base64.Encode(Base64.Url, raw), aad) == Panic
  {
    hide Base64.Encode, Base64.Decode;
    var raw: Bytes := [VERSION_ENVELOPE, 255, 255, 255, 255] + seq(TWO_32 - 1, _ => 0);
    assert raw[1..5] == [255, 255, 255, 255];
    PanicsExactly(raw);
    Base64.RoundTrip(Base64.Url, raw);
  }

  /** With any KMS that unwraps what it wrapped, `Open` inverts `Seal`. */
  lemma RoundTrip(g: Gcm, unwrap: Unwrap, keyID: string, dek: Bytes, wrapped: Bytes, nonce: Bytes, aad: Bytes, p: Bytes)
    requires g.Lawful() && |dek| == KEY_SIZE && |nonce| == AeadV1.NONCE_SIZE
    requires unwrap(keyID, wrapped) == Ok(dek) && |wrapped| < TWO_32 - 5
    ensures Open(g, unwrap, keyID, Sealed(g, dek, wrapped, nonce, aad, p), aad) == Returns(Ok(p))
  {
    hide Base64.Encode, Base64.Decode, Parse, AeadV1.Open, AeadV1.Frame;
    var inner := AeadV1.Frame(g, dek, nonce, aad, p);
    Base64.RoundTrip(Base64.Url, Frame(wrapped, inner));
    FrameParses(wrapped, inner);
    AeadV1.RoundTrip(g, dek, nonce, aad, p);
  }

  /** No text whose bytes stay below 2^32 makes `Open` panic, whatever the KMS. */
  lemma OpenReturns(g: Gcm, unwrap: Unwrap, keyID: string, s: string, aad: Bytes)
    requires match Base64.Decode(Base64.Url, s) case None => true case Some(raw) => |raw| < TWO_32
    ensures Open(g, unwrap, keyID, s, aad).Returns?
  {
    hide Base64.Decode, Parse;
    match Base64.Decode(Base64.Url, s)
    case None =>
    case Some(raw) => ParseInvertsFrame(raw, [], []);
  }

  // ---------- text as bytes ----------

  /** `[]byte(s)` for the single-byte characters that base64 uses. */
  function ToBytes(s: string): Bytes {
    seq(|s|, i requires 0 <= i < |s| => (s[i] as int % 256) as byte)
  }

  function ToText(b: Bytes): string {
    seq(|b|, i requires 0 <= i < |b| => b[i] as char)
  }

  lemma TextInverse(s: string)
    requires Base64.AllDigits(Base64.Url, s)
    ensures ToText(ToBytes(s)) == s
  {
    forall i | 0 <= i < |s|
      ensures ToText(ToBytes(s))[i] == s[i]
    {
      assert Base64.DigitValue(Base64.Url, s[i]).Some?;
    }
  }

  // ---------- the in-memory KMS ----------

  /** A data key, sealed under a key-encryption key. */
  function Wrapped(g: Gcm, kek: Bytes, nonce: Bytes, dek: Bytes): Bytes {
    ToBytes(AeadV1.Sealed(g, kek, nonce, [], dek))
  }

  function StaticUnwrap(g: Gcm, keks: map<string, Bytes>, keyID: string, wrapped: Bytes): Result<Bytes> {
    if keyID !in keks then Err(UnknownKeyId) else AeadV1.Open(g, keks[keyID], ToText(wrapped), [])
  }

  function UnwrapWith(g: Gcm, keks: map<string, Bytes>): Unwrap {
    (id, wrapped) => StaticUnwrap(g, keks, id, wrapped)
  }

  /** `AddKey` */
  function Added(keks: map<string, Bytes>, id: string, key: Bytes): map<string, Bytes> {
    if |key| != KEY_SIZE then keks else keks[id := key]
  }

  function AddedAll(keks: map<string, Bytes>, ops: seq<(string, Bytes)>): map<string, Bytes>
    decreases |ops|
  {
    if ops == [] then keks else AddedAll(Added(keks, ops[0].0, ops[0].1), ops[1..])
  }

  lemma {:induction false} KekStays(keks: map<string, Bytes>, ops: seq<(string, Bytes)>, id: string)
    requires id in keks
    requires forall i :: 0 <= i < |ops| && ops[i].0 == id ==> |ops[i].1| != KEY_SIZE || ops[i].1 == keks[id]
    ensures id in AddedAll(keks, ops) && AddedAll(keks, ops)[id] == keks[id]
    decreases |ops|
  {
    if ops != [] {
      KekStays(Added(keks, ops[0].0, ops[0].1), ops[1..], id);
    }
  }

  lemma Unwraps(g: Gcm, keks: map<string, Bytes>, id: string, nonce: Bytes, dek: Bytes)
    requires g.Lawful() && id in keks && |keks[id]| == KEY_SIZE && |nonce| == AeadV1.NONCE_SIZE
    ensures StaticUnwrap(g, keks, id, Wrapped(g, keks[id], nonce, dek)) == Ok(dek)
    ensures |Wrapped(g, keks[id], nonce, dek)| == ((AeadV1.MIN_SIZE + |dek|) * 4 + 2) / 3
  {
    var s := AeadV1.Sealed(g, keks[id], nonce, [], dek);
    AeadV1.RoundTrip(g, keks[id], nonce, [], dek);
    Base64.RoundTrip(Base64.Url, AeadV1.Frame(g, keks[id], nonce, [], dek));
    TextInverse(s);
  }

  /** An envelope made with the in-memory KMS stays openable while keys are added, until its own key id is
      given a different key. */
  lemma EnvelopeStaysOpenable(g: Gcm, keks: map<string, Bytes>, ops: seq<(string, Bytes)>, id: string,
                              dek: Bytes, wrapNonce: Bytes, nonce: Bytes, aad: Bytes, p: Bytes)
    requires g.Lawful() && id in keks && |keks[id]| == KEY_SIZE
    requires |dek| == KEY_SIZE && |wrapNonce| == |nonce| == AeadV1.NONCE_SIZE
    requires forall i :: 0 <= i < |ops| && ops[i].0 == id ==> |ops[i].1| != KEY_SIZE || ops[i].1 == keks[id]
    ensures Open(g, UnwrapWith(g, AddedAll(keks, ops)), id,
                 Sealed(g, dek, Wrapped(g, keks[id], wrapNonce, dek), nonce, aad, p), aad)
         == Returns(Ok(p))
  {
    hide Open, Sealed, Wrapped, StaticUnwrap, AddedAll;
    var later := AddedAll(keks, ops);
    KekStays(keks, ops, id);
    Unwraps(g, later, id, wrapNonce, dek);
    RoundTrip(g, UnwrapWith(g, later), id, dek, Wrapped(g, keks[id], wrapNonce, dek), nonce, aad, p);
  }

  // ---------- spelled out ----------

  /** The parts are found in exactly the bytes that `Seal` makes of them, whatever their number, as long as the
      wrapped key leaves the 32-bit sum alone; and what is refused, with which error. */
  lemma ParsesExactly(raw: Bytes, wrapped: Bytes, inner: Bytes)
    ensures Parse(raw) == Parts(wrapped, inner)
       <==> |wrapped| < 0xFFFF_FFFB && raw == [6] + Be32(|wrapped|) + wrapped + inner
    ensures Parse(raw) == Refused(UnsupportedVersion) <==> |raw| >= 5 && raw[0] != 6
    ensures Parse(raw) == Refused(CiphertextTooShort)
       <==> |raw| < 5 || (raw[0] == 6 && 5 + FromBe32(raw[1..5]) > |raw|)
    ensures Parse(raw).Refused? ==> Parse(raw).error in {UnsupportedVersion, CiphertextTooShort}
  {
    hide Wrap32, FromBe32, Be32;
    if |wrapped| < TWO_32 {
      FrameParses(wrapped, inner);
      WrapKeeps(|wrapped|);
    }
    if 5 <= |raw| {
      var len: nat := FromBe32(raw[1..5]);
      WrapKeeps(5 + len);
      if 5 + len <= |raw| && 5 + len < TWO_32 {
        Be32Encodes(raw[1..5]);
        assert raw == [raw[0]] + raw[1..5] + raw[5..5 + len] + raw[5 + len..];
      } else if 5 + len <= |raw| {
        WrapsOver(len);
      }
    }
  }

  lemma WrapsOver(len: nat)
    requires TWO_32 <= 5 + len < TWO_32 + 5
    ensures Wrap32(5 + len) < 5
  {
  }

  /** What `Open` returns as a plaintext, and when: the text holds a wrapped key that the KMS unwraps, and a box
      that opens under it. */
  lemma OpensExactly(g: Gcm, unwrap: Unwrap, keyID: string, s: string, aad: Bytes, p: Bytes)
    ensures Open(g, unwrap, keyID, s, aad) == Returns(Ok(p))
       <==> exists wrapped, inner, dek ::
              && |wrapped| < 0xFFFF_FFFB
              && Base64.Decode(Base64.Url, s) == Some([6] + Be32(|wrapped|) + wrapped + inner)
              && unwrap(keyID, wrapped) == Ok(dek)
              && AeadV1.Open(g, dek, Base64.Encode(Base64.Url, inner), aad) == Ok(p)
  {
    hide Base64.Decode, Base64.Encode, AeadV1.Open, Parse, Be32;
    match Base64.Decode(Base64.Url, s)
    case None =>
    case Some(raw) =>
      match Parse(raw) {
        case Parts(wrapped, inner) => ParsesExactly(raw, wrapped, inner);
        case _ =>
      }
      forall wrapped: Bytes, inner: Bytes | |wrapped| < 0xFFFF_FFFB && raw == [6] + Be32(|wrapped|) + wrapped + inner
        ensures Parse(raw) == Parts(wrapped, inner)
      {
        ParsesExactly(raw, wrapped, inner);
      }
  }

  /** And the errors. */
  lemma RefusesExactly(g: Gcm, unwrap: Unwrap, keyID: string, s: string, aad: Bytes)
    ensures var r := Open(g, unwrap, keyID, s, aad);
            match Base64.Decode(Base64.Url, s)
            case None => r == Returns(Err(InvalidCiphertext))
            case Some(raw) =>
              && (|raw| < 5 ==> r == Returns(Err(CiphertextTooShort)))
              && (|raw| >= 5 && raw[0] != 6 ==> r == Returns(Err(UnsupportedVersion)))
              && (|raw| >= 5 && raw[0] == 6 && 5 + FromBe32(raw[1..5]) > |raw| ==> r == Returns(Err(CiphertextTooShort)))
              && (forall wrapped, inner :: Parse(raw) == Parts(wrapped, inner) && unwrap(keyID, wrapped).Err? ==>
                    r == Returns(Err(unwrap(keyID, wrapped).error)))
  {
    hide Base64.Decode, AeadV1.Open;
    match Base64.Decode(Base64.Url, s)
    case None =>
    case Some(raw) => ParsesExactly(raw, [], []);
  }

  lemma DigitIsByte(c: char)
    requires Base64.DigitValue(Base64.Url, c).Some?
    ensures (c as int) < 256
  {
  }

  lemma BytesOfDigits(s: string)
    requires Base64.AllDigits(Base64.Url, s)
    ensures |ToBytes(s)| == |s| && forall i :: 0 <= i < |s| ==> ToBytes(s)[i] == s[i] as int
  {
    hide Base64.DigitValue;
    forall i | 0 <= i < |s|
      ensures ToBytes(s)[i] == s[i] as int
    {
      DigitIsByte(s[i]);
    }
  }

  /** What is wrapped: the text of a box around the data key, as bytes. */
  lemma WrappedIs(g: Gcm, kek: Bytes, nonce: Bytes, dek: Bytes)
    ensures var text, b := Base64.Encode(Base64.Url, [1] + nonce + g.seal(kek, nonce, [], dek)), Wrapped(g, kek, nonce, dek);
            |b| == |text| && forall i :: 0 <= i < |b| ==> b[i] == text[i] as int
  {
    hide Base64.Encode, Base64.AllDigits, ToBytes;
    var raw := AeadV1.Frame(g, kek, nonce, [], dek);
    Base64.RoundTrip(Base64.Url, raw);
    BytesOfDigits(Base64.Encode(Base64.Url, raw));
  }

  /** Unwrapping: the id must be known, and the bytes must be the text of a box that opens under its key. */
  lemma UnwrapsExactly(g: Gcm, keks: map<string, Bytes>, id: string, wrapped: Bytes, text: string)
    requires |text| == |wrapped| && forall i :: 0 <= i < |text| ==> text[i] as int == wrapped[i]
    ensures var r := StaticUnwrap(g, keks, id, wrapped);
            && (r == Err(UnknownKeyId) <==> id !in keks)
            && (id in keks ==> r == AeadV1.Open(g, keks[id], text, []))
  {
    hide Base64.Decode;
    assert ToText(wrapped) == text;
  }

  /** From `AddKey` on: a data key wrapped under the added key, with its id, opens what it sealed. */
  lemma AddedKeyOpens(g: Gcm, keks: map<string, Bytes>, id: string, kek: Bytes, ops: seq<(string, Bytes)>,
                      dek: Bytes, wrapNonce: Bytes, nonce: Bytes, aad: Bytes, p: Bytes)
    requires g.Lawful() && |kek| == 32 && |dek| == 32 && |wrapNonce| == |nonce| == 12
    requires forall i :: 0 <= i < |ops| && ops[i].0 == id ==> |ops[i].1| != 32 || ops[i].1 == kek
    ensures Open(g, UnwrapWith(g, AddedAll(keks, [(id, kek)] + ops)), id,
                 Sealed(g, dek, Wrapped(g, kek, wrapNonce, dek), nonce, aad, p), aad)
         == Returns(Ok(p))
  {
    hide Open, Sealed, Wrapped;
    assert ([(id, kek)] + ops)[1..] == ops;
    EnvelopeStaysOpenable(g, Added(keks, id, kek), ops, id, dek, wrapNonce, nonce, aad, p);
  }
}
