/** cbc.go: PKCS#7 padding (RFC 5652, section 6.3) and CBC mode (NIST SP 800-38A, section 6.2) as hex text. */
module Cbc {
  import opened Octets
  import opened Errors
  import opened Primitives
  import Division
  import Hex

  // ---------- padding ----------

  function PadLen(n: nat, size: nat): nat
    requires 0 < size
  {
    size - n % size
  }

  /** `byte(padLen)` keeps the low eight bits. */
  function Pad(p: Bytes, size: nat): Bytes
    requires 0 < size
  {
    p + seq(PadLen(|p|, size), _ => (PadLen(|p|, size) % 256) as byte)
  }

  method PadBuffer(buf: array<byte>, size: nat) returns (out: array<byte>)
    requires 0 < size
    ensures fresh(out) && out[..] == Pad(buf[..], size)
  {
    var bufLen := buf.Length;
    var padLen := size - bufLen % size;
    out := new byte[bufLen + padLen](_ => 0);
    forall i | 0 <= i < bufLen {
      out[i] := buf[i];
    }
    for i := 0 to padLen
      invariant out[..bufLen] == buf[..]
      invariant forall j :: bufLen <= j < bufLen + i ==> out[j] == padLen % 256
    {
      out[bufLen + i] := padLen % 256;
    }
  }

  function Unpad(b: Bytes, size: nat): Result<Bytes>
    requires 0 < size
  {
    if |b| == 0 || |b| % size != 0 then Err(InvalidPadding)
    else
      var pad := b[|b| - 1];
      if pad == 0 || pad > size || pad > |b| then Err(InvalidPadding)
      else if forall i :: |b| - pad <= i < |b| ==> b[i] == pad then Ok(b[..|b| - pad])
      else Err(InvalidPadding)
  }

  method UnpadBuffer(buf: array<byte>, size: nat) returns (r: Result<Bytes>)
    requires 0 < size
    ensures r == Unpad(buf[..], size)
  {
    if buf.Length == 0 || buf.Length % size != 0 {
      return Err(InvalidPadding);
    }
    var pad := buf[buf.Length - 1];
    if pad == 0 || pad > size || pad > buf.Length {
      return Err(InvalidPadding);
    }
    for i := buf.Length - pad to buf.Length
      invariant forall j :: buf.Length - pad <= j < i ==> buf[j] == pad
    {
      if buf[i] != pad {
        assert buf[..][i] != pad;
        return Err(InvalidPadding);
      }
    }
    return Ok(buf[..buf.Length - pad]);
  }

  lemma PadFillsBlocks(p: Bytes, size: nat)
    requires 0 < size
    ensures |Pad(p, size)| % size == 0 && |p| < |Pad(p, size)| <= |p| + size
  {
    var q := |p| / size;
    assert |p| == q * size + |p| % size;
    assert |Pad(p, size)| == (q + 1) * size + 0;
    Division.DivUnique(|Pad(p, size)|, size, q + 1, 0);
  }

  lemma PadLenRange(n: nat, size: nat)
    requires 0 < size
    ensures 0 < PadLen(n, size) <= size
  {
  }

  lemma UnpadPadded(p: Bytes, size: nat)
    requires 0 < size && PadLen(|p|, size) <= 255
    ensures Unpad(Pad(p, size), size) == Ok(p)
  {
    PadFillsBlocks(p, size);
    PadLenRange(|p|, size);
    hide PadLen;
    var b := Pad(p, size);
    assert b[|b| - 1] == PadLen(|p|, size);
    assert b[..|b| - PadLen(|p|, size)] == p;
  }

  lemma RemainderOfPadded(n: nat, pad: nat, size: nat)
    requires 0 < pad <= size && pad <= n && n % size == 0
    ensures PadLen(n - pad, size) == pad
  {
    var q := n / size;
    assert n == q * size;
    if pad < size {
      assert n - pad == (q - 1) * size + (size - pad);
      Division.DivUnique(n - pad, size, q - 1, size - pad);
    } else {
      assert n - pad == (q - 1) * size + 0;
      Division.DivUnique(n - pad, size, q - 1, 0);
    }
  }

  lemma PadUnpadded(b: Bytes, p: Bytes, size: nat)
    requires 0 < size && Unpad(b, size) == Ok(p)
    ensures b == Pad(p, size)
  {
    var pad: nat := b[|b| - 1];
    RemainderOfPadded(|b|, pad, size);
    hide PadLen;
    assert b[|p|..] == seq(pad, _ => (pad % 256) as byte);
    assert b == p + b[|p|..];
  }

  /** For block sizes a padding byte can count, `Unpad` accepts just what `Pad` makes, and undoes it. */
  lemma UnpadExact(b: Bytes, p: Bytes, size: nat)
    requires 0 < size <= 255
    ensures Unpad(b, size) == Ok(p) <==> b == Pad(p, size)
  {
    hide Pad, Unpad, PadLen;
    PadLenRange(|p|, size);
    UnpadPadded(p, size);
    if Unpad(b, size) == Ok(p) {
      PadUnpadded(b, p, size);
    }
  }

  /** With larger blocks the padding byte wraps, and then what was padded does not come back. */
  lemma PadRoundTripLimit(p: Bytes, size: nat)
    requires 0 < size
    ensures Unpad(Pad(p, size), size) == Ok(p) <==> PadLen(|p|, size) <= 255
  {
    hide PadLen;
    PadLenRange(|p|, size);
    if PadLen(|p|, size) <= 255 {
      UnpadPadded(p, size);
    }
  }

  // ---------- cipher block chaining ----------

  /** The lowest `n` bits of `a ^ b`, bit by bit. */
  function XorBits(n: nat, a: nat, b: nat): (x: nat)
    ensures x < Pow2(n)
  {
    if n == 0 then 0 else 2 * XorBits(n - 1, a / 2, b / 2) + (if a % 2 == b % 2 then 0 else 1)
  }

  function Pow2(n: nat): nat {
    if n == 0 then 1 else 2 * Pow2(n - 1)
  }

  function Xor(a: byte, b: byte): byte {
    assert Pow2(8) == 256;
    XorBits(8, a, b)
  }

  lemma {:induction false} XorBitsInverse(n: nat, a: nat, b: nat)
    requires a < Pow2(n)
    ensures XorBits(n, XorBits(n, a, b), b) == a
  {
    if n > 0 {
      var x := XorBits(n, a, b);
      assert x / 2 == XorBits(n - 1, a / 2, b / 2);
      assert x % 2 == if a % 2 == b % 2 then 0 else 1;
      XorBitsInverse(n - 1, a / 2, b / 2);
    }
  }

  lemma XorInverse(a: byte, b: byte)
    ensures Xor(Xor(a, b), b) == a
  {
    assert Pow2(8) == 256;
    XorBitsInverse(8, a, b);
  }

  /** Bit `i` of a number, the lowest being bit 0. */
  predicate Bit(x: nat, i: nat) {
    if i == 0 then x % 2 == 1 else Bit(x / 2, i - 1)
  }

  lemma {:induction false} XorBitsAt(n: nat, a: nat, b: nat, i: nat)
    requires i < n
    ensures Bit(XorBits(n, a, b), i) <==> Bit(a, i) != Bit(b, i)
  {
    var x, rest := XorBits(n, a, b), XorBits(n - 1, a / 2, b / 2);
    assert x / 2 == rest && x % 2 == if a % 2 == b % 2 then 0 else 1;
    if i > 0 {
      XorBitsAt(n - 1, a / 2, b / 2, i - 1);
    }
  }

  /** A bit of the result is set exactly where the operands differ. */
  lemma XorIsBitwise(a: byte, b: byte)
    ensures forall i :: 0 <= i < 8 ==> (Bit(Xor(a, b), i) <==> Bit(a, i) != Bit(b, i))
  {
    hide XorBits;
    forall i | 0 <= i < 8
      ensures Bit(Xor(a, b), i) <==> Bit(a, i) != Bit(b, i)
    {
      XorBitsAt(8, a, b, i);
    }
  }

  lemma {:induction false} BitsBelow(n: nat, a: nat, b: nat)
    requires a < Pow2(n) && b < Pow2(n) && forall i :: 0 <= i < n ==> (Bit(a, i) <==> Bit(b, i))
    ensures a == b
  {
    if n > 0 {
      assert Bit(a, 0) <==> Bit(b, 0);
      forall i | 0 <= i < n - 1
        ensures Bit(a / 2, i) <==> Bit(b / 2, i)
      {
        assert Bit(a, i + 1) <==> Bit(b, i + 1);
      }
      BitsBelow(n - 1, a / 2, b / 2);
    }
  }

  /** Nothing but the bits makes up a byte. */
  lemma BitsDetermine(a: byte, b: byte)
    requires forall i :: 0 <= i < 8 ==> (Bit(a, i) <==> Bit(b, i))
    ensures a == b
  {
    hide Bit;
    assert Pow2(8) == 256;
    BitsBelow(8, a, b);
  }

  /** Byte `i` of a block; blocks are always full, so the default is never used. */
  function At(b: Bytes, i: nat): byte {
    if i < |b| then b[i] else 0
  }

  function XorBlock(a: Bytes, b: Bytes): (x: Bytes)
    ensures |x| == BLOCK_SIZE
  {
    seq(BLOCK_SIZE, i requires 0 <= i < BLOCK_SIZE => Xor(At(a, i), At(b, i)))
  }

  lemma XorBlockInverse(a: Bytes, b: Bytes)
    requires |a| == BLOCK_SIZE
    ensures XorBlock(XorBlock(a, b), b) == a
  {
    forall i | 0 <= i < BLOCK_SIZE
      ensures XorBlock(XorBlock(a, b), b)[i] == a[i]
    {
      XorInverse(a[i], At(b, i));
    }
  }

  /** Each plaintext block is combined with the ciphertext block before it, the first with the IV. */
  function EncBlocks(c: BlockCipher, key: Bytes, prev: Bytes, data: Bytes): Bytes
    requires |data| % BLOCK_SIZE == 0
    decreases |data|
  {
    if data == [] then []
    else
      var x := c.enc(key, XorBlock(data[..BLOCK_SIZE], prev));
      x + EncBlocks(c, key, x, data[BLOCK_SIZE..])
  }

  function DecBlocks(c: BlockCipher, key: Bytes, prev: Bytes, data: Bytes): (p: Bytes)
    requires |data| % BLOCK_SIZE == 0
    ensures |p| == |data|
    decreases |data|
  {
    if data == [] then []
    else
      var x := data[..BLOCK_SIZE];
      XorBlock(c.dec(key, x), prev) + DecBlocks(c, key, x, data[BLOCK_SIZE..])
  }

  lemma {:induction false} DecEnc(c: BlockCipher, key: Bytes, prev: Bytes, data: Bytes)
    requires c.Lawful() && |data| % BLOCK_SIZE == 0
    ensures |EncBlocks(c, key, prev, data)| == |data|
    ensures DecBlocks(c, key, prev, EncBlocks(c, key, prev, data)) == data
    decreases |data|
  {
    hide XorBlock;
    if data != [] {
      var p, rest := data[..BLOCK_SIZE], data[BLOCK_SIZE..];
      var x := c.enc(key, XorBlock(p, prev));
      DecEnc(c, key, x, rest);
      XorBlockInverse(p, prev);
      var e := EncBlocks(c, key, prev, data);
      assert e == x + EncBlocks(c, key, x, rest);
      assert e[..BLOCK_SIZE] == x && e[BLOCK_SIZE..] == EncBlocks(c, key, x, rest);
      assert data == p + rest;
    }
  }

  lemma {:induction false} EncDec(c: BlockCipher, key: Bytes, prev: Bytes, data: Bytes)
    requires c.Lawful() && |data| % BLOCK_SIZE == 0
    ensures EncBlocks(c, key, prev, DecBlocks(c, key, prev, data)) == data
    decreases |data|
  {
    hide XorBlock;
    if data != [] {
      var x, rest := data[..BLOCK_SIZE], data[BLOCK_SIZE..];
      var p := XorBlock(c.dec(key, x), prev);
      EncDec(c, key, x, rest);
      XorBlockInverse(c.dec(key, x), prev);
      var d := DecBlocks(c, key, prev, data);
      assert d == p + DecBlocks(c, key, x, rest);
      assert d[..BLOCK_SIZE] == p && d[BLOCK_SIZE..] == DecBlocks(c, key, x, rest);
      assert data == x + rest;
    }
  }

  lemma EncStep(c: BlockCipher, key: Bytes, prev: Bytes, data: Bytes, at: nat)
    requires |data| % BLOCK_SIZE == 0 && at % BLOCK_SIZE == 0 && at + BLOCK_SIZE <= |data|
    ensures var x := c.enc(key, XorBlock(data[at..at + BLOCK_SIZE], prev));
            EncBlocks(c, key, prev, data[at..]) == x + EncBlocks(c, key, x, data[at + BLOCK_SIZE..])
  {
    assert data[at..][..BLOCK_SIZE] == data[at..at + BLOCK_SIZE];
    DropDrop(data, at, BLOCK_SIZE);
  }

  lemma EncNothing(c: BlockCipher, key: Bytes, prev: Bytes)
    ensures EncBlocks(c, key, prev, []) == []
  {
  }

  /** The ciphertext block before position `at`. */
  function BlockBefore(iv: Bytes, ct: Bytes, at: nat): Bytes
    requires at <= |ct| && (at == 0 || BLOCK_SIZE <= at)
  {
    if at == 0 then iv else ct[at - BLOCK_SIZE..at]
  }

  lemma DecStep(c: BlockCipher, key: Bytes, iv: Bytes, data: Bytes, at: nat)
    requires |data| % BLOCK_SIZE == 0 && at % BLOCK_SIZE == 0 && at + BLOCK_SIZE <= |data|
    ensures DecBlocks(c, key, BlockBefore(iv, data, at), data[at..])
         == XorBlock(c.dec(key, data[at..at + BLOCK_SIZE]), BlockBefore(iv, data, at))
            + DecBlocks(c, key, BlockBefore(iv, data, at + BLOCK_SIZE), data[at + BLOCK_SIZE..])
  {
    assert data[at..][..BLOCK_SIZE] == data[at..at + BLOCK_SIZE];
    DropDrop(data, at, BLOCK_SIZE);
  }

  lemma DecNothing(c: BlockCipher, key: Bytes, prev: Bytes)
    ensures DecBlocks(c, key, prev, []) == []
  {
  }

  lemma DecAll(iv: Bytes, data: Bytes)
    ensures BlockBefore(iv, data, 0) == iv && data[0..] == data
  {
  }

  /** Two texts that agree up to the end of a block. */
  lemma SameFront(iv: Bytes, s: Bytes, t: Bytes, at: nat)
    requires at % BLOCK_SIZE == 0 && at + BLOCK_SIZE <= |s| && at + BLOCK_SIZE <= |t|
    requires s[..at + BLOCK_SIZE] == t[..at + BLOCK_SIZE]
    ensures s[..at] == t[..at] && s[at..at + BLOCK_SIZE] == t[at..at + BLOCK_SIZE]
    ensures BlockBefore(iv, s, at) == BlockBefore(iv, t, at)
  {
    var end := at + BLOCK_SIZE;
    assert s[..at] == s[..end][..at] && s[at..end] == s[..end][at..];
    assert t[..at] == t[..end][..at] && t[at..end] == t[..end][at..];
    assert at > 0 ==> s[at - BLOCK_SIZE..at] == s[..at][at - BLOCK_SIZE..];
    assert at > 0 ==> t[at - BLOCK_SIZE..at] == t[..at][at - BLOCK_SIZE..];
  }

  method StoreBlock(a: array<byte>, at: nat, x: Bytes)
    requires |x| == BLOCK_SIZE && at + BLOCK_SIZE <= a.Length
    modifies a
    ensures a[..at] == old(a[..at]) && a[..at + BLOCK_SIZE] == old(a[..at]) + x
    ensures a[at..] == x + old(a[at + BLOCK_SIZE..])
  {
    forall i | 0 <= i < BLOCK_SIZE {
      a[at + i] := x[i];
    }
  }

  /** `CryptBlocks` of the encrypter: from `plain` into the part of `out` behind the IV. */
  method CryptBlocks(c: BlockCipher, key: Bytes, iv: Bytes, out: array<byte>, plain: array<byte>)
    requires out != plain && out.Length == BLOCK_SIZE + plain.Length && plain.Length % BLOCK_SIZE == 0
    requires forall b :: |b| == BLOCK_SIZE ==> |c.enc(key, b)| == BLOCK_SIZE
    modifies out
    ensures out[..] == old(out[..BLOCK_SIZE]) + EncBlocks(c, key, iv, old(plain[..]))
  {
    hide EncBlocks, XorBlock;
    var at: nat, prev := 0, iv;
    ghost var src, head, done: Bytes := plain[..], out[..BLOCK_SIZE], [];
    assert src[0..] == src;
    while at < plain.Length
      invariant at <= plain.Length && at % BLOCK_SIZE == 0 && plain[..] == src
      invariant |done| == at && out[..BLOCK_SIZE + at] == head + done
      invariant EncBlocks(c, key, iv, src) == done + EncBlocks(c, key, prev, src[at..])
    {
      var block := plain[..][at..at + BLOCK_SIZE];
      var x := c.enc(key, XorBlock(block, prev));
      EncStep(c, key, prev, src, at);
      Assoc(done, x, EncBlocks(c, key, x, src[at + BLOCK_SIZE..]));
      StoreBlock(out, BLOCK_SIZE + at, x);
      Assoc(head, done, x);
      at, prev, done := at + BLOCK_SIZE, x, done + x;
    }
    EncNothing(c, key, prev);
    assert src[at..] == [] && done + [] == done;
    assert out[..] == out[..BLOCK_SIZE + at];
  }

  /** `CryptBlocks` of the decrypter, in place: from the back, so that each block still finds the
      ciphertext block before it. */
  method DecryptInPlace(c: BlockCipher, key: Bytes, iv: Bytes, body: array<byte>)
    requires body.Length % BLOCK_SIZE == 0
    modifies body
    ensures body[..] == DecBlocks(c, key, iv, old(body[..]))
  {
    hide DecBlocks, XorBlock, BlockBefore;
    ghost var was := body[..];
    assert was[body.Length..] == [] == DecBlocks(c, key, BlockBefore(iv, was, body.Length), []) by {
      DecNothing(c, key, BlockBefore(iv, was, body.Length));
    }
    var at: nat := body.Length;
    while at > 0
      invariant at <= body.Length && at % BLOCK_SIZE == 0
      invariant body[..at] == was[..at]
      invariant body[at..] == DecBlocks(c, key, BlockBefore(iv, was, at), was[at..])
    {
      at := at - BLOCK_SIZE;
      SameFront(iv, body[..], was, at);
      DecStep(c, key, iv, was, at);
      StoreBlock(body, at, XorBlock(c.dec(key, body[at..at + BLOCK_SIZE]), BlockBefore(iv, body[..], at)));
    }
    DecAll(iv, was);
    assert body[0..] == body[..];
  }

  // ---------- the two entry points ----------

  predicate ValidKeyLen(n: nat) {
    n == 16 || n == 24 || n == 32
  }

  /** The text `EncryptCBC` returns once key and IV are settled. */
  function CbcText(c: BlockCipher, key: Bytes, iv: Bytes, plaintext: Bytes): string {
    PadFillsBlocks(plaintext, BLOCK_SIZE);
    Hex.Encode(iv + EncBlocks(c, key, iv, Pad(plaintext, BLOCK_SIZE)))
  }

  lemma OneBlockMore(n: nat)
    requires n % BLOCK_SIZE == 0
    ensures (BLOCK_SIZE + n) % BLOCK_SIZE == 0 && (n > 0 ==> BLOCK_SIZE < BLOCK_SIZE + n)
  {
  }

  /** It is the hex form of the IV and at least one block. */
  lemma TextIsHex(c: BlockCipher, key: Bytes, iv: Bytes, plaintext: Bytes) returns (raw: Bytes)
    requires c.Lawful() && |iv| == BLOCK_SIZE
    ensures CbcText(c, key, iv, plaintext) == Hex.Encode(raw) && |raw| % BLOCK_SIZE == 0 && BLOCK_SIZE < |raw|
  {
    hide EncBlocks, DecBlocks, Pad;
    var padded := Pad(plaintext, BLOCK_SIZE);
    PadFillsBlocks(plaintext, BLOCK_SIZE);
    DecEnc(c, key, iv, padded);
    raw := iv + EncBlocks(c, key, iv, padded);
    OneBlockMore(|padded|);
  }

  method EncryptCBC(c: BlockCipher, key: Bytes, plaintext: array<byte>, entropy: Option<Bytes>)
    returns (r: Result<string>)
    requires entropy.Some? ==> |entropy.value| == BLOCK_SIZE
    requires forall b :: |b| == BLOCK_SIZE ==> |c.enc(key, b)| == BLOCK_SIZE
    ensures r == Err(InvalidKey) <==> |key| !in {16, 24, 32}
    ensures r == Err(EntropyFault) <==> |key| in {16, 24, 32} && entropy.None?
    ensures r == if !ValidKeyLen(|key|) then Err(InvalidKey)
                 else if entropy.None? then Err(EntropyFault)
                 else Ok(CbcText(c, key, entropy.value, plaintext[..]))
  {
    if !ValidKeyLen(|key|) {
      return Err(InvalidKey);
    }
    var plain := PadBuffer(plaintext, BLOCK_SIZE);
    if entropy.None? {
      return Err(EntropyFault);
    }
    ghost var padded := Pad(plaintext[..], BLOCK_SIZE);
    PadFillsBlocks(plaintext[..], BLOCK_SIZE);
    assert plain[..] == padded && plain.Length == |padded|;
    var out := new byte[BLOCK_SIZE + plain.Length](_ => 0);
    forall i | 0 <= i < BLOCK_SIZE {
      out[i] := entropy.value[i];
    }
    assert out[..BLOCK_SIZE] == entropy.value;
    assert plain[..] == padded;
    CryptBlocks(c, key, out[..BLOCK_SIZE], out, plain);
    assert out[..] == entropy.value + EncBlocks(c, key, entropy.value, padded);
    assert plaintext[..] == old(plaintext[..]);
    return Ok(Hex.Encode(out[..]));
  }

  function Decrypted(c: BlockCipher, key: Bytes, ciphertext: string): Result<Bytes> {
    if !ValidKeyLen(|key|) then Err(InvalidKey)
    else
      match Hex.Decode(ciphertext)
      case None => Err(InvalidCiphertext)
      case Some(raw) =>
        if |raw| < BLOCK_SIZE then Err(CiphertextTooShort)
        else if (|raw| - BLOCK_SIZE) % BLOCK_SIZE != 0 then Err(NotBlockAligned)
        else Unpad(DecBlocks(c, key, raw[..BLOCK_SIZE], raw[BLOCK_SIZE..]), BLOCK_SIZE)
  }

  method DecryptCBC(c: BlockCipher, key: Bytes, ciphertext: string) returns (r: Result<Bytes>)
    ensures r == Decrypted(c, key, ciphertext)
  {
    if !ValidKeyLen(|key|) {
      return Err(InvalidKey);
    }
    var decoded := Hex.Decode(ciphertext);
    if decoded.None? {
      return Err(InvalidCiphertext);
    }
    var raw := decoded.value;
    if |raw| < BLOCK_SIZE {
      return Err(CiphertextTooShort);
    }
    var iv := raw[..BLOCK_SIZE];
    if (|raw| - BLOCK_SIZE) % BLOCK_SIZE != 0 {
      return Err(NotBlockAligned);
    }
    var body := new byte[|raw| - BLOCK_SIZE](_ => 0);
    forall i | 0 <= i < body.Length {
      body[i] := raw[BLOCK_SIZE + i];
    }
    assert body[..] == raw[BLOCK_SIZE..];
    DecryptInPlace(c, key, iv, body);
    r := UnpadBuffer(body, BLOCK_SIZE);
  }

  /** The plaintext as it is enciphered: up to the next full block, each byte of padding counting them. */
  function PaddedText(p: Bytes): Bytes {
    seq(16 * (|p| / 16 + 1), i requires 0 <= i < 16 * (|p| / 16 + 1) => if i < |p| then p[i] else 16 - |p| % 16)
  }

  lemma PadIs(p: Bytes)
    ensures Pad(p, BLOCK_SIZE) == PaddedText(p)
  {
  }

  /** The bits of `x` are set exactly where those of `a` and `b` differ. */
  ghost predicate Differences(x: Bytes, a: Bytes, b: Bytes) {
    && |x| == |a| == |b|
    && forall k, i :: 0 <= k < |x| && 0 <= i < 8 ==> (Bit(x[k], i) <==> Bit(a[k], i) != Bit(b[k], i))
  }

  lemma XorBlockIs(a: Bytes, b: Bytes)
    requires |a| == |b| == BLOCK_SIZE
    ensures Differences(XorBlock(a, b), a, b)
  {
    hide Xor, Bit;
    forall k | 0 <= k < BLOCK_SIZE
      ensures forall i :: 0 <= i < 8 ==> (Bit(XorBlock(a, b)[k], i) <==> Bit(a[k], i) != Bit(b[k], i))
    {
      XorIsBitwise(a[k], b[k]);
    }
  }

  /** Any block of the body, with the one before it. */
  lemma {:induction false} EncBlockAt(c: BlockCipher, key: Bytes, prev: Bytes, data: Bytes, j: nat)
    requires c.Lawful() && |prev| == 16 && |data| % 16 == 0 && 16 * j + 16 <= |data|
    ensures var raw := prev + EncBlocks(c, key, prev, data);
            && |raw| == 16 + |data|
            && raw[16 * j + 16..16 * j + 32] == c.enc(key, XorBlock(data[16 * j..16 * j + 16], raw[16 * j..16 * j + 16]))
    decreases j
  {
    hide XorBlock;
    var x, rest := c.enc(key, XorBlock(data[..16], prev)), data[16..];
    DecEnc(c, key, prev, data);
    var raw := prev + EncBlocks(c, key, prev, data);
    assert EncBlocks(c, key, prev, data) == x + EncBlocks(c, key, x, rest);
    assert raw[..16] == prev && raw[16..] == x + EncBlocks(c, key, x, rest) && raw[16..32] == x;
    if j == 0 {
      assert data[0..16] == data[..16] && raw[0..16] == prev;
    } else {
      EncBlockAt(c, key, x, rest, j - 1);
      assert rest[16 * j - 16..16 * j] == data[16 * j..16 * j + 16];
      assert raw[16..][16 * j - 16..16 * j] == raw[16 * j..16 * j + 16];
      assert raw[16..][16 * j..16 * j + 16] == raw[16 * j + 16..16 * j + 32];
    }
  }

  /** The text of a plaintext, block by block: behind the IV, block `j` is the cipher's image of the bits in
      which padded plaintext block `j` differs from the block before. */
  lemma TextLayout(c: BlockCipher, key: Bytes, iv: Bytes, p: Bytes, j: nat) returns (raw: Bytes, mixed: Bytes)
    requires c.Lawful() && |iv| == 16 && j <= |p| / 16
    ensures CbcText(c, key, iv, p) == Hex.Encode(raw)
    ensures |raw| == 16 * (|p| / 16 + 2) && raw[..16] == iv
    ensures Differences(mixed, PaddedText(p)[16 * j..16 * j + 16], raw[16 * j..16 * j + 16])
    ensures raw[16 * j + 16..16 * j + 32] == c.enc(key, mixed)
  {
    hide EncBlocks, Pad, PaddedText, XorBlock, Differences;
    PadIs(p);
    PaddedSize(p);
    raw := iv + EncBlocks(c, key, iv, PaddedText(p));
    EncBlockAt(c, key, iv, PaddedText(p), j);
    mixed := XorBlock(PaddedText(p)[16 * j..16 * j + 16], raw[16 * j..16 * j + 16]);
    XorBlockIs(PaddedText(p)[16 * j..16 * j + 16], raw[16 * j..16 * j + 16]);
  }

  lemma PaddedSize(p: Bytes)
    ensures |PaddedText(p)| == 16 * (|p| / 16 + 1) && |PaddedText(p)| % 16 == 0
  {
  }

  /** Which strings are refused, with which error. Whatever is left decrypts. */
  lemma RefusedText(c: BlockCipher, key: Bytes, s: string)
    requires c.Lawful()
    ensures var r := Decrypted(c, key, s);
            if |key| !in {16, 24, 32} then r == Err(InvalidKey)
            else match Hex.Decode(s)
                 case None => r == Err(InvalidCiphertext)
                 case Some(raw) =>
                   if |raw| < 16 then r == Err(CiphertextTooShort)
                   else if |raw| % 16 != 0 then r == Err(NotBlockAligned)
                   else r == Err(InvalidPadding)
                        || exists p :: r == Ok(p) && Hex.Lower(s) == CbcText(c, key, raw[..16], p)
  {
    hide Hex.Decode, Hex.Encode, Hex.Lower, EncBlocks, DecBlocks, Unpad, Pad;
    var r := Decrypted(c, key, s);
    if r.Ok? {
      var raw := Hex.Decode(s).value;
      var iv, body := raw[..BLOCK_SIZE], raw[BLOCK_SIZE..];
      UnpadExact(DecBlocks(c, key, iv, body), r.value, BLOCK_SIZE);
      EncDec(c, key, iv, body);
      assert raw == iv + body;
      Hex.DecodesTo(s, raw);
    } else {
      UnpadRefuses();
    }
  }

  lemma UnpadRefuses()
    ensures forall b, e :: Unpad(b, BLOCK_SIZE) == Err(e) ==> e == InvalidPadding
  {
  }

  /** CBC is a bijection: a string decrypts to `p` exactly when, but for the case of its letters, it is what
      encrypting `p` under the string's own IV gives. */
  lemma DecryptsExactly(c: BlockCipher, key: Bytes, s: string, p: Bytes)
    requires c.Lawful() && ValidKeyLen(|key|)
    ensures Decrypted(c, key, s) == Ok(p)
       <==> exists iv: Bytes :: |iv| == BLOCK_SIZE && Hex.Lower(s) == CbcText(c, key, iv, p)
  {
    hide Hex.Decode, Hex.Lower, Hex.Encode, EncBlocks, DecBlocks, Unpad, Pad;
    PadFillsBlocks(p, BLOCK_SIZE);
    if Decrypted(c, key, s) == Ok(p) {
      var raw := Hex.Decode(s).value;
      var iv, body := raw[..BLOCK_SIZE], raw[BLOCK_SIZE..];
      UnpadExact(DecBlocks(c, key, iv, body), p, BLOCK_SIZE);
      EncDec(c, key, iv, body);
      assert raw == iv + body;
      Hex.DecodesTo(s, raw);
      assert Hex.Lower(s) == CbcText(c, key, iv, p);
    }
    if iv: Bytes :| |iv| == BLOCK_SIZE && Hex.Lower(s) == CbcText(c, key, iv, p) {
      var body := EncBlocks(c, key, iv, Pad(p, BLOCK_SIZE));
      Hex.DecodesTo(s, iv + body);
      DecEnc(c, key, iv, Pad(p, BLOCK_SIZE));
      assert (iv + body)[..BLOCK_SIZE] == iv && (iv + body)[BLOCK_SIZE..] == body;
      UnpadExact(Pad(p, BLOCK_SIZE), p, BLOCK_SIZE);
    }
  }

  /** `DecryptCBC` inverts `EncryptCBC`, for every plaintext, IV and key size. */
  lemma RoundTrip(c: BlockCipher, key: Bytes, iv: Bytes, p: Bytes)
    requires c.Lawful() && ValidKeyLen(|key|) && |iv| == BLOCK_SIZE
    ensures Decrypted(c, key, CbcText(c, key, iv, p)) == Ok(p)
  {
    var s := CbcText(c, key, iv, p);
    PadFillsBlocks(p, BLOCK_SIZE);
    Hex.EncodeShape(iv + EncBlocks(c, key, iv, Pad(p, BLOCK_SIZE)));
    assert Hex.Lower(s) == s;
    DecryptsExactly(c, key, s, p);
  }
}
