/** The library primitives the package calls, as records of functions.

    A record has no properties of its own. The laws a result relies on are a `Lawful` predicate, which
    that result names in its `requires`; `TOY_GCM` shows that the laws can be met. */
module Primitives {
  import opened Octets

  const KEY_SIZE := 32
  const TAG_SIZE := 16

  /** AES-256-GCM: `seal(key, nonce, aad, plaintext)` and `open(key, nonce, aad, ciphertext)`. */
  datatype Gcm = Gcm(
    seal: (Bytes, Bytes, Bytes, Bytes) -> Bytes,
    open: (Bytes, Bytes, Bytes, Bytes) -> Option<Bytes>)
  {
    ghost predicate Lawful() {
      && (forall k, n, a, p :: |seal(k, n, a, p)| == |p| + TAG_SIZE)
      && (forall k, n, a, p :: open(k, n, a, seal(k, n, a, p)) == Some(p))
    }
  }

  /** One call of the cipher's `seal`. */
  datatype Sealing = Sealing(key: Bytes, nonce: Bytes, aad: Bytes, plaintext: Bytes)

  /** The cipher sealed `ct` under this key, nonce and aad. */
  ghost predicate Logged(g: Gcm, log: seq<Sealing>, key: Bytes, nonce: Bytes, aad: Bytes, ct: Bytes) {
    exists i :: 0 <= i < |log| && log[i].key == key && log[i].nonce == nonce && log[i].aad == aad
                && g.seal(key, nonce, aad, log[i].plaintext) == ct
  }

  /** If the cipher accepts `ct` under this key, nonce and aad, it sealed it. */
  ghost predicate Unforged(g: Gcm, log: seq<Sealing>, key: Bytes, nonce: Bytes, aad: Bytes, ct: Bytes) {
    g.open(key, nonce, aad, ct).Some? ==> Logged(g, log, key, nonce, aad, ct)
  }

  /** A lawful stand-in: the tag spells out the nonce, the last byte of the aad and the first of the key. */
  function ToyTag(k: Bytes, n: Bytes, a: Bytes): (t: Bytes)
    ensures |t| == TAG_SIZE
  {
    seq(TAG_SIZE, i requires 0 <= i < TAG_SIZE =>
      if i < 12 then (if i < |n| then n[i] else 0)
      else if i == 12 then (if a == [] then 0 else a[|a| - 1])
      else if i == 13 then (if k == [] then 0 else k[0])
      else 0)
  }

  function ToySeal(k: Bytes, n: Bytes, a: Bytes, p: Bytes): Bytes {
    p + ToyTag(k, n, a)
  }

  function ToyOpen(k: Bytes, n: Bytes, a: Bytes, c: Bytes): Option<Bytes> {
    if |c| >= TAG_SIZE && c[|c| - TAG_SIZE..] == ToyTag(k, n, a) then Some(c[..|c| - TAG_SIZE]) else None
  }

  const TOY_GCM := Gcm(ToySeal, ToyOpen)

  lemma ToyGcmIsLawful()
    ensures TOY_GCM.Lawful()
  {
    forall k: Bytes, n: Bytes, a: Bytes, p: Bytes
      ensures TOY_GCM.open(k, n, a, TOY_GCM.seal(k, n, a, p)) == Some(p)
    {
      var c := p + ToyTag(k, n, a);
      assert c[|c| - TAG_SIZE..] == ToyTag(k, n, a) && c[..|c| - TAG_SIZE] == p;
    }
  }

  const MAC_SIZE := 32

  /** HMAC-SHA256: `sign(key, data)`. */
  datatype Hmac = Hmac(sign: (Bytes, Bytes) -> Bytes)
  {
    ghost predicate Lawful() {
      forall k, d :: |sign(k, d)| == MAC_SIZE
    }
  }

  const BLOCK_SIZE := 16

  /** AES on one block: `enc(key, block)` and its inverse. */
  datatype BlockCipher = BlockCipher(
    enc: (Bytes, Bytes) -> Bytes,
    dec: (Bytes, Bytes) -> Bytes)
  {
    ghost predicate Lawful() {
      && (forall k, b :: |b| == BLOCK_SIZE ==> |enc(k, b)| == BLOCK_SIZE && dec(k, enc(k, b)) == b)
      && (forall k, b :: |b| == BLOCK_SIZE ==> |dec(k, b)| == BLOCK_SIZE && enc(k, dec(k, b)) == b)
    }
  }

  /** A lawful stand-in that reverses the block. */
  function Reversed(k: Bytes, b: Bytes): (r: Bytes)
    ensures |r| == |b|
  {
    seq(|b|, i requires 0 <= i < |b| => b[|b| - 1 - i])
  }

  lemma ReversingIsLawful()
    ensures BlockCipher(Reversed, Reversed).Lawful()
  {
    forall k: Bytes, b: Bytes
      ensures Reversed(k, Reversed(k, b)) == b
    {
    }
  }
}
