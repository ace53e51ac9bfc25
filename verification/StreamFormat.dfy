/** The stream wire format of stream.go: header, nonces, chunk frames, and what a run of the sealer emits. */
module StreamFormat {
  import opened Octets
  import opened Primitives
  import opened GoIO

  const PREFIX_SIZE := 8
  const HEADER_SIZE := 13
  const MAX_CHUNK_SIZE := 0x4000_0000
  const MAGIC: Bytes := [67, 82, 83, 86]
  const VERSION: byte := 1

  function Header(prefix: Bytes): Bytes {
    MAGIC + [VERSION] + prefix
  }

  function StreamNonce(prefix: Bytes, counter: uint32): Bytes {
    prefix + Be32(counter)
  }

  function StreamAad(counter: uint32, last: bool): Bytes {
    Be32(counter) + [if last then 1 else 0]
  }

  lemma NonceInjective(p: Bytes, m: uint32, q: Bytes, n: uint32)
    requires |p| == |q|
    ensures StreamNonce(p, m) == StreamNonce(q, n) <==> p == q && m == n
  {
    Be32Injective(m, n);
    var a, b := StreamNonce(p, m), StreamNonce(q, n);
    assert a[..|p|] == p && b[..|p|] == q && a[|p|..] == Be32(m) && b[|p|..] == Be32(n);
  }

  lemma AadInjective(m: uint32, l: bool, n: uint32, k: bool)
    ensures StreamAad(m, l) == StreamAad(n, k) <==> m == n && l == k
  {
    Be32Injective(m, n);
    var a, b := StreamAad(m, l), StreamAad(n, k);
    assert a[..4] == Be32(m) && b[..4] == Be32(n) && a[4] == (if l then 1 else 0) && b[4] == (if k then 1 else 0);
  }

  /** `b | 0x80` */
  function SetTopBit(b: byte): byte {
    if b < 128 then b + 128 else b
  }

  /** Four bytes of length, converted to `uint32`, whose top bit marks the last chunk. */
  function LenField(n: nat, last: bool): (f: Bytes)
    ensures |f| == 4
  {
    var f := Be32(Wrap32(n));
    if last then [SetTopBit(f[0])] + f[1..] else f
  }

  /** `f[0] & 0x80 != 0` */
  predicate FieldLast(f: Bytes)
    requires |f| == 4
  {
    f[0] >= 128
  }

  /** The value left after `f[0] &= 0x7F`. */
  function FieldLen(f: Bytes): uint32
    requires |f| == 4
  {
    FromBe32([f[0] % 128] + f[1..])
  }

  /** The field is the length, with the flag for its top bit. */
  lemma FieldIsSum(n: nat, last: bool)
    requires n < 0x8000_0000
    ensures LenField(n, last) == Be32(n + (if last then 0x8000_0000 else 0))
  {
    hide Be32;
    var b := Be32(n);
    WrapKeeps(n);
    Be32Decodes(n);
    var f := LenField(n, last);
    assert b[0] < 128 && f[1..] == b[1..] && f[1] == b[1] && f[2] == b[2] && f[3] == b[3];
    Be32Inverse(n + (if last then 0x8000_0000 else 0), f);
  }

  /** Length and flag come back exactly when the length leaves the top bit free. */
  lemma FieldDecodes(n: nat, last: bool)
    ensures (FieldLast(LenField(n, last)) == last && FieldLen(LenField(n, last)) == n) <==> n < 0x8000_0000
  {
    var f := Be32(Wrap32(n));
    var g := LenField(n, last);
    Be32Inverse(Wrap32(n), f);
    assert g[1..] == f[1..];
    if n < 0x8000_0000 {
      assert f[0] < 128;
      assert g[0] % 128 == f[0];
      assert [g[0] % 128] + g[1..] == f;
    } else {
      assert FieldLen(g) < 0x8000_0000;
    }
  }

  /** The chunk plaintexts one call of the sealer has sealed, in order.
      `complete` says that the final one was sealed as the last of the stream. */
  datatype Run = Run(prefix: Bytes, chunks: seq<Bytes>, complete: bool)
  {
    predicate IsLast(i: nat) {
      complete && i + 1 == |chunks|
    }

    function Ciphertext(g: Gcm, key: Bytes, i: nat): Bytes
      requires i < |chunks|
    {
      g.seal(key, StreamNonce(prefix, Wrap32(i)), StreamAad(Wrap32(i), IsLast(i)), chunks[i])
    }

    function Frame(g: Gcm, key: Bytes, i: nat): (f: Bytes)
      requires i < |chunks|
      ensures |f| >= 4
    {
      var ct := Ciphertext(g, key, i);
      LenField(|ct|, IsLast(i)) + ct
    }

    /** Chunks `i` and later, as they appear on the wire. */
    function Frames(g: Gcm, key: Bytes, i: nat): Bytes
      requires i <= |chunks|
      decreases |chunks| - i
    {
      if i == |chunks| then [] else Frame(g, key, i) + Frames(g, key, i + 1)
    }

    function Wire(g: Gcm, key: Bytes): Bytes {
      Header(prefix) + Frames(g, key, 0)
    }

    predicate WellFormed() {
      && |prefix| == PREFIX_SIZE
      && (forall i :: 0 <= i < |chunks| ==> |chunks[i]| <= MAX_CHUNK_SIZE)
      && (complete ==> 0 < |chunks|)
    }
  }

  /** How the sealer cuts its input: full chunks, then a shorter, possibly empty, last one.
      A reader that fails instead of ending leaves no last chunk. */
  function SourceChunks(data: Bytes, c: nat, end: ReadEnd): seq<Bytes>
    requires 0 < c
  {
    if |data| < c then (if end == Fault then [] else [data])
    else [data[..c]] + SourceChunks(data[c..], c, end)
  }

  function SourceRun(prefix: Bytes, data: Bytes, c: nat, end: ReadEnd): Run
    requires 0 < c
  {
    Run(prefix, SourceChunks(data, c, end), end != Fault)
  }

  /** The first `m` chunks of a run: what is sealed when it stops early. */
  function Cut(run: Run, m: nat): Run
    requires m <= |run.chunks|
  {
    Run(run.prefix, run.chunks[..m], run.complete && m == |run.chunks|)
  }
}
