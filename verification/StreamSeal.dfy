/** The writing loop of stream.go, proved to emit `Run.Wire` as far as reader and writer let it. */
module StreamSeal {
  import opened Octets
  import opened Errors
  import opened Primitives
  import opened GoIO
  import opened StreamFormat

  /** `binary.BigEndian.PutUint32(a[at:], v)` */
  method PutUint32(a: array<byte>, at: nat, v: uint32)
    requires at + 4 <= a.Length
    modifies a
    ensures a[..] == old(a[..at]) + Be32(v) + old(a[at + 4..])
  {
    var b := Be32(v);
    a[at], a[at + 1], a[at + 2], a[at + 3] := b[0], b[1], b[2], b[3];
    assert a[at..at + 4] == b;
    assert a[..] == a[..at] + a[at..at + 4] + a[at + 4..];
  }

  method MakeStreamNonce(prefix: Bytes, counter: uint32) returns (out: array<byte>)
    requires |prefix| == PREFIX_SIZE
    ensures fresh(out) && out[..] == StreamNonce(prefix, counter)
  {
    out := new byte[12](_ => 0);
    forall i | 0 <= i < PREFIX_SIZE {
      out[i] := prefix[i];
    }
    assert out[..8] == prefix;
    PutUint32(out, 8, counter);
    assert out[..] == prefix + Be32(counter) + [];
  }

  method MakeStreamAad(counter: uint32, last: bool) returns (out: array<byte>)
    ensures fresh(out) && out[..] == StreamAad(counter, last)
  {
    out := new byte[5](_ => 0);
    PutUint32(out, 0, counter);
    assert out[..] == Be32(counter) + [0];
    if last {
      out[4] := 1;
      assert out[..] == Be32(counter) + [1];
    }
  }

  method MakeLenField(n: nat, last: bool) returns (out: array<byte>)
    ensures fresh(out) && out[..] == LenField(n, last)
  {
    out := new byte[4](_ => 0);
    PutUint32(out, 0, Wrap32(n));
    assert out[..] == Be32(Wrap32(n));
    if last {
      out[0] := SetTopBit(out[0]);
      assert out[..] == [SetTopBit(Be32(Wrap32(n))[0])] + Be32(Wrap32(n))[1..];
    }
  }

  lemma FrameInCut(g: Gcm, key: Bytes, run: Run, m: nat, i: nat)
    requires i < m <= |run.chunks|
    ensures Cut(run, m).Frame(g, key, i) == run.Frame(g, key, i)
  {
  }

  lemma {:induction false} FramesOfCut(g: Gcm, key: Bytes, run: Run, m: nat, i: nat)
    requires i <= m <= |run.chunks|
    ensures run.Frames(g, key, i) == Cut(run, m).Frames(g, key, i) + run.Frames(g, key, m)
    decreases m - i
  {
    if i < m {
      hide Run.Frame;
      FramesOfCut(g, key, run, m, i + 1);
      FrameInCut(g, key, run, m, i);
      Assoc(run.Frame(g, key, i), Cut(run, m).Frames(g, key, i + 1), run.Frames(g, key, m));
    }
  }

  lemma WireOfCut(g: Gcm, key: Bytes, run: Run, m: nat)
    requires m <= |run.chunks|
    ensures run.Wire(g, key) == Cut(run, m).Wire(g, key) + run.Frames(g, key, m)
  {
    FramesOfCut(g, key, run, m, 0);
  }

  /** What one more chunk adds to the bytes on the wire. */
  lemma NextCut(g: Gcm, key: Bytes, run: Run, m: nat)
    requires m < |run.chunks|
    ensures Cut(run, m + 1).Frames(g, key, 0) == Cut(run, m).Frames(g, key, 0) + run.Frame(g, key, m)
  {
    FramesOfCut(g, key, run, m, 0);
    FramesOfCut(g, key, run, m + 1, 0);
    var a, b, f, rest := Cut(run, m).Frames(g, key, 0), Cut(run, m + 1).Frames(g, key, 0),
                         run.Frame(g, key, m), run.Frames(g, key, m + 1);
    assert run.Frames(g, key, m) == f + rest;
    assert b + rest == (a + f) + rest;
    assert b == (b + rest)[..|b + rest| - |rest|] == a + f;
  }

  /** The three writes of a header add up to one write of it. */
  lemma HeaderFits(prefix: Bytes, room: Room)
    ensures var left := Shrink(room, |MAGIC|);
            var last := Shrink(left, 1);
            && (Fits(|Header(prefix)|, room) <==> Fits(|MAGIC|, room) && Fits(1, left) && Fits(|prefix|, last))
            && Take(Header(prefix), room)
            == Take(MAGIC, room)
               + (if Fits(|MAGIC|, room) then Take([VERSION], left) else [])
               + (if Fits(|MAGIC|, room) && Fits(1, left) then Take(prefix, last) else [])
            && Shrink(room, |Header(prefix)|)
            == (if !Fits(|MAGIC|, room) then left else if !Fits(1, left) then last else Shrink(last, |prefix|))
  {
    TakeAppend(MAGIC, [VERSION], room);
    TakeAppend(MAGIC + [VERSION], prefix, room);
  }

  method WriteHeader(w: Writer, prefix: Bytes) returns (ok: bool)
    modifies w
    ensures w.out == old(w.out) + Take(Header(prefix), old(w.room))
    ensures w.room == Shrink(old(w.room), |Header(prefix)|)
    ensures ok <==> Fits(|Header(prefix)|, old(w.room))
  {
    hide Take, Shrink, Fits;
    ghost var room := w.room;
    HeaderFits(prefix, room);
    ok := w.Write(MAGIC);
    if ok {
      ok := w.Write([VERSION]);
      if ok {
        ok := w.Write(prefix);
      }
    }
  }

  /** One turn of the loop after the read: seal `pt` and write its frame. */
  method SealChunk(g: Gcm, key: Bytes, w: Writer, prefix: Bytes, counter: uint32, isLast: bool, pt: Bytes)
    returns (ok: bool)
    requires |prefix| == PREFIX_SIZE
    modifies w
    ensures var ct := g.seal(key, StreamNonce(prefix, counter), StreamAad(counter, isLast), pt);
            && w.out == old(w.out) + Take(LenField(|ct|, isLast) + ct, old(w.room))
            && w.room == Shrink(old(w.room), 4 + |ct|)
            && (ok <==> Fits(4 + |ct|, old(w.room)))
  {
    var nonce := MakeStreamNonce(prefix, counter);
    var aad := MakeStreamAad(counter, isLast);
    var ct := g.seal(key, nonce[..], aad[..], pt);
    var lenField := MakeLenField(|ct|, isLast);
    TakeAppend(LenField(|ct|, isLast), ct, w.room);
    ok := w.Write(lenField[..]);
    if ok {
      ok := w.Write(ct);
    }
  }

  /** What the next read finds, in terms of the run being produced. */
  lemma SourceStep(run: Run, m: nat, rest: Bytes, c: nat, end: ReadEnd)
    requires 0 < c && m <= |run.chunks| && run.complete == (end != Fault)
    requires run.chunks[m..] == SourceChunks(rest, c, end)
    ensures c <= |rest| ==> m < |run.chunks| && run.chunks[m] == rest[..c] && !run.IsLast(m)
                            && run.chunks[m + 1..] == SourceChunks(rest[c..], c, end)
    ensures |rest| < c && end != Fault ==> m < |run.chunks| && run.chunks[m] == rest && run.IsLast(m)
    ensures |rest| < c && end == Fault ==> m == |run.chunks|
  {
    if c <= |rest| {
      assert run.chunks[m] == run.chunks[m..][0];
      assert run.chunks[m + 1..] == run.chunks[m..][1..];
    } else if end != Fault {
      assert run.chunks[m] == run.chunks[m..][0];
    }
  }

  /** How far the sealer got: `sealed` chunks, of which `Take` reached a writer with this much room. */
  ghost predicate Reached(run: Run, sealed: nat, size: nat, room: Room, end: ReadEnd, err: Option<Error>) {
    && sealed <= |run.chunks|
    && if Fits(size, room)
       then sealed == |run.chunks| && err == (if end == Fault then Some(ReadFault) else None)
       else err == Some(WriteFault)
  }

  /** The chunk loop, entered once the header is out. */
  method SealChunks(g: Gcm, key: Bytes, r: Reader, w: Writer, chunkSize: int, prefix: Bytes, ghost run: Run)
    returns (err: Option<Error>, ghost sealed: nat)
    requires r.Valid() && |prefix| == PREFIX_SIZE && 0 < chunkSize <= MAX_CHUNK_SIZE
    requires run == SourceRun(prefix, r.Rest(), chunkSize, r.end)
    modifies r, w
    ensures r.Valid() && sealed <= |run.chunks|
    ensures w.out == old(w.out) + Take(Cut(run, sealed).Frames(g, key, 0), old(w.room))
    ensures Reached(run, sealed, |Cut(run, sealed).Frames(g, key, 0)|, old(w.room), r.end, err)
    ensures err != Some(WriteFault) ==> r.Rest() == []
  {
    var buf := new byte[chunkSize](_ => 0);
    var counter: uint32 := 0;
    sealed := 0;
    ghost var sent, before, room := [], w.out, w.room;
    while true
      invariant r.Valid() && fresh(buf) && buf.Length == chunkSize
      invariant sealed <= |run.chunks| && counter == Wrap32(sealed)
      invariant run.chunks[sealed..] == SourceChunks(r.Rest(), chunkSize, r.end)
      invariant sent == Cut(run, sealed).Frames(g, key, 0)
      invariant w.out == before + sent && w.room == Shrink(room, |sent|) && Fits(|sent|, room)
      decreases |r.Rest()|
    {
      SourceStep(run, sealed, r.Rest(), chunkSize, r.end);
      var n, e := r.ReadFull(buf);
      var isLast := e.Some?;
      if e == Some(Fault) {
        return Some(ReadFault), sealed;
      }
      ghost var frame := run.Frame(g, key, sealed);
      assert buf[..n] == run.chunks[sealed];
      var ok := SealChunk(g, key, w, prefix, counter, isLast, buf[..n]);
      WriteMore(before, sent, frame, room);
      NextCut(g, key, run, sealed);
      WrapNext(sealed);
      sent, sealed, counter := sent + frame, sealed + 1, Next32(counter);
      if !ok {
        return Some(WriteFault), sealed;
      }
      if isLast {
        return None, sealed;
      }
    }
  }

  /** The arguments with which a call gets as far as its reader and writer. */
  predicate Proceeds(key: Bytes, chunkSize: int, entropy: Option<Bytes>) {
    |key| == 32 && 0 < chunkSize <= 0x4000_0000 && entropy.Some?
  }

  /** What the sealer refuses before it touches reader or writer. */
  function SealGuard(key: Bytes, chunkSize: int, entropy: Option<Bytes>): Option<Error> {
    if |key| != KEY_SIZE then Some(InvalidKey)
    else if !(0 < chunkSize <= MAX_CHUNK_SIZE) then Some(BadChunkSize)
    else if entropy.None? then Some(EntropyFault)
    else None
  }

  /** Header and chunk loop put together: the bytes that reach the writer are those of the whole run. */
  lemma Assemble(g: Gcm, key: Bytes, run: Run, m: nat, room: Room)
    requires m <= |run.chunks|
    requires Fits(|Cut(run, m).Wire(g, key)|, room) ==> m == |run.chunks|
    ensures Take(run.Wire(g, key), room) == Take(Cut(run, m).Wire(g, key), room) <= Cut(run, m).Wire(g, key)
    ensures Fits(|run.Wire(g, key)|, room) <==> Fits(|Cut(run, m).Wire(g, key)|, room)
  {
    WireOfCut(g, key, run, m);
    if m == |run.chunks| {
      assert Cut(run, m) == run;
    }
  }

  /** `SealStream`. `entropy` is the nonce prefix the random source yields, `None` when it fails.
      `sealed` counts the chunks passed to the cipher: the run whose entries this call creates is
      `Cut(SourceRun(..), sealed)`. */
  method SealStream(g: Gcm, key: Bytes, r: Reader, w: Writer, chunkSize: int, entropy: Option<Bytes>)
    returns (err: Option<Error>, ghost sealed: nat)
    requires r.Valid()
    requires entropy.Some? ==> |entropy.value| == PREFIX_SIZE
    modifies r, w
    ensures r.Valid()
    ensures err == Some(InvalidKey) <==> |key| != 32
    ensures err == Some(BadChunkSize) <==> |key| == 32 && !(0 < chunkSize <= 0x4000_0000)
    ensures err == Some(EntropyFault) <==> |key| == 32 && 0 < chunkSize <= 0x4000_0000 && entropy.None?
    ensures !Proceeds(key, chunkSize, entropy) ==> w.out == old(w.out) && r.Rest() == old(r.Rest())
    ensures Proceeds(key, chunkSize, entropy) ==>
      var size := |SourceRun(entropy.value, old(r.Rest()), chunkSize, r.end).Wire(g, key)|;
      var room := old(w.room);
      err == if room.Some? && room.value < size then Some(WriteFault)
             else if r.end == Fault then Some(ReadFault)
             else None
    ensures Proceeds(key, chunkSize, entropy) ==>
      var run := SourceRun(entropy.value, old(r.Rest()), chunkSize, r.end);
      && Reached(run, sealed, |run.Wire(g, key)|, old(w.room), r.end, err)
      && w.out == old(w.out) + Take(run.Wire(g, key), old(w.room))
      && Take(run.Wire(g, key), old(w.room)) <= Cut(run, sealed).Wire(g, key)
      && (err != Some(WriteFault) ==> r.Rest() == [])
  {
    err, sealed := SealGuard(key, chunkSize, entropy), 0;
    if err.Some? {
      return;
    }
    var prefix := entropy.value;
    ghost var run, room := SourceRun(prefix, r.Rest(), chunkSize, r.end), w.room;
    var ok := WriteHeader(w, prefix);
    if !ok {
      Assemble(g, key, run, 0, room);
      return Some(WriteFault), 0;
    }
    err, sealed := SealChunks(g, key, r, w, chunkSize, prefix, run);
    WriteMore(old(w.out), Header(prefix), Cut(run, sealed).Frames(g, key, 0), room);
    Assemble(g, key, run, sealed, room);
  }
}
