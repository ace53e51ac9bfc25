/** What stream.go promises of honest and of broken-off streams. */
module StreamRoundTrip {
  import opened Octets
  import opened Errors
  import opened Primitives
  import opened GoIO
  import opened StreamFormat
  import opened StreamSeal
  import opened StreamOpen
  import opened Division

  /** A frame at the front of the input is read back as it was written. */
  lemma FrameParses(g: Gcm, key: Bytes, run: Run, i: nat, rest: Bytes, end: ReadEnd)
    requires g.Lawful() && i < |run.chunks| && |run.chunks[i]| <= MAX_CHUNK_SIZE
    ensures |run.Frame(g, key, i)| == |run.chunks[i]| + 20
    ensures ParseFrame(run.Frame(g, key, i) + rest, end) == Framed(run.IsLast(i), run.Ciphertext(g, key, i))
    ensures OpenChunk(g, key, run.prefix, i, run.IsLast(i), run.Ciphertext(g, key, i)) == Some(run.chunks[i])
  {
    var ct, last := run.Ciphertext(g, key, i), run.IsLast(i);
    var data := run.Frame(g, key, i) + rest;
    FieldDecodes(|ct|, last);
    assert data[..4] == LenField(|ct|, last);
    assert data[4..4 + |ct|] == ct;
  }

  /** The opener on a stream whose next frame is chunk `i` of a run. */
  lemma OpenStep(g: Gcm, key: Bytes, run: Run, i: nat, rest: Bytes, end: ReadEnd)
    requires g.Lawful() && i < |run.chunks| && |run.chunks[i]| <= MAX_CHUNK_SIZE
    ensures OpenFrames(g, key, run.prefix, run.Frame(g, key, i) + rest, end, i, None)
         == if run.IsLast(i) then Opened(run.chunks[i], |run.Frame(g, key, i)|, None)
            else OpenFrames(g, key, run.prefix, rest, end, i + 1, None).After(run.chunks[i], |run.Frame(g, key, i)|)
  {
    var f := run.Frame(g, key, i);
    FrameParses(g, key, run, i, rest, end);
    assert (f + rest)[|f|..] == rest;
  }

  lemma {:induction false} FramesOpen(g: Gcm, key: Bytes, run: Run, i: nat, tail: Bytes, end: ReadEnd)
    requires g.Lawful() && run.WellFormed() && run.complete && i < |run.chunks|
    ensures OpenFrames(g, key, run.prefix, run.Frames(g, key, i) + tail, end, i, None)
         == Opened(Concat(run.chunks[i..]), |run.Frames(g, key, i)|, None)
    decreases |run.chunks| - i
  {
    hide OpenFrames, ParseFrame;
    var f, rest := run.Frame(g, key, i), run.Frames(g, key, i + 1);
    Assoc(f, rest, tail);
    OpenStep(g, key, run, i, rest + tail, end);
    ConcatSlice(run.chunks, i, |run.chunks|);
    if !run.IsLast(i) {
      FramesOpen(g, key, run, i + 1, tail, end);
    }
  }

  lemma OpenWire(g: Gcm, key: Bytes, prefix: Bytes, body: Bytes, end: ReadEnd, room: Room)
    requires |key| == KEY_SIZE && |prefix| == PREFIX_SIZE
    ensures OpenBytes(g, key, Header(prefix) + body, end, room)
         == OpenFrames(g, key, prefix, body, end, 0, room).After([], HEADER_SIZE)
  {
    var data := Header(prefix) + body;
    assert data[..4] == MAGIC && data[4] == VERSION && data[5..HEADER_SIZE] == prefix;
    assert data[HEADER_SIZE..] == body;
  }

  /** Every complete run is read back whole, and nothing behind it is looked at. */
  lemma WireOpens(g: Gcm, key: Bytes, run: Run, tail: Bytes, end: ReadEnd)
    requires g.Lawful() && |key| == KEY_SIZE && run.WellFormed() && run.complete
    ensures OpenBytes(g, key, run.Wire(g, key) + tail, end, None)
         == Opened(Concat(run.chunks), |run.Wire(g, key)|, None)
  {
    var body := run.Frames(g, key, 0) + tail;
    Assoc(Header(run.prefix), run.Frames(g, key, 0), tail);
    OpenWire(g, key, run.prefix, body, end, None);
    FramesOpen(g, key, run, 0, tail, end);
    assert run.chunks[0..] == run.chunks;
  }

  lemma {:induction false} ChunksShape(data: Bytes, c: nat, end: ReadEnd)
    requires 0 < c
    ensures var chunks, n := SourceChunks(data, c, end), Quot(|data|, c);
            && |chunks| == (if end == Fault then n else n + 1)
            && (forall i :: 0 <= i < n ==> |chunks[i]| == c)
            && (end != Fault ==> |chunks[n]| == Rem(|data|, c) && Concat(chunks) == data)
    decreases |data|
  {
    if |data| < c {
      assert Concat([data]) == data + Concat([]) == data;
    } else {
      ChunksShape(data[c..], c, end);
      var rest := SourceChunks(data[c..], c, end);
      assert SourceChunks(data, c, end) == [data[..c]] + rest;
    }
  }

  /** The shape of the chunk list: full chunks and then one that is shorter. */
  lemma SourceShape(data: Bytes, c: nat, end: ReadEnd)
    requires 0 < c
    ensures var chunks, n := SourceChunks(data, c, end), |data| / c;
            && |chunks| == (if end == Fault then n else n + 1)
            && (forall i :: 0 <= i < n ==> |chunks[i]| == c)
            && (end != Fault ==> |chunks[n]| == |data| % c && Concat(chunks) == data)
  {
    hide SourceChunks, Quot, Rem, Concat;
    ChunksShape(data, c, end);
    QuotRem(|data|, c);
  }

  lemma SourceRunWellFormed(prefix: Bytes, data: Bytes, c: nat, end: ReadEnd)
    requires |prefix| == PREFIX_SIZE && 0 < c <= MAX_CHUNK_SIZE
    ensures SourceRun(prefix, data, c, end).WellFormed()
  {
    ChunksShape(data, c, end);
  }

  /** `OpenStream` after `SealStream` gives the plaintext back, for every length and chunk size, past
      counter wrap-around too, and whatever follows the stream. */
  lemma RoundTrip(g: Gcm, key: Bytes, prefix: Bytes, data: Bytes, c: nat, tail: Bytes, end: ReadEnd)
    requires g.Lawful() && |key| == KEY_SIZE && |prefix| == PREFIX_SIZE && 0 < c <= MAX_CHUNK_SIZE
    ensures var wire := SourceRun(prefix, data, c, Eof).Wire(g, key);
            OpenBytes(g, key, wire + tail, end, None) == Opened(data, |wire|, None)
  {
    SourceRunWellFormed(prefix, data, c, Eof);
    WireOpens(g, key, SourceRun(prefix, data, c, Eof), tail, end);
    ChunksShape(data, c, Eof);
  }

  /** `SealStream` between buffers in memory. */
  method SealInMemory(g: Gcm, key: Bytes, data: Bytes, end: ReadEnd, chunkSize: int, entropy: Option<Bytes>)
    returns (err: Option<Error>, wire: Bytes)
    requires |key| == 32 && 0 < chunkSize <= 0x4000_0000 && entropy.Some? && |entropy.value| == 8 && end != Fault
    ensures err == None && wire == SourceRun(entropy.value, data, chunkSize, Eof).Wire(g, key)
  {
    hide SourceChunks, Run.Wire, Reached;
    var r := new Reader(data, end);
    var w := new Writer(None);
    ghost var n;
    err, n := SealStream(g, key, r, w, chunkSize, entropy);
    EndingsCompared(data, chunkSize, end);
    wire := w.out;
  }

  /** `OpenStream` between buffers in memory. */
  method OpenInMemory(g: Gcm, key: Bytes, wire: Bytes) returns (err: Option<Error>, plain: Bytes)
    ensures var o := OpenBytes(g, key, wire, Eof, None); err == o.err && plain == o.written
  {
    hide OpenBytes;
    var r := new Reader(wire, Eof);
    var w := new Writer(None);
    err := OpenStream(g, key, r, w);
    plain := w.out;
  }

  /** Both calls in a row, from any arguments the sealer accepts, whether its reader ends cleanly or not. */
  method SealThenOpen(g: Gcm, key: Bytes, data: Bytes, end: ReadEnd, chunkSize: int, entropy: Option<Bytes>)
    returns (sealErr: Option<Error>, openErr: Option<Error>, plain: Bytes)
    requires g.Lawful() && end != Fault
    requires |key| == 32 && 0 < chunkSize <= 0x4000_0000 && entropy.Some? && |entropy.value| == 8
    ensures sealErr == None && openErr == None && plain == data
  {
    hide OpenBytes, SourceChunks, Run.Wire;
    var wire;
    sealErr, wire := SealInMemory(g, key, data, end, chunkSize, entropy);
    RoundTrip(g, key, entropy.value, data, chunkSize, [], Eof);
    assert wire + [] == wire;
    openErr, plain := OpenInMemory(g, key, wire);
  }

  lemma {:induction false} FramesSize(g: Gcm, key: Bytes, run: Run, i: nat)
    requires g.Lawful() && i <= |run.chunks|
    ensures |run.Frames(g, key, i)| == |Concat(run.chunks[i..])| + 20 * (|run.chunks| - i)
    decreases |run.chunks| - i
  {
    if i < |run.chunks| {
      FramesSize(g, key, run, i + 1);
      ConcatSlice(run.chunks, i, |run.chunks|);
    } else {
      assert run.chunks[i..] == [];
    }
  }

  /** Size on the wire, and room for the flag above every chunk length. */
  lemma WireSize(g: Gcm, key: Bytes, prefix: Bytes, data: Bytes, c: nat)
    requires g.Lawful() && |prefix| == PREFIX_SIZE && 0 < c <= MAX_CHUNK_SIZE
    ensures var run := SourceRun(prefix, data, c, Eof);
            && |run.chunks| == |data| / c + 1
            && |run.Wire(g, key)| == 13 + |data| + 20 * (|data| / c + 1)
            && (run.chunks[|run.chunks| - 1] == [] <==> |data| % c == 0)
            && forall i :: 0 <= i < |run.chunks| ==> |run.Ciphertext(g, key, i)| < 0x8000_0000
  {
    var run := SourceRun(prefix, data, c, Eof);
    SourceShape(data, c, Eof);
    FramesSize(g, key, run, 0);
    assert run.chunks[0..] == run.chunks;
  }

  lemma {:induction false} TimesQuot(n: nat, c: nat, q: nat)
    requires 0 < c && q <= Quot(n, c)
    ensures Times(q, c) <= n && (q < Quot(n, c) <==> Times(q, c) + c <= n)
    decreases q
  {
    if q > 0 {
      TimesQuot(n - c, c, q - 1);
    }
  }

  lemma SliceDropped(data: Bytes, c: nat, at: nat)
    requires c <= |data|
    ensures at + c <= |data| - c ==> data[c..][at..at + c] == data[at + c..at + c + c]
  {
  }

  lemma SourceCons(data: Bytes, c: nat)
    requires 0 < c <= |data|
    ensures SourceChunks(data, c, Eof) == [data[..c]] + SourceChunks(data[c..], c, Eof)
  {
  }

  lemma FirstChunk(data: Bytes, c: nat)
    requires 0 < c
    ensures SourceChunks(data, c, Eof) != []
    ensures SourceChunks(data, c, Eof)[0] == if 0 < Quot(|data|, c) then data[0..c] else data[0..]
  {
  }

  /** Chunk `q` holds the bytes from `q * c` on. */
  lemma {:induction false} SourceChunk(data: Bytes, c: nat, q: nat)
    requires 0 < c && q <= Quot(|data|, c)
    ensures Times(q, c) <= |data| && (q < Quot(|data|, c) <==> Times(q, c) + c <= |data|)
    ensures q < |SourceChunks(data, c, Eof)|
    ensures SourceChunks(data, c, Eof)[q]
         == if q < Quot(|data|, c) then data[Times(q, c)..Times(q, c) + c] else data[Times(q, c)..]
    decreases q
  {
    hide SourceChunks;
    TimesQuot(|data|, c, q);
    if q == 0 {
      FirstChunk(data, c);
    } else {
      var rest, at := data[c..], Times(q - 1, c);
      SourceChunk(rest, c, q - 1);
      SourceCons(data, c);
      assert SourceChunks(data, c, Eof)[q] == SourceChunks(rest, c, Eof)[q - 1];
      DropDrop(data, c, at);
      SliceDropped(data, c, at);
    }
  }

  lemma SplitPrefix(data: Bytes, c: nat, at: nat)
    requires c + at <= |data|
    ensures data[..c + at] == data[..c] + data[c..][..at]
  {
  }

  /** The first `q` chunks hold the first `q * c` bytes. */
  lemma {:induction false} SourcePrefix(data: Bytes, c: nat, q: nat)
    requires 0 < c && q <= Quot(|data|, c)
    ensures Times(q, c) <= |data| && q < |SourceChunks(data, c, Eof)|
    ensures Concat(SourceChunks(data, c, Eof)[..q]) == data[..Times(q, c)]
    decreases q
  {
    hide SourceChunks;
    ChunksShape(data, c, Eof);
    TimesQuot(|data|, c, q);
    if q > 0 {
      hide Concat;
      SourcePrefix(data[c..], c, q - 1);
      SourceCons(data, c);
      var chunks, front := SourceChunks(data, c, Eof)[..q], SourceChunks(data[c..], c, Eof)[..q - 1];
      assert chunks == [data[..c]] + front;
      ConcatCons(data[..c], front);
      SplitPrefix(data, c, Times(q - 1, c));
    }
  }

  lemma ConcatCons(first: Bytes, rest: seq<Bytes>)
    ensures Concat([first] + rest) == first + Concat(rest)
  {
    assert ([first] + rest)[1..] == rest;
  }

  lemma FrameStarts(g: Gcm, key: Bytes, prefix: Bytes, data: Bytes, c: nat, i: nat)
    requires g.Lawful() && |prefix| == PREFIX_SIZE && 0 < c && i <= Quot(|data|, c)
    ensures var run := SourceRun(prefix, data, c, Eof);
            && |run.chunks| == Quot(|data|, c) + 1
            && 13 + Times(i, c) + 20 * i <= |run.Wire(g, key)|
            && run.Wire(g, key)[13 + Times(i, c) + 20 * i..] == run.Frames(g, key, i)
  {
    var run := SourceRun(prefix, data, c, Eof);
    ChunksShape(data, c, Eof);
    SourcePrefix(data, c, i);
    WireOfCut(g, key, run, i);
    FramesSize(g, key, Cut(run, i), 0);
    assert Cut(run, i).chunks[0..] == run.chunks[..i];
  }

  lemma Products(n: nat, c: nat, i: nat)
    requires 0 < c && i <= n / c
    ensures i <= Quot(n, c) == n / c && Times(i, c) == i * c && i * (c + 20) == i * c + 20 * i
    ensures 0 <= i * c <= n && (i < n / c ==> i * c + c <= n)
  {
    QuotRem(n, c);
    TimesIsProduct(i, c);
    TimesQuot(n, c, i);
  }

  lemma FrameSpelledOut(g: Gcm, key: Bytes, run: Run, i: nat)
    requires i < |run.chunks|
    ensures var last := run.IsLast(i);
            var ct := g.seal(key, run.prefix + Be32(Wrap32(i)), Be32(Wrap32(i)) + [if last then 1 else 0], run.chunks[i]);
            LenField(|ct|, last) + ct <= run.Frames(g, key, i)
  {
  }

  /** Where chunk `i` lies on the wire, and what is there. */
  lemma WireLayout(g: Gcm, key: Bytes, prefix: Bytes, data: Bytes, c: nat, i: nat)
    requires g.Lawful() && |prefix| == PREFIX_SIZE && 0 < c <= MAX_CHUNK_SIZE && i <= |data| / c
    ensures 0 <= i * c <= |data| && (i < |data| / c ==> i * c + c <= |data|)
    ensures var wire, last := SourceRun(prefix, data, c, Eof).Wire(g, key), i == |data| / c;
            var pt := if last then data[i * c..] else data[i * c..i * c + c];
            var ct := g.seal(key, prefix + Be32(Wrap32(i)), Be32(Wrap32(i)) + [if last then 1 else 0], pt);
            0 <= 13 + i * (c + 20) <= |wire| && LenField(|ct|, last) + ct <= wire[13 + i * (c + 20)..]
    ensures [67, 82, 83, 86, 1] + prefix <= SourceRun(prefix, data, c, Eof).Wire(g, key)
  {
    hide Quot, Times, SourceChunks, Run.Frames, LenField, Wrap32, Be32;
    var run := SourceRun(prefix, data, c, Eof);
    Products(|data|, c, i);
    FrameStarts(g, key, prefix, data, c, i);
    FrameSpelledOut(g, key, run, i);
    SourceChunk(data, c, i);
  }

  /** The error for a stream that stops `off` bytes into a frame. */
  function CutError(off: nat, end: ReadEnd): Error {
    if off >= 4 then InvalidCiphertext else if end == Fault then ReadFault else Truncated
  }

  /** A stream that stops inside chunk `i`. */
  lemma CutInFrame(g: Gcm, key: Bytes, run: Run, i: nat, k: nat, end: ReadEnd)
    requires g.Lawful() && i < |run.chunks| && |run.chunks[i]| <= MAX_CHUNK_SIZE
    requires k < |run.Frame(g, key, i)|
    ensures k < |run.Frames(g, key, i)|
    ensures OpenFrames(g, key, run.prefix, run.Frames(g, key, i)[..k], end, i, None)
         == Opened([], k, Some(CutError(k, end)))
  {
    var f := run.Frame(g, key, i);
    FrameParses(g, key, run, i, [], end);
    assert f + [] == f && run.Frames(g, key, i)[..k] == f[..k];
    if 4 <= k {
      assert f[..k][..4] == f[..4];
    }
  }

  /** All chunks but the last have the same size. */
  ghost predicate Uniform(run: Run, c: nat) {
    forall j :: 0 <= j < |run.chunks| ==> if run.IsLast(j) then |run.chunks[j]| < c else |run.chunks[j]| == c
  }

  /** A stream that stops behind chunk `i`. */
  lemma CutBehindFrame(g: Gcm, key: Bytes, run: Run, i: nat, k: nat, end: ReadEnd)
    requires g.Lawful() && run.WellFormed() && i < |run.chunks|
    requires |run.Frame(g, key, i)| <= k < |run.Frames(g, key, i)|
    ensures var m := k - |run.Frame(g, key, i)|;
            && i + 1 < |run.chunks| && m < |run.Frames(g, key, i + 1)|
            && OpenFrames(g, key, run.prefix, run.Frames(g, key, i)[..k], end, i, None)
            == OpenFrames(g, key, run.prefix, run.Frames(g, key, i + 1)[..m], end, i + 1, None)
               .After(run.chunks[i], k - m)
  {
    hide OpenFrames;
    var f, rest := run.Frame(g, key, i), run.Frames(g, key, i + 1);
    assert (f + rest)[..k] == f + rest[..k - |f|];
    OpenStep(g, key, run, i, rest[..k - |f|], end);
  }

  /** The outcome for a stream that stops `k` bytes after the start of frame `i`. */
  function CutOutcome(chunks: seq<Bytes>, c: nat, i: nat, k: nat, end: ReadEnd): Opened
    requires i + Quot(k, c + 20) <= |chunks|
  {
    Opened(Concat(chunks[i..i + Quot(k, c + 20)]), k, Some(CutError(Rem(k, c + 20), end)))
  }

  lemma CutOutcomeBase(chunks: seq<Bytes>, c: nat, i: nat, k: nat, end: ReadEnd)
    requires k < c + 20 && i <= |chunks|
    ensures CutOutcome(chunks, c, i, k, end) == Opened([], k, Some(CutError(k, end)))
  {
  }

  lemma CutOutcomeStep(chunks: seq<Bytes>, c: nat, i: nat, k: nat, end: ReadEnd, o: Opened)
    requires c + 20 <= k && i + 1 + Quot(k - (c + 20), c + 20) <= |chunks|
    requires o == CutOutcome(chunks, c, i + 1, k - (c + 20), end)
    ensures o.After(chunks[i], c + 20) == CutOutcome(chunks, c, i, k, end)
  {
    ConcatSlice(chunks, i, i + 1 + Quot(k - (c + 20), c + 20));
  }

  lemma {:induction false} CutInFrames(g: Gcm, key: Bytes, run: Run, c: nat, i: nat, k: nat, end: ReadEnd)
    requires g.Lawful() && run.WellFormed() && run.complete && i < |run.chunks| && 0 < c && Uniform(run, c)
    requires k < |run.Frames(g, key, i)|
    ensures i + Quot(k, c + 20) < |run.chunks|
    ensures OpenFrames(g, key, run.prefix, run.Frames(g, key, i)[..k], end, i, None)
         == CutOutcome(run.chunks, c, i, k, end)
    decreases |run.chunks| - i
  {
    hide OpenFrames, CutError, Concat, CutOutcome, Run.Frames, Run.Frame;
    var f := run.Frame(g, key, i);
    FrameParses(g, key, run, i, [], end);
    if k < |f| {
      CutInFrame(g, key, run, i, k, end);
      CutOutcomeBase(run.chunks, c, i, k, end);
    } else {
      CutBehindFrame(g, key, run, i, k, end);
      CutInFrames(g, key, run, c, i + 1, k - |f|, end);
      CutOutcomeStep(run.chunks, c, i, k, end, CutOutcome(run.chunks, c, i + 1, k - |f|, end));
    }
  }

  lemma CutWire(g: Gcm, key: Bytes, prefix: Bytes, data: Bytes, c: nat, m: nat, end: ReadEnd)
    requires g.Lawful() && |key| == KEY_SIZE && |prefix| == PREFIX_SIZE && 0 < c <= MAX_CHUNK_SIZE
    requires HEADER_SIZE + m < |SourceRun(prefix, data, c, Eof).Wire(g, key)|
    ensures var q := Quot(m, c + 20);
            && q <= Quot(|data|, c) && Times(q, c) <= |data|
            && OpenBytes(g, key, SourceRun(prefix, data, c, Eof).Wire(g, key)[..HEADER_SIZE + m], end, None)
            == Opened(data[..Times(q, c)], HEADER_SIZE + m, Some(CutError(Rem(m, c + 20), end)))
  {
    hide OpenFrames, CutError, Quot, Rem, Times, SourceChunks;
    var run := SourceRun(prefix, data, c, Eof);
    ChunksShape(data, c, Eof);
    SourceRunWellFormed(prefix, data, c, Eof);
    assert run.Wire(g, key)[..HEADER_SIZE + m] == Header(prefix) + run.Frames(g, key, 0)[..m];
    OpenWire(g, key, prefix, run.Frames(g, key, 0)[..m], end, None);
    CutInFrames(g, key, run, c, 0, m, end);
    SourcePrefix(data, c, Quot(m, c + 20));
    assert run.chunks[0..0 + Quot(m, c + 20)] == run.chunks[..Quot(m, c + 20)];
  }

  /** A strict prefix of a sealed stream is never accepted. The error tells where the cut is, and what
      was written by then is the plaintext of the chunks that came through whole. */
  lemma CutIsRejected(g: Gcm, key: Bytes, prefix: Bytes, data: Bytes, c: nat, k: nat, end: ReadEnd)
    requires g.Lawful() && |key| == KEY_SIZE && |prefix| == PREFIX_SIZE && 0 < c <= MAX_CHUNK_SIZE
    requires k < |SourceRun(prefix, data, c, Eof).Wire(g, key)|
    ensures var o := OpenBytes(g, key, SourceRun(prefix, data, c, Eof).Wire(g, key)[..k], end, None);
            if k < HEADER_SIZE then o == Opened([], k, Some(InvalidCiphertext))
            else var q, off := (k - HEADER_SIZE) / (c + 20), (k - HEADER_SIZE) % (c + 20);
              0 <= q * c <= |data| && o == Opened(data[..q * c], k, Some(CutError(off, end)))
  {
    hide OpenFrames, CutError, Quot, Rem, Times, SourceChunks;
    if HEADER_SIZE <= k {
      var m := k - HEADER_SIZE;
      CutWire(g, key, prefix, data, c, m, end);
      QuotRem(m, c + 20);
      TimesIsProduct(Quot(m, c + 20), c);
    }
  }

  lemma {:induction false} EndingsCompared(data: Bytes, c: nat, end: ReadEnd)
    requires 0 < c
    ensures |SourceChunks(data, c, Fault)| + 1 == |SourceChunks(data, c, Eof)|
    ensures SourceChunks(data, c, end)
         == if end == Fault then SourceChunks(data, c, Eof)[..|SourceChunks(data, c, Fault)|] else SourceChunks(data, c, Eof)
    decreases |data|
  {
    if c <= |data| {
      EndingsCompared(data[c..], c, end);
    }
  }

  /** What a sealer leaves behind opens exactly when its reader came to an end, clean or unexpected, and
      its writer took every byte. A failing reader or a short write leaves a stream that is rejected. */
  lemma InterruptedIsRejected(g: Gcm, key: Bytes, prefix: Bytes, data: Bytes, c: nat, end: ReadEnd, room: Room)
    requires g.Lawful() && |key| == KEY_SIZE && |prefix| == PREFIX_SIZE && 0 < c <= MAX_CHUNK_SIZE
    ensures var wire := SourceRun(prefix, data, c, end).Wire(g, key);
            var o := OpenBytes(g, key, Take(wire, room), Eof, None);
            if end != Fault && Fits(|wire|, room) then o == Opened(data, |wire|, None)
            else o.err in {Some(InvalidCiphertext), Some(Truncated)} && o.written <= data
  {
    hide OpenFrames, OpenBytes, SourceChunks, Run.Frames;
    var whole, run := SourceRun(prefix, data, c, Eof), SourceRun(prefix, data, c, end);
    EndingsCompared(data, c, end);
    var k := |Take(run.Wire(g, key), room)|;
    if end == Fault {
      var n := |SourceChunks(data, c, Fault)|;
      assert Cut(whole, n) == run;
      WireOfCut(g, key, whole, n);
      LastFrameIsThere(g, key, whole, n);
    }
    assert Take(run.Wire(g, key), room) == whole.Wire(g, key)[..k];
    if k == |whole.Wire(g, key)| {
      RoundTrip(g, key, prefix, data, c, [], Eof);
      assert whole.Wire(g, key) + [] == whole.Wire(g, key)[..k];
    } else {
      CutIsRejected(g, key, prefix, data, c, k, Eof);
    }
  }

  lemma LastFrameIsThere(g: Gcm, key: Bytes, run: Run, n: nat)
    requires n < |run.chunks|
    ensures 0 < |run.Frames(g, key, n)|
  {
  }

  /** Within one run no nonce is used twice, exactly as long as the counter does not wrap. */
  lemma DistinctNonces(prefix: Bytes, data: Bytes, c: nat)
    requires 0 < c
    ensures (forall i, j :: 0 <= i < j < |SourceChunks(data, c, Eof)| ==>
               StreamNonce(prefix, Wrap32(i)) != StreamNonce(prefix, Wrap32(j)))
       <==> |data| < TWO_32 * c
  {
    hide SourceChunks, Quot, Rem, Wrap32;
    var n := |SourceChunks(data, c, Eof)|;
    SourceShape(data, c, Eof);
    DivBound(|data|, c, TWO_32);
    if n <= TWO_32 {
      forall i, j | 0 <= i < j < n
        ensures StreamNonce(prefix, Wrap32(i)) != StreamNonce(prefix, Wrap32(j))
      {
        WrapKeeps(i);
        WrapKeeps(j);
        NonceInjective(prefix, i, prefix, j);
      }
    } else {
      WrapPeriod(0);
      assert 0 <= 0 < TWO_32 < n;
    }
  }
}
