/** Where the guarantees of stream.go end: the counter wraps unchecked, and past it they fail. */
module StreamLimits {
  import opened Octets
  import opened Errors
  import opened Primitives
  import opened GoIO
  import opened StreamFormat
  import opened StreamSeal
  import opened StreamOpen
  import opened StreamRoundTrip
  import opened StreamSecurity

  /** The opener cannot tell chunk `i` from chunk `i + 2^32`. */
  lemma {:induction false} ShiftedFrames(g: Gcm, key: Bytes, prefix: Bytes, data: Bytes, end: ReadEnd, i: nat, room: Room)
    ensures OpenFrames(g, key, prefix, data, end, i + TWO_32, room) == OpenFrames(g, key, prefix, data, end, i, room)
    decreases |data|
  {
    hide Wrap32;
    WrapPeriod(i);
    if Authenticates(g, key, prefix, data, i) {
      var f := ParseFrame(data, end);
      var pt := OpenChunk(g, key, prefix, i, f.last, f.ct).value;
      ShiftedFrames(g, key, prefix, data[4 + |f.ct|..], end, i + 1, Shrink(room, |pt|));
    }
  }

  lemma {:induction false} ShiftedUnforged(g: Gcm, key: Bytes, runs: seq<Run>, prefix: Bytes, data: Bytes, i: nat)
    ensures UnforgedFrames(g, key, runs, prefix, data, i + TWO_32) <==> UnforgedFrames(g, key, runs, prefix, data, i)
    decreases |data|
  {
    hide Wrap32;
    WrapPeriod(i);
    if Authenticates(g, key, prefix, data, i) {
      var f := ParseFrame(data, Eof);
      ShiftedUnforged(g, key, runs, prefix, data[4 + |f.ct|..], i + 1);
    }
  }

  /** How many chunks of a run are not flagged as last. */
  function NonLast(run: Run): int {
    |run.chunks| - (if run.complete then 1 else 0)
  }

  lemma OneFrame(g: Gcm, key: Bytes, runs: seq<Run>, k: nat, i: nat, tail: Bytes)
    requires g.Lawful() && SoundRuns(runs) && k < |runs| && i < NonLast(runs[k])
    requires UnforgedFrames(g, key, runs, runs[k].prefix, tail, i + 1)
    ensures UnforgedFrames(g, key, runs, runs[k].prefix, runs[k].Frame(g, key, i) + tail, i)
  {
    hide Wrap32;
    var run, frame := runs[k], runs[k].Frame(g, key, i);
    FrameParses(g, key, run, i, tail, Eof);
    assert EntryOf(g, key, runs[k], i)
        == Entry(StreamNonce(run.prefix, Wrap32(i)), StreamAad(Wrap32(i), run.IsLast(i)), run.Ciphertext(g, key, i));
    assert (frame + tail)[|frame|..] == tail;
  }

  /** Chunks `i` to `m` of a run, followed by anything unforged. */
  lemma {:induction false} FrontUnforged(g: Gcm, key: Bytes, runs: seq<Run>, k: nat, i: nat, m: nat, tail: Bytes)
    requires g.Lawful() && SoundRuns(runs) && k < |runs| && i <= m <= NonLast(runs[k])
    requires UnforgedFrames(g, key, runs, runs[k].prefix, tail, m)
    ensures UnforgedFrames(g, key, runs, runs[k].prefix, Cut(runs[k], m).Frames(g, key, i) + tail, i)
    decreases m - i
  {
    hide UnforgedFrames, Run.Frames, Run.Frame, SoundRuns;
    var run := runs[k];
    if i == m {
      NothingYet(g, key, run, i);
      assert Cut(run, m).Frames(g, key, i) + tail == tail;
    } else {
      var frame, rest := run.Frame(g, key, i), Cut(run, m).Frames(g, key, i + 1);
      FrontUnforged(g, key, runs, k, i + 1, m, tail);
      FrameOfCut(g, key, run, m, i);
      Assoc(frame, rest, tail);
      OneFrame(g, key, runs, k, i, rest + tail);
    }
  }

  lemma Unheadered(g: Gcm, key: Bytes, runs: seq<Run>, prefix: Bytes, body: Bytes)
    requires |prefix| == PREFIX_SIZE
    ensures UnforgedStream(g, key, runs, Header(prefix) + body) <==> UnforgedFrames(g, key, runs, prefix, body, 0)
  {
    var data := Header(prefix) + body;
    assert data[5..HEADER_SIZE] == prefix && data[HEADER_SIZE..] == body;
  }

  /** Bytes that start like a run's output start with its prefix, and so belong to no other run. */
  lemma SamePrefix(g: Gcm, key: Bytes, runs: seq<Run>, k: nat, l: nat, body: Bytes, wire: Bytes)
    requires SoundRuns(runs) && k < |runs| && l < |runs|
    requires HEADER_SIZE <= |wire| && wire[..HEADER_SIZE] == Header(runs[l].prefix)
    requires wire <= Header(runs[k].prefix) + body
    ensures k == l
  {
    var data := Header(runs[k].prefix) + body;
    assert data[..HEADER_SIZE] == Header(runs[k].prefix);
    assert wire[..HEADER_SIZE] == data[..HEADER_SIZE];
    assert Header(runs[k].prefix)[5..] == runs[k].prefix && Header(runs[l].prefix)[5..] == runs[l].prefix;
  }

  /** A complete run of more than 2^32 chunks, without its first 2^32: authentic to the last byte, accepted,
      and only the rest of the plaintext is written. */
  lemma FrontDropped(g: Gcm, key: Bytes, runs: seq<Run>, k: nat, end: ReadEnd)
    requires g.Lawful() && |key| == KEY_SIZE && SoundRuns(runs)
    requires k < |runs| && runs[k].complete && |runs[k].chunks| > TWO_32
    ensures var run := runs[k];
            var rest := run.Frames(g, key, TWO_32);
            && UnforgedStream(g, key, runs, Header(run.prefix) + rest)
            && OpenBytes(g, key, Header(run.prefix) + rest, end, None)
            == Opened(Concat(run.chunks[TWO_32..]), HEADER_SIZE + |rest|, None)
            && HEADER_SIZE + |rest| < |run.Wire(g, key)|
  {
    hide OpenFrames, OpenBytes, UnforgedFrames, Run.Frames, Concat;
    var run := runs[k];
    var rest := run.Frames(g, key, TWO_32);
    assert rest + [] == rest;
    HonestFrames(g, key, runs, k, TWO_32, []);
    ShiftedUnforged(g, key, runs, run.prefix, rest, 0);
    Unheadered(g, key, runs, run.prefix, rest);
    FramesOpen(g, key, run, TWO_32, [], end);
    ShiftedFrames(g, key, run.prefix, rest, end, 0, None);
    OpenWire(g, key, run.prefix, rest, end, None);
    FramesOfCut(g, key, run, TWO_32, 0);
    FrameOfCut(g, key, run, TWO_32, 0);
  }

  /** All that the opener accepts, it accepts as the whole of a complete run. */
  ghost predicate AcceptsOnlyWhole(g: Gcm, key: Bytes, runs: seq<Run>) {
    forall data, end :: UnforgedStream(g, key, runs, data) && OpenBytes(g, key, data, end, None).err.None? ==>
      exists k :: 0 <= k < |runs| && runs[k].Wire(g, key) <= data
                  && IsWhole(g, key, runs[k], OpenBytes(g, key, data, end, None))
  }

  /** The bound of `ExactAcceptance` is exact: acceptance means a whole run if and only if no complete run has
      more than 2^32 chunks. */
  lemma AcceptanceBound(g: Gcm, key: Bytes, runs: seq<Run>)
    requires g.Lawful() && |key| == KEY_SIZE && SoundRuns(runs)
    ensures AcceptsOnlyWhole(g, key, runs) <==> CompleteRunsFit(runs)
  {
    hide OpenFrames, OpenBytes, UnforgedStream, Run.Frames, Concat;
    if CompleteRunsFit(runs) {
      forall data, end | UnforgedStream(g, key, runs, data) && OpenBytes(g, key, data, end, None).err.None?
        ensures exists k :: 0 <= k < |runs| && runs[k].Wire(g, key) <= data
                            && IsWhole(g, key, runs[k], OpenBytes(g, key, data, end, None))
      {
        ExactAcceptance(g, key, runs, data, end);
      }
    } else {
      var k :| 0 <= k < |runs| && runs[k].complete && !CounterFits(runs[k]);
      var data := Header(runs[k].prefix) + runs[k].Frames(g, key, TWO_32);
      FrontDropped(g, key, runs, k, Eof);
      forall l | 0 <= l < |runs| && runs[l].Wire(g, key) <= data
        ensures false
      {
        SamePrefix(g, key, runs, k, l, runs[k].Frames(g, key, TWO_32), runs[l].Wire(g, key));
      }
    }
  }

  /** For the calls of the sealer: their finished ones must have inputs under 2^32 chunks' worth of bytes. */
  lemma CallsBound(g: Gcm, key: Bytes, calls: seq<Call>)
    requires g.Lawful() && |key| == KEY_SIZE
    requires (forall i :: 0 <= i < |calls| ==> calls[i].Admissible()) && FreshPrefixes(calls)
    ensures AcceptsOnlyWhole(g, key, RunsOf(calls)) <==> FinishedCallsFit(calls)
  {
    hide AcceptsOnlyWhole, CompleteRunsFit, SoundRuns, SourceChunks;
    CallsAreSoundRuns(calls);
    AcceptanceBound(g, key, RunsOf(calls));
  }

  /** A call past the bound: 2^32 zeros, sealed to the end in chunks of one byte. */
  function LongCall(): Call {
    Call(seq(PREFIX_SIZE, _ => 0), seq(TWO_32, _ => 0), 1, Eof, TWO_32 + 1)
  }

  /** After this call alone, the opener accepts what is not the whole of it. */
  lemma TooLong(g: Gcm, key: Bytes)
    requires g.Lawful() && |key| == KEY_SIZE
    ensures LongCall().Admissible() && !AcceptsOnlyWhole(g, key, RunsOf([LongCall()]))
  {
    hide AcceptsOnlyWhole, SourceChunks;
    var call := LongCall();
    SourceShape(call.data, call.c, call.end);
    assert call.Sealed().complete && |[call][0].data| == TWO_32 * call.c;
    CallsBound(g, key, [call]);
  }

  lemma SoundRun(runs: seq<Run>, k: nat)
    requires SoundRuns(runs) && k < |runs|
    ensures runs[k].WellFormed() && |Header(runs[k].prefix)| == HEADER_SIZE
  {
  }

  /** A run with 2^32 or more chunks not flagged as last, up to the end of those, and then one of them over
      again: authentic throughout, and the repeated chunk is written. */
  lemma ChunkReplayed(g: Gcm, key: Bytes, runs: seq<Run>, k: nat, end: ReadEnd)
    requires g.Lawful() && |key| == KEY_SIZE && SoundRuns(runs) && k < |runs| && TWO_32 <= NonLast(runs[k])
    ensures var run, q := runs[k], NonLast(runs[k]);
            var data := Cut(run, q).Wire(g, key) + run.Frame(g, key, q - TWO_32);
            && UnforgedStream(g, key, runs, data)
            && OpenBytes(g, key, data, end, None).written == Concat(run.chunks[..q]) + run.chunks[q - TWO_32]
  {
    hide OpenFrames, OpenBytes, UnforgedFrames, Run.Frames, Run.Frame, Concat, SoundRuns;
    var run, q := runs[k], NonLast(runs[k]);
    var front, again := Cut(run, q).Frames(g, key, 0), run.Frame(g, key, q - TWO_32);
    RunsFit(runs, k, q - TWO_32);
    NothingUnforged(g, key, runs, run.prefix, q - TWO_32 + 1);
    OneFrame(g, key, runs, k, q - TWO_32, []);
    assert again + [] == again;
    ShiftedUnforged(g, key, runs, run.prefix, again, q - TWO_32);
    FrontUnforged(g, key, runs, k, 0, q, again);
    SoundRun(runs, k);
    RunPasses(g, key, run, 0, q, again, end);
    Unheadered(g, key, runs, run.prefix, front + again);
    Assoc(Header(run.prefix), front, again);
    OpenWire(g, key, run.prefix, front + again, end, None);
    ShiftedFrames(g, key, run.prefix, again, end, q - TWO_32, None);
    OpenStep(g, key, run, q - TWO_32, [], end);
    NothingOpens(g, key, run.prefix, end, q - TWO_32 + 1);
    assert run.chunks[0..q] == run.chunks[..q];
  }

  lemma NothingUnforged(g: Gcm, key: Bytes, runs: seq<Run>, prefix: Bytes, i: nat)
    ensures UnforgedFrames(g, key, runs, prefix, [], i)
  {
  }

  lemma NothingOpens(g: Gcm, key: Bytes, prefix: Bytes, end: ReadEnd, i: nat)
    ensures OpenFrames(g, key, prefix, [], end, i, None).written == []
  {
  }

  /** Whatever is written is the plaintext of the first chunks of one run, found verbatim in the input. */
  ghost predicate WritesOnlyFronts(g: Gcm, key: Bytes, runs: seq<Run>) {
    forall data, end :: UnforgedStream(g, key, runs, data) ==>
      IsFront(g, key, runs, data, OpenBytes(g, key, data, end, None).written)
  }

  ghost predicate IsFront(g: Gcm, key: Bytes, runs: seq<Run>, data: Bytes, written: Bytes) {
    written != [] ==>
      exists k, m :: 0 <= k < |runs| && 0 <= m <= |runs[k].chunks| && Cut(runs[k], m).Wire(g, key) <= data
                     && written == Take(Concat(runs[k].chunks[..m]), None)
  }

  /** The sealer never makes an empty chunk that is not the last. */
  ghost predicate NoEmptyChunks(runs: seq<Run>) {
    forall k, i :: 0 <= k < |runs| && 0 <= i < NonLast(runs[k]) ==> runs[k].chunks[i] != []
  }

  lemma SameFront(a: Bytes, b: Bytes, c: Bytes)
    requires a + b <= a + c
    ensures b <= c
  {
    assert b == (a + b)[|a|..] && c == (a + c)[|a|..];
    assert (a + b)[|a|..] <= (a + c)[|a|..];
  }

  /** The flag tells a last frame from any other by its first byte. */
  lemma LastFrameDiffers(g: Gcm, key: Bytes, run: Run, i: nat, j: nat)
    requires g.Lawful() && run.WellFormed() && i < |run.chunks| && j < |run.chunks|
    requires run.IsLast(i) && !run.IsLast(j)
    ensures !(run.Frame(g, key, i) <= run.Frame(g, key, j))
  {
    FieldDecodes(|run.Ciphertext(g, key, i)|, true);
    FieldDecodes(|run.Ciphertext(g, key, j)|, false);
    assert run.Frame(g, key, i)[0] >= 128 > run.Frame(g, key, j)[0];
  }

  lemma ConcatFront(chunks: seq<Bytes>, m: nat, q: nat)
    requires m <= q <= |chunks|
    ensures |Concat(chunks[..m])| <= |Concat(chunks[..q])|
  {
    assert chunks[..q] == chunks[..m] + chunks[m..q];
    ConcatAppend(chunks[..m], chunks[m..q]);
  }

  /** No cut of any run that the replay begins with has more plaintext than its front. */
  lemma ReplayFitsNoCut(g: Gcm, key: Bytes, runs: seq<Run>, k: nat, l: nat, m: nat)
    requires g.Lawful() && SoundRuns(runs) && k < |runs| && l < |runs| && m <= |runs[l].chunks|
    requires TWO_32 <= NonLast(runs[k]) && runs[k].chunks[NonLast(runs[k]) - TWO_32] != []
    requires Cut(runs[l], m).Wire(g, key) <= Cut(runs[k], NonLast(runs[k])).Wire(g, key)
                                             + runs[k].Frame(g, key, NonLast(runs[k]) - TWO_32)
    ensures |Concat(runs[l].chunks[..m])| <= |Concat(runs[k].chunks[..NonLast(runs[k])])|
  {
    hide Run.Frames, Run.Frame, Concat, SoundRuns;
    var run, q := runs[k], NonLast(runs[k]);
    var front, again := Cut(run, q).Frames(g, key, 0), run.Frame(g, key, q - TWO_32);
    Assoc(Header(run.prefix), front, again);
    SoundRun(runs, k);
    SoundRun(runs, l);
    SamePrefix(g, key, runs, k, l, front + again, Cut(runs[l], m).Wire(g, key));
    if m <= q {
      ConcatFront(run.chunks, m, q);
    } else {
      NextCut(g, key, run, q);
      LastFrameDiffers(g, key, run, q, q - TWO_32);
      Assoc(Header(run.prefix), front, run.Frame(g, key, q));
      SameFront(Header(run.prefix) + front, run.Frame(g, key, q), again);
      assert false;
    }
  }

  /** The bound of `PrefixSafety` is exact: what is written is always the front of one run if and only if no
      run has 2^32 or more chunks that are not flagged as last. */
  lemma PrefixBound(g: Gcm, key: Bytes, runs: seq<Run>)
    requires g.Lawful() && |key| == KEY_SIZE && SoundRuns(runs) && NoEmptyChunks(runs)
    ensures WritesOnlyFronts(g, key, runs) <==> AllRunsFit(runs)
  {
    hide OpenFrames, OpenBytes, UnforgedStream, Run.Wire, Run.Frame, Concat;
    if AllRunsFit(runs) {
      forall data, end | UnforgedStream(g, key, runs, data)
        ensures IsFront(g, key, runs, data, OpenBytes(g, key, data, end, None).written)
      {
        PrefixSafety(g, key, runs, data, end, None);
      }
    } else {
      var k :| 0 <= k < |runs| && !CounterFits(runs[k]);
      var run, q := runs[k], NonLast(runs[k]);
      var data := Cut(run, q).Wire(g, key) + run.Frame(g, key, q - TWO_32);
      var written := OpenBytes(g, key, data, Eof, None).written;
      ChunkReplayed(g, key, runs, k, Eof);
      assert run.chunks[q - TWO_32] != [];
      forall l, m | 0 <= l < |runs| && 0 <= m <= |runs[l].chunks| && Cut(runs[l], m).Wire(g, key) <= data
        ensures |Concat(runs[l].chunks[..m])| < |written|
      {
        ReplayFitsNoCut(g, key, runs, k, l, m);
      }
    }
  }

  /** For the calls of the sealer, whose chunks are never empty before the last: none may have sealed 2^32 or
      more chunks that it did not flag as last. */
  lemma CallsPrefixBound(g: Gcm, key: Bytes, calls: seq<Call>)
    requires g.Lawful() && |key| == KEY_SIZE
    requires (forall i :: 0 <= i < |calls| ==> calls[i].Admissible()) && FreshPrefixes(calls)
    ensures WritesOnlyFronts(g, key, RunsOf(calls)) <==> AllRunsFit(RunsOf(calls))
  {
    hide WritesOnlyFronts, AllRunsFit, SoundRuns, SourceChunks;
    CallsAreSoundRuns(calls);
    forall k, i | 0 <= k < |calls| && 0 <= i < NonLast(RunsOf(calls)[k])
      ensures RunsOf(calls)[k].chunks[i] != []
    {
      SealedRunIsGood(calls[k].prefix, calls[k].data, calls[k].c, calls[k].end, calls[k].sealed);
    }
    PrefixBound(g, key, RunsOf(calls));
  }
}
