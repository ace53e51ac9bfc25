/** What stream.go promises of streams that were not honestly produced.

    The cipher is idealised per call: every chunk of the given input that authenticates at its position is
    one the sealer made (`UnforgedStream`). The sealer's log is a sequence of runs, broken-off ones included. */
module StreamSecurity {
  import opened Octets
  import opened Errors
  import opened Primitives
  import opened GoIO
  import opened StreamFormat
  import opened StreamSeal
  import opened StreamOpen
  import opened StreamRoundTrip
  import opened Division

  /** One call of the cipher's `Seal` under the key. */
  datatype Entry = Entry(nonce: Bytes, aad: Bytes, ct: Bytes)

  function EntryOf(g: Gcm, key: Bytes, run: Run, j: nat): Entry
    requires j < |run.chunks|
  {
    Entry(StreamNonce(run.prefix, Wrap32(j)), StreamAad(Wrap32(j), run.IsLast(j)), run.Ciphertext(g, key, j))
  }

  ghost predicate InLog(g: Gcm, key: Bytes, runs: seq<Run>, e: Entry) {
    exists k, j :: 0 <= k < |runs| && 0 <= j < |runs[k].chunks| && EntryOf(g, key, runs[k], j) == e
  }

  /** A chunk is there and the cipher accepts it as chunk `i`. */
  ghost predicate Authenticates(g: Gcm, key: Bytes, prefix: Bytes, data: Bytes, i: nat) {
    var f := ParseFrame(data, Eof);
    f.Framed? && OpenChunk(g, key, prefix, i, f.last, f.ct).Some?
  }

  /** No chunk the opener accepts on its way through `data` is a forgery. */
  ghost predicate UnforgedFrames(g: Gcm, key: Bytes, runs: seq<Run>, prefix: Bytes, data: Bytes, i: nat)
    decreases |data|
  {
    var f := ParseFrame(data, Eof);
    Authenticates(g, key, prefix, data, i) ==>
      && InLog(g, key, runs, Entry(StreamNonce(prefix, Wrap32(i)), StreamAad(Wrap32(i), f.last), f.ct))
      && (!f.last ==> UnforgedFrames(g, key, runs, prefix, data[4 + |f.ct|..], i + 1))
  }

  /** The opener gets past the header. */
  predicate HasHeader(data: Bytes) {
    HEADER_SIZE <= |data| && data[..4] == MAGIC && data[4] == VERSION
  }

  ghost predicate UnforgedStream(g: Gcm, key: Bytes, runs: seq<Run>, data: Bytes) {
    HasHeader(data) ==> UnforgedFrames(g, key, runs, data[5..HEADER_SIZE], data[HEADER_SIZE..], 0)
  }

  /** Nonce prefixes never repeat. */
  ghost predicate SoundRuns(runs: seq<Run>) {
    && (forall k :: 0 <= k < |runs| ==> runs[k].WellFormed())
    && (forall k, l :: 0 <= k < l < |runs| ==> runs[k].prefix != runs[l].prefix)
  }

  /** The chunks not flagged as last leave the counter short of wrapping. A complete run so has at most 2^32
      chunks; a run that was broken off, whose end nothing marks, has fewer. */
  predicate CounterFits(run: Run) {
    |run.chunks| - (if run.complete then 1 else 0) < TWO_32
  }

  ghost predicate CompleteRunsFit(runs: seq<Run>) {
    forall k :: 0 <= k < |runs| && runs[k].complete ==> CounterFits(runs[k])
  }

  ghost predicate AllRunsFit(runs: seq<Run>) {
    forall k :: 0 <= k < |runs| ==> CounterFits(runs[k])
  }

  /** A length field is determined by what it decodes to. */
  lemma FieldEncodes(f: Bytes)
    requires |f| == 4
    ensures LenField(FieldLen(f), FieldLast(f)) == f
  {
    var low := [f[0] % 128] + f[1..];
    Be32Encodes(low);
    WrapKeeps(FieldLen(f));
    assert low[1..] == f[1..];
    assert [f[0]] + f[1..] == f;
  }

  /** An authentic chunk at position `i` of a stream with the prefix of run `k` is chunk `i` of that run. */
  lemma LoggedChunk(g: Gcm, key: Bytes, runs: seq<Run>, k: nat, i: nat, last: bool, ct: Bytes)
    requires SoundRuns(runs) && k < |runs| && |runs[k].chunks| <= TWO_32 && i < TWO_32
    requires InLog(g, key, runs, Entry(StreamNonce(runs[k].prefix, Wrap32(i)), StreamAad(Wrap32(i), last), ct))
    ensures i < |runs[k].chunks| && last == runs[k].IsLast(i) && ct == runs[k].Ciphertext(g, key, i)
  {
    var l, j :| 0 <= l < |runs| && 0 <= j < |runs[l].chunks|
      && EntryOf(g, key, runs[l], j)
      == Entry(StreamNonce(runs[k].prefix, Wrap32(i)), StreamAad(Wrap32(i), last), ct);
    NonceInjective(runs[l].prefix, Wrap32(j), runs[k].prefix, Wrap32(i));
    AadInjective(Wrap32(j), runs[l].IsLast(j), Wrap32(i), last);
    WrapKeeps(i);
    WrapKeeps(j);
  }

  lemma StopsHere(g: Gcm, key: Bytes, prefix: Bytes, data: Bytes, end: ReadEnd, i: nat)
    requires !Authenticates(g, key, prefix, data, i)
    ensures OpenFrames(g, key, prefix, data, end, i, None).written == []
    ensures OpenFrames(g, key, prefix, data, end, i, None).err.Some?
  {
  }

  /** What authenticates at position `i` is, byte for byte, the frame the run has there. */
  lemma FollowsOne(g: Gcm, key: Bytes, runs: seq<Run>, k: nat, data: Bytes, i: nat)
    requires SoundRuns(runs) && k < |runs| && CounterFits(runs[k]) && i < TWO_32
    requires UnforgedFrames(g, key, runs, runs[k].prefix, data, i)
    requires Authenticates(g, key, runs[k].prefix, data, i)
    ensures i < |runs[k].chunks| && runs[k].Frame(g, key, i) <= data
    ensures !runs[k].IsLast(i) ==>
      i + 1 < TWO_32 && UnforgedFrames(g, key, runs, runs[k].prefix, data[|runs[k].Frame(g, key, i)|..], i + 1)
  {
    var f := ParseFrame(data, Eof);
    LoggedChunk(g, key, runs, k, i, f.last, f.ct);
    FieldEncodes(data[..4]);
    assert runs[k].Frame(g, key, i) == data[..4] + data[4..4 + |f.ct|] == data[..4 + |f.ct|];
  }

  lemma FrameOfCut(g: Gcm, key: Bytes, run: Run, m: nat, i: nat)
    requires i < m <= |run.chunks|
    ensures Cut(run, m).Frames(g, key, i) == run.Frame(g, key, i) + Cut(run, m).Frames(g, key, i + 1)
  {
    FrameInCut(g, key, run, m, i);
  }

  /** Chunks `i` to `m` of a run, none of them the last, followed by anything: the opener goes through them
      and on. */
  lemma {:induction false} RunPasses(g: Gcm, key: Bytes, run: Run, i: nat, m: nat, tail: Bytes, end: ReadEnd)
    requires g.Lawful() && run.WellFormed() && i <= m <= |run.chunks| && (run.complete ==> m < |run.chunks|)
    ensures var front := Cut(run, m).Frames(g, key, i);
            OpenFrames(g, key, run.prefix, front + tail, end, i, None)
            == OpenFrames(g, key, run.prefix, tail, end, m, None).After(Concat(run.chunks[i..m]), |front|)
    decreases m - i
  {
    hide OpenFrames, Run.Frames, Run.Frame, Concat;
    var front := Cut(run, m).Frames(g, key, i);
    if i == m {
      NothingYet(g, key, run, i);
      assert front + tail == tail;
    } else {
      var frame, rest := run.Frame(g, key, i), Cut(run, m).Frames(g, key, i + 1);
      RunPasses(g, key, run, i + 1, m, tail, end);
      FrameOfCut(g, key, run, m, i);
      Assoc(frame, rest, tail);
      OpenStep(g, key, run, i, rest + tail, end);
      ConcatSlice(run.chunks, i, m);
      AfterAfter(OpenFrames(g, key, run.prefix, tail, end, m, None), run.chunks[i], |frame|,
                 Concat(run.chunks[i + 1..m]), |rest|);
    }
  }

  /** The opener, started on chunk `i` of run `k`: it writes chunks `i` to `m` of that run and nothing else,
      their frames are the bytes it read, and it returns nil only at the end of a complete run. */
  lemma {:induction false} Follows(g: Gcm, key: Bytes, runs: seq<Run>, k: nat, data: Bytes, end: ReadEnd, i: nat)
    returns (m: nat)
    requires g.Lawful() && SoundRuns(runs) && k < |runs| && CounterFits(runs[k])
    requires i <= |runs[k].chunks| && i < TWO_32
    requires UnforgedFrames(g, key, runs, runs[k].prefix, data, i)
    ensures i <= m <= |runs[k].chunks|
    ensures Cut(runs[k], m).Frames(g, key, i) <= data
    ensures var o := OpenFrames(g, key, runs[k].prefix, data, end, i, None);
            && o.written == Concat(runs[k].chunks[i..m])
            && (o.err.None? ==> runs[k].complete && m == |runs[k].chunks|
                                && o.consumed == |Cut(runs[k], m).Frames(g, key, i)|)
    decreases |data|
  {
    hide OpenFrames, UnforgedFrames, Run.Frames, Run.Frame, Authenticates, SoundRuns, Concat;
    var run := runs[k];
    m := i;
    if !Authenticates(g, key, run.prefix, data, i) {
      StopsHere(g, key, run.prefix, data, end, i);
      NothingYet(g, key, run, i);
    } else {
      FollowsOne(g, key, runs, k, data, i);
      RunsFit(runs, k, i);
      var frame := run.Frame(g, key, i);
      var rest := data[|frame|..];
      assert data == frame + rest;
      OpenStep(g, key, run, i, rest, end);
      m := i + 1;
      if run.IsLast(i) {
        NothingYet(g, key, run, m);
      } else {
        m := Follows(g, key, runs, k, rest, end, i + 1);
      }
      FrameOfCut(g, key, run, m, i);
      ConcatSlice(run.chunks, i, m);
    }
  }

  lemma NothingYet(g: Gcm, key: Bytes, run: Run, i: nat)
    requires i <= |run.chunks|
    ensures Cut(run, i).Frames(g, key, i) == [] && Concat(run.chunks[i..i]) == []
  {
  }

  lemma RunsFit(runs: seq<Run>, k: nat, i: nat)
    requires SoundRuns(runs) && k < |runs| && i < |runs[k].chunks|
    ensures |runs[k].chunks[i]| <= MAX_CHUNK_SIZE && |runs[k].prefix| == PREFIX_SIZE
  {
  }

  /** A stream under a prefix no run used gets nothing through. */
  lemma ForeignPrefix(g: Gcm, key: Bytes, runs: seq<Run>, prefix: Bytes, data: Bytes)
    requires SoundRuns(runs) && |prefix| == PREFIX_SIZE
    requires forall k :: 0 <= k < |runs| ==> runs[k].prefix != prefix
    requires UnforgedFrames(g, key, runs, prefix, data, 0)
    ensures !Authenticates(g, key, prefix, data, 0)
  {
    var f := ParseFrame(data, Eof);
    if Authenticates(g, key, prefix, data, 0) {
      var l, j :| 0 <= l < |runs| && 0 <= j < |runs[l].chunks|
        && EntryOf(g, key, runs[l], j) == Entry(StreamNonce(prefix, Wrap32(0)), StreamAad(Wrap32(0), f.last), f.ct);
      NonceInjective(runs[l].prefix, Wrap32(j), prefix, Wrap32(0));
    }
  }

  /** What one call of the opener amounts to: `m` chunks of run `k`, read and written verbatim, and nil only
      if that is the whole of a complete run; or nothing written and an error. */
  ghost predicate Delivers(g: Gcm, key: Bytes, runs: seq<Run>, data: Bytes, o: Opened, k: int, m: nat) {
    && 0 <= k < |runs| && m <= |runs[k].chunks|
    && Cut(runs[k], m).Wire(g, key) <= data
    && o.written == Concat(runs[k].chunks[..m])
    && (o.err.None? ==> runs[k].complete && m == |runs[k].chunks| && o.consumed == |runs[k].Wire(g, key)|)
  }

  ghost predicate Starts(data: Bytes, prefix: Bytes) {
    HEADER_SIZE <= |data| && data[..HEADER_SIZE] == Header(prefix)
  }

  lemma StartedBy(g: Gcm, key: Bytes, data: Bytes, prefix: Bytes, end: ReadEnd)
    requires |key| == KEY_SIZE && |prefix| == PREFIX_SIZE && Starts(data, prefix)
    ensures data[5..HEADER_SIZE] == prefix && data == Header(prefix) + data[HEADER_SIZE..]
    ensures OpenBytes(g, key, data, end, None)
         == OpenFrames(g, key, prefix, data[HEADER_SIZE..], end, 0, None).After([], HEADER_SIZE)
  {
    hide OpenFrames;
    assert data[5..HEADER_SIZE] == data[..HEADER_SIZE][5..];
    assert data == data[..HEADER_SIZE] + data[HEADER_SIZE..];
    OpenWire(g, key, prefix, data[HEADER_SIZE..], end, None);
  }

  /** A stream under the prefix of a run that left the counter unwrapped. */
  lemma RunDelivers(g: Gcm, key: Bytes, runs: seq<Run>, k: nat, data: Bytes, end: ReadEnd) returns (m: nat)
    requires g.Lawful() && |key| == KEY_SIZE && SoundRuns(runs) && UnforgedStream(g, key, runs, data)
    requires k < |runs| && CounterFits(runs[k]) && Starts(data, runs[k].prefix)
    ensures m <= |runs[k].chunks| && Delivers(g, key, runs, data, OpenBytes(g, key, data, end, None), k, m)
  {
    hide OpenFrames, OpenBytes, UnforgedFrames, Run.Frames, Authenticates, Concat;
    StartedBy(g, key, data, runs[k].prefix, end);
    m := Follows(g, key, runs, k, data[HEADER_SIZE..], end, 0);
    assert runs[k].chunks[0..m] == runs[k].chunks[..m];
    if m == |runs[k].chunks| {
      assert Cut(runs[k], m) == runs[k];
    }
  }

  /** A stream under the prefix of a run that was broken off, of whatever length: no chunk of it is the last. */
  lemma {:induction false} BrokenFramesNeverEnd(g: Gcm, key: Bytes, runs: seq<Run>, k: nat, data: Bytes, end: ReadEnd, i: nat)
    requires SoundRuns(runs) && k < |runs| && !runs[k].complete
    requires UnforgedFrames(g, key, runs, runs[k].prefix, data, i)
    ensures OpenFrames(g, key, runs[k].prefix, data, end, i, None).err.Some?
    decreases |data|
  {
    hide Wrap32, StreamNonce, StreamAad;
    if Authenticates(g, key, runs[k].prefix, data, i) {
      var f := ParseFrame(data, Eof);
      var l, j :| 0 <= l < |runs| && 0 <= j < |runs[l].chunks|
        && EntryOf(g, key, runs[l], j)
        == Entry(StreamNonce(runs[k].prefix, Wrap32(i)), StreamAad(Wrap32(i), f.last), f.ct);
      NonceInjective(runs[l].prefix, Wrap32(j), runs[k].prefix, Wrap32(i));
      AadInjective(Wrap32(j), runs[l].IsLast(j), Wrap32(i), f.last);
      BrokenFramesNeverEnd(g, key, runs, k, data[4 + |f.ct|..], end, i + 1);
    }
  }

  lemma NoRunStarts(g: Gcm, key: Bytes, runs: seq<Run>, data: Bytes, end: ReadEnd)
    requires SoundRuns(runs) && UnforgedStream(g, key, runs, data)
    requires forall k :: 0 <= k < |runs| ==> !Starts(data, runs[k].prefix)
    ensures var o := OpenBytes(g, key, data, end, None);
            o.written == [] && o.err.Some?
  {
    hide OpenFrames, UnforgedFrames, Authenticates;
    if |key| == KEY_SIZE && HasHeader(data) {
      var prefix := data[5..HEADER_SIZE];
      assert data[..HEADER_SIZE] == Header(prefix);
      ForeignPrefix(g, key, runs, prefix, data[HEADER_SIZE..]);
      StopsHere(g, key, prefix, data[HEADER_SIZE..], end, 0);
    }
  }

  lemma OpenDelivers(g: Gcm, key: Bytes, runs: seq<Run>, data: Bytes, end: ReadEnd) returns (k: int, m: nat)
    requires g.Lawful() && SoundRuns(runs) && AllRunsFit(runs) && UnforgedStream(g, key, runs, data)
    ensures var o := OpenBytes(g, key, data, end, None);
            (o.written == [] && o.err.Some?) || Delivers(g, key, runs, data, o, k, m)
  {
    hide OpenFrames, UnforgedStream, Run.Wire, Concat;
    k, m := 0, 0;
    if l :| 0 <= l < |runs| && Starts(data, runs[l].prefix) {
      if |key| == KEY_SIZE {
        m := RunDelivers(g, key, runs, l, data, end);
        k := l;
      }
    } else {
      NoRunStarts(g, key, runs, data, end);
    }
  }

  ghost predicate IsWhole(g: Gcm, key: Bytes, run: Run, o: Opened) {
    run.complete && o == Opened(Concat(run.chunks), |run.Wire(g, key)|, None)
  }

  /** Exact acceptance. The opener returns nil on just the byte strings that begin with the whole output of
      one complete run; it then has read that output and written that run's plaintext. Reordered, spliced,
      dropped, repeated or missing chunks all end in an error; bytes behind the last chunk are not read.
      Runs that were broken off may be of any length. */
  lemma ExactAcceptance(g: Gcm, key: Bytes, runs: seq<Run>, data: Bytes, end: ReadEnd)
    requires g.Lawful() && |key| == KEY_SIZE && SoundRuns(runs) && CompleteRunsFit(runs) && UnforgedStream(g, key, runs, data)
    ensures var o := OpenBytes(g, key, data, end, None);
            && (o.err.None? <==> exists k :: 0 <= k < |runs| && runs[k].complete && runs[k].Wire(g, key) <= data)
            && (o.err.None? ==> exists k :: 0 <= k < |runs| && runs[k].Wire(g, key) <= data && IsWhole(g, key, runs[k], o))
  {
    hide OpenFrames, UnforgedFrames, OpenBytes, Run.Wire, Concat;
    var o := OpenBytes(g, key, data, end, None);
    if k :| 0 <= k < |runs| && Starts(data, runs[k].prefix) {
      if CounterFits(runs[k]) {
        var m := RunDelivers(g, key, runs, k, data, end);
        if o.err.None? {
          assert runs[k].chunks[..m] == runs[k].chunks && Cut(runs[k], m) == runs[k];
          assert runs[k].Wire(g, key) <= data && IsWhole(g, key, runs[k], o);
        }
      } else {
        StartedBy(g, key, data, runs[k].prefix, end);
        BrokenFramesNeverEnd(g, key, runs, k, data[HEADER_SIZE..], end, 0);
      }
    } else {
      NoRunStarts(g, key, runs, data, end);
    }
    if k :| 0 <= k < |runs| && runs[k].complete && runs[k].Wire(g, key) <= data {
      var wire := runs[k].Wire(g, key);
      assert data == wire + data[|wire|..];
      WireOpens(g, key, runs[k], data[|wire|..], end);
    }
  }

  /** A writer of limited room gets the front of what an unlimited one would get. */
  lemma {:induction false} LimitedFrames(g: Gcm, key: Bytes, prefix: Bytes, data: Bytes, end: ReadEnd, i: nat, room: Room)
    ensures var full := OpenFrames(g, key, prefix, data, end, i, None);
            var o := OpenFrames(g, key, prefix, data, end, i, room);
            && o.written == Take(full.written, room)
            && (if Fits(|full.written|, room) then o == full else o.err == Some(WriteFault))
    decreases |data|
  {
    if Authenticates(g, key, prefix, data, i) {
      var f := ParseFrame(data, end);
      var pt := OpenChunk(g, key, prefix, i, f.last, f.ct).value;
      var rest := data[4 + |f.ct|..];
      LimitedFrames(g, key, prefix, rest, end, i + 1, Shrink(room, |pt|));
      TakeAppend(pt, OpenFrames(g, key, prefix, rest, end, i + 1, None).written, room);
    }
  }

  /** Prefix safety. Whatever the input, the error and the writer, all that was ever written is the front of
      the plaintext of one run; a writer that takes chunks whole has whole chunks. */
  lemma PrefixSafety(g: Gcm, key: Bytes, runs: seq<Run>, data: Bytes, end: ReadEnd, room: Room)
    requires g.Lawful() && SoundRuns(runs) && AllRunsFit(runs) && UnforgedStream(g, key, runs, data)
    ensures var o := OpenBytes(g, key, data, end, room);
            o.written != [] ==>
              exists k, m :: 0 <= k < |runs| && 0 <= m <= |runs[k].chunks| && Cut(runs[k], m).Wire(g, key) <= data
                             && o.written == Take(Concat(runs[k].chunks[..m]), room)
  {
    hide OpenFrames, UnforgedStream, Run.Wire, Concat;
    var k, m := OpenDelivers(g, key, runs, data, end);
    if |key| == KEY_SIZE && HEADER_SIZE <= |data| {
      LimitedFrames(g, key, data[5..HEADER_SIZE], data[HEADER_SIZE..], end, 0, room);
    }
  }

  lemma {:induction false} HonestFrames(g: Gcm, key: Bytes, runs: seq<Run>, k: nat, i: nat, tail: Bytes)
    requires g.Lawful() && SoundRuns(runs) && k < |runs| && runs[k].complete && i < |runs[k].chunks|
    ensures UnforgedFrames(g, key, runs, runs[k].prefix, runs[k].Frames(g, key, i) + tail, i)
    decreases |runs[k].chunks| - i
  {
    var run := runs[k];
    var frame, rest := run.Frame(g, key, i), run.Frames(g, key, i + 1) + tail;
    assert run.Frames(g, key, i) + tail == frame + rest;
    FrameParses(g, key, run, i, rest, Eof);
    assert EntryOf(g, key, runs[k], i)
        == Entry(StreamNonce(run.prefix, Wrap32(i)), StreamAad(Wrap32(i), run.IsLast(i)), run.Ciphertext(g, key, i));
    if !run.IsLast(i) {
      assert (frame + rest)[|frame|..] == rest;
      HonestFrames(g, key, runs, k, i + 1, tail);
    }
  }

  /** The hypothesis is met by every honest stream, under every lawful cipher, whatever follows it. */
  lemma HonestIsUnforged(g: Gcm, key: Bytes, runs: seq<Run>, k: nat, tail: Bytes)
    requires g.Lawful() && SoundRuns(runs) && k < |runs| && runs[k].complete
    ensures UnforgedStream(g, key, runs, runs[k].Wire(g, key) + tail)
  {
    hide Run.Frames, UnforgedFrames;
    var run := runs[k];
    var data := run.Wire(g, key) + tail;
    assert data[5..HEADER_SIZE] == run.prefix && data[HEADER_SIZE..] == run.Frames(g, key, 0) + tail;
    HonestFrames(g, key, runs, k, 0, tail);
  }

  /** A cipher, a key, a log and an input that meet all hypotheses of `ExactAcceptance` at once. */
  lemma HypothesesAreMet() returns (key: Bytes, runs: seq<Run>, data: Bytes)
    ensures TOY_GCM.Lawful() && |key| == KEY_SIZE && SoundRuns(runs) && AllRunsFit(runs) && UnforgedStream(TOY_GCM, key, runs, data)
    ensures OpenBytes(TOY_GCM, key, data, Eof, None).err.None?
    ensures OpenBytes(TOY_GCM, key, data, Eof, None).written == [104, 105]
  {
    hide OpenBytes, UnforgedStream, Run.Frames, Run.Frame;
    ToyGcmIsLawful();
    key := seq(KEY_SIZE, _ => 7);
    var whole := Run(seq(PREFIX_SIZE, _ => 1), [[104], [105]], true);
    var broken := Run(seq(PREFIX_SIZE, _ => 2), [[111]], false);
    assert whole.prefix[0] != broken.prefix[0];
    runs := [whole, broken];
    data := whole.Wire(TOY_GCM, key) + [9];
    HonestIsUnforged(TOY_GCM, key, runs, 0, [9]);
    WireOpens(TOY_GCM, key, whole, [9], Eof);
    assert Concat([[105 as byte]]) == [105] && Concat(whole.chunks) == [104] + Concat([[105 as byte]]);
  }

  /** What one call of `SealStream` adds to the log, however and wherever the call ended: a well-formed run
      over the front of its input. It leaves the counter unwrapped if the input stays under 2^32 chunks'
      worth of bytes, and a complete run does so only then. */
  lemma SealedRunIsGood(prefix: Bytes, data: Bytes, c: nat, end: ReadEnd, sealed: nat)
    requires |prefix| == PREFIX_SIZE && 0 < c <= MAX_CHUNK_SIZE
    requires sealed <= |SourceChunks(data, c, end)|
    ensures var run := Cut(SourceRun(prefix, data, c, end), sealed);
            && run.WellFormed() && Concat(run.chunks) <= data
            && (run.complete ==> Concat(run.chunks) == data && (CounterFits(run) <==> |data| < TWO_32 * c))
            && (|data| < TWO_32 * c ==> CounterFits(run))
            && (forall i :: 0 <= i < |run.chunks| && !run.IsLast(i) ==> |run.chunks[i]| == c)
  {
    hide SourceChunks, Concat, Quot, Rem;
    SourceRunWellFormed(prefix, data, c, end);
    ChunksShape(data, c, end);
    QuotRem(|data|, c);
    DivBound(|data|, c, TWO_32);
    EndingsCompared(data, c, end);
    var run := SourceRun(prefix, data, c, end);
    if sealed <= Quot(|data|, c) {
      SourcePrefix(data, c, sealed);
      assert run.chunks[..sealed] == SourceChunks(data, c, Eof)[..sealed];
    }
    if sealed == |run.chunks| {
      assert run.chunks[..sealed] == run.chunks;
    }
  }

  /** A call of `SealStream` that got past its argument checks: nonce prefix, input and how it ended, chunk
      size, and how many chunks it sealed before it returned. */
  datatype Call = Call(prefix: Bytes, data: Bytes, c: nat, end: ReadEnd, sealed: nat)
  {
    predicate Admissible() {
      && |prefix| == PREFIX_SIZE && 0 < c <= MAX_CHUNK_SIZE
      && sealed <= |SourceChunks(data, c, end)|
    }

    function Sealed(): Run
      requires Admissible()
    {
      Cut(SourceRun(prefix, data, c, end), sealed)
    }
  }

  function RunsOf(calls: seq<Call>): (runs: seq<Run>)
    requires forall i :: 0 <= i < |calls| ==> calls[i].Admissible()
    ensures |runs| == |calls| && forall i :: 0 <= i < |calls| ==> runs[i] == calls[i].Sealed()
  {
    seq(|calls|, i requires 0 <= i < |calls| => calls[i].Sealed())
  }

  ghost predicate FreshPrefixes(calls: seq<Call>) {
    forall i, j :: 0 <= i < j < |calls| ==> calls[i].prefix != calls[j].prefix
  }

  /** The calls that finished had inputs under 2^32 chunks' worth of bytes. */
  ghost predicate FinishedCallsFit(calls: seq<Call>)
    requires forall i :: 0 <= i < |calls| ==> calls[i].Admissible()
  {
    forall i :: 0 <= i < |calls| && calls[i].Sealed().complete ==> |calls[i].data| < TWO_32 * calls[i].c
  }

  lemma CallsAreSoundRuns(calls: seq<Call>)
    requires (forall i :: 0 <= i < |calls| ==> calls[i].Admissible()) && FreshPrefixes(calls)
    ensures SoundRuns(RunsOf(calls))
    ensures FinishedCallsFit(calls) <==> CompleteRunsFit(RunsOf(calls))
  {
    hide SourceChunks, CounterFits;
    forall i | 0 <= i < |calls|
      ensures var run := RunsOf(calls)[i];
              run.WellFormed() && (run.complete ==> (CounterFits(run) <==> |calls[i].data| < TWO_32 * calls[i].c))
    {
      SealedRunIsGood(calls[i].prefix, calls[i].data, calls[i].c, calls[i].end, calls[i].sealed);
    }
    if FinishedCallsFit(calls) {
      forall k | 0 <= k < |calls| && RunsOf(calls)[k].complete
        ensures CounterFits(RunsOf(calls)[k])
      {
      }
    }
  }

  /** The opener returned nil on `data` because of this call: it is the call's whole output, followed by
      anything, and what the opener wrote is the call's whole input. */
  ghost predicate Answers(g: Gcm, key: Bytes, call: Call, data: Bytes, o: Opened)
    requires call.Admissible()
  {
    && call.Sealed().complete && call.Sealed().Wire(g, key) <= data
    && o == Opened(call.data, |call.Sealed().Wire(g, key)|, None)
  }

  /** `OpenStream` against any number of `SealStream` calls under one key, finished or not: nil means the
      whole input of one finished call, and every finished call's output is accepted. */
  lemma OpenAnswersSeal(g: Gcm, key: Bytes, calls: seq<Call>, data: Bytes, end: ReadEnd)
    requires g.Lawful() && |key| == KEY_SIZE
    requires (forall i :: 0 <= i < |calls| ==> calls[i].Admissible()) && FreshPrefixes(calls)
    requires FinishedCallsFit(calls) && UnforgedStream(g, key, RunsOf(calls), data)
    ensures var o := OpenBytes(g, key, data, end, None);
            && (o.err.None? <==> exists k :: 0 <= k < |calls| && Answers(g, key, calls[k], data, o))
            && forall k :: 0 <= k < |calls| && calls[k].Sealed().complete && calls[k].Sealed().Wire(g, key) <= data
                 ==> Answers(g, key, calls[k], data, o)
  {
    hide OpenBytes, UnforgedStream, SourceChunks, Run.Wire, SoundRuns, CompleteRunsFit;
    var runs, o := RunsOf(calls), OpenBytes(g, key, data, end, None);
    CallsAreSoundRuns(calls);
    ExactAcceptance(g, key, runs, data, end);
    forall k | 0 <= k < |calls| && calls[k].Sealed().complete
      ensures Concat(calls[k].Sealed().chunks) == calls[k].data
    {
      SealedRunIsGood(calls[k].prefix, calls[k].data, calls[k].c, calls[k].end, calls[k].sealed);
    }
    forall k | 0 <= k < |calls| && calls[k].Sealed().complete && calls[k].Sealed().Wire(g, key) <= data
      ensures Answers(g, key, calls[k], data, o)
    {
      var wire := runs[k].Wire(g, key);
      SealedRunIsGood(calls[k].prefix, calls[k].data, calls[k].c, calls[k].end, calls[k].sealed);
      assert data == wire + data[|wire|..];
      WireOpens(g, key, runs[k], data[|wire|..], end);
    }
  }
}
