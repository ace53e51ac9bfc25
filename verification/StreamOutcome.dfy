/** The opener of stream.go once more, without its loop: what a call does is told from the bytes alone. */
module StreamOutcome {
  import opened Octets
  import opened Errors
  import opened Primitives
  import opened GoIO
  import opened StreamFormat
  import opened StreamSeal
  import opened StreamOpen
  import opened StreamRoundTrip
  import opened StreamSecurity

  /** The cipher's answer to `ct` as chunk `i`. */
  function Unseal(g: Gcm, key: Bytes, prefix: Bytes, i: nat, last: bool, ct: Bytes): Option<Bytes> {
    g.open(key, prefix + Be32(i % 0x1_0000_0000), Be32(i % 0x1_0000_0000) + [if last then 1 else 0], ct)
  }

  /** Chunks that open one after the other, the first of them as chunk `first`, none of them as the last. */
  ghost predicate Passed(g: Gcm, key: Bytes, prefix: Bytes, first: nat, cts: seq<Bytes>, pts: seq<Bytes>) {
    && |cts| == |pts|
    && forall j :: 0 <= j < |cts| ==>
         |cts[j]| < 0x8000_0000 && Unseal(g, key, prefix, first + j, false, cts[j]) == Some(pts[j])
  }

  /** Such chunks on the wire: no flag in the length. */
  function Framing(cts: seq<Bytes>): Bytes
    requires forall j :: 0 <= j < |cts| ==> |cts[j]| < 0x8000_0000
  {
    if cts == [] then [] else Be32(|cts[0]|) + cts[0] + Framing(cts[1..])
  }

  /** How a call ends that has written `sent`, consumed `at` bytes, and has `tail` ahead of it as chunk `i`:
      it does `o` in all. Does not hold if it goes on from there. */
  ghost predicate EndsHere(g: Gcm, key: Bytes, prefix: Bytes, i: nat, sent: Bytes, at: nat, tail: Bytes,
                           end: ReadEnd, room: Room, o: Opened) {
    if |tail| < 4 then
      o == Opened(sent, at + |tail|, Some(if end == Fault then ReadFault else Truncated))
    else
      var n := FromBe32(tail[..4]);
      var last := n >= 0x8000_0000;
      var len := if last then n - 0x8000_0000 else n;
      if |tail| < 4 + len then
        o == Opened(sent, at + |tail|, Some(InvalidCiphertext))
      else
        match Unseal(g, key, prefix, i, last, tail[4..4 + len])
        case None => o == Opened(sent, at + 4 + len, Some(Tampered))
        case Some(pt) =>
          if room.Some? && |sent| <= room.value < |sent| + |pt| then
            o == Opened((sent + pt)[..room.value], at + 4 + len, Some(WriteFault))
          else
            last && o == Opened(sent + pt, at + 4 + len, None)
  }

  /** The input is a header, chunks that pass and leave room, and then what ends the call. */
  ghost predicate Outcome(g: Gcm, key: Bytes, data: Bytes, end: ReadEnd, room: Room, o: Opened) {
    if |key| != 32 then o == Opened([], 0, Some(InvalidKey))
    else if |data| < 13 then o == Opened([], |data|, Some(InvalidCiphertext))
    else if data[..4] != [67, 82, 83, 86] then o == Opened([], 13, Some(InvalidCiphertext))
    else if data[4] != 1 then o == Opened([], 13, Some(UnsupportedVersion))
    else BodyOutcome(g, key, data[5..13], data[13..], end, room, o)
  }

  ghost predicate BodyOutcome(g: Gcm, key: Bytes, prefix: Bytes, body: Bytes, end: ReadEnd, room: Room, o: Opened) {
    exists cts, pts, tail :: EndsAfter(g, key, prefix, body, end, room, o, cts, pts, tail)
  }

  ghost predicate EndsAfter(g: Gcm, key: Bytes, prefix: Bytes, body: Bytes, end: ReadEnd, room: Room, o: Opened,
                            cts: seq<Bytes>, pts: seq<Bytes>, tail: Bytes) {
    && Passed(g, key, prefix, 0, cts, pts)
    && body == Framing(cts) + tail
    && (room.Some? ==> |Concat(pts)| <= room.value)
    && EndsHere(g, key, prefix, |cts|, Concat(pts), 13 + |Framing(cts)|, tail, end, room, o)
  }

  /** What the four bytes of a length field say. */
  lemma FieldSplits(f: Bytes)
    requires |f| == 4
    ensures var n := FromBe32(f);
            && (FieldLast(f) <==> n >= 0x8000_0000)
            && FieldLen(f) == (if n >= 0x8000_0000 then n - 0x8000_0000 else n) < 0x8000_0000
  {
  }

  lemma UnsealIsOpenChunk(g: Gcm, key: Bytes, prefix: Bytes, i: nat, last: bool, ct: Bytes)
    ensures OpenChunk(g, key, prefix, i, last, ct) == Unseal(g, key, prefix, i, last, ct)
  {
  }

  /** A frame that is all there. */
  lemma WholeFrame(ct: Bytes, rest: Bytes, end: ReadEnd)
    requires |ct| < 0x8000_0000
    ensures ParseFrame(Be32(|ct|) + ct + rest, end) == Framed(false, ct)
    ensures (Be32(|ct|) + ct + rest)[4 + |ct|..] == rest
  {
    var data := Be32(|ct|) + ct + rest;
    hide Be32, FromBe32, FieldLen;
    assert data[..4] == Be32(|ct|) && data[4..4 + |ct|] == ct;
    FieldSplits(data[..4]);
    Be32Inverse(|ct|, data[..4]);
  }

  /** And the other way round. */
  lemma FrameFound(data: Bytes, end: ReadEnd)
    requires ParseFrame(data, end).Framed? && !ParseFrame(data, end).last
    ensures var ct := ParseFrame(data, end).ct;
            |ct| < 0x8000_0000 && data == Be32(|ct|) + ct + data[4 + |ct|..]
  {
    hide Be32, FromBe32, FieldLen;
    var ct := ParseFrame(data, end).ct;
    FieldSplits(data[..4]);
    Be32Inverse(|ct|, data[..4]);
    assert data == data[..4] + data[4..4 + |ct|] + data[4 + |ct|..];
  }

  /** One chunk that passes: the loop goes round. */
  lemma PassStep(g: Gcm, key: Bytes, prefix: Bytes, i: nat, ct: Bytes, pt: Bytes, rest: Bytes, end: ReadEnd, room: Room)
    requires |ct| < 0x8000_0000 && Unseal(g, key, prefix, i, false, ct) == Some(pt) && Fits(|pt|, room)
    ensures OpenFrames(g, key, prefix, Be32(|ct|) + ct + rest, end, i, room)
         == OpenFrames(g, key, prefix, rest, end, i + 1, Shrink(room, |pt|)).After(pt, 4 + |ct|)
  {
    hide Be32, ParseFrame, OpenChunk, Unseal;
    WholeFrame(ct, rest, end);
    UnsealIsOpenChunk(g, key, prefix, i, false, ct);
  }

  lemma PassedTail(g: Gcm, key: Bytes, prefix: Bytes, first: nat, cts: seq<Bytes>, pts: seq<Bytes>)
    requires Passed(g, key, prefix, first, cts, pts) && cts != []
    ensures Unseal(g, key, prefix, first, false, cts[0]) == Some(pts[0])
    ensures Passed(g, key, prefix, first + 1, cts[1..], pts[1..])
  {
    hide Unseal;
    assert Unseal(g, key, prefix, first + 0, false, cts[0]) == Some(pts[0]);
    forall j | 0 <= j < |cts| - 1
      ensures |cts[1..][j]| < 0x8000_0000 && Unseal(g, key, prefix, first + 1 + j, false, cts[1..][j]) == Some(pts[1..][j])
    {
      assert Unseal(g, key, prefix, first + (j + 1), false, cts[j + 1]) == Some(pts[j + 1]);
    }
  }

  /** Chunks that pass, followed by anything. */
  lemma {:induction false} PassAll(g: Gcm, key: Bytes, prefix: Bytes, first: nat, cts: seq<Bytes>, pts: seq<Bytes>,
                                   tail: Bytes, end: ReadEnd, room: Room)
    requires Passed(g, key, prefix, first, cts, pts) && Fits(|Concat(pts)|, room)
    ensures OpenFrames(g, key, prefix, Framing(cts) + tail, end, first, room)
         == OpenFrames(g, key, prefix, tail, end, first + |cts|, Shrink(room, |Concat(pts)|))
            .After(Concat(pts), |Framing(cts)|)
    decreases |cts|
  {
    hide OpenFrames, Unseal, Be32;
    if cts == [] {
      assert Framing(cts) + tail == tail;
    } else {
      var rest := Framing(cts[1..]);
      PassedTail(g, key, prefix, first, cts, pts);
      Assoc(Be32(|cts[0]|) + cts[0], rest, tail);
      PassStep(g, key, prefix, first, cts[0], pts[0], rest + tail, end, room);
      PassAll(g, key, prefix, first + 1, cts[1..], pts[1..], tail, end, Shrink(room, |pts[0]|));
      AfterAfter(OpenFrames(g, key, prefix, tail, end, first + |cts|, Shrink(room, |Concat(pts)|)),
                 pts[0], 4 + |cts[0]|, Concat(pts[1..]), |rest|);
    }
  }

  /** The loop body on what ends the call. */
  lemma EndOfLoop(g: Gcm, key: Bytes, prefix: Bytes, i: nat, sent: Bytes, at: nat, tail: Bytes,
                  end: ReadEnd, room: Room, o: Opened)
    requires Fits(|sent|, room) && EndsHere(g, key, prefix, i, sent, at, tail, end, room, o)
    ensures OpenFrames(g, key, prefix, tail, end, i, Shrink(room, |sent|)).After(sent, at) == o
  {
    hide Be32, FromBe32, FieldLen, FieldLast, Unseal, OpenChunk;
    if |tail| >= 4 {
      FieldSplits(tail[..4]);
      if ParseFrame(tail, end).Framed? {
        var f := ParseFrame(tail, end);
        UnsealIsOpenChunk(g, key, prefix, i, f.last, f.ct);
        var u := Unseal(g, key, prefix, i, f.last, f.ct);
        if u.Some? && room.Some? && room.value < |sent| + |u.value| {
          assert sent + u.value[..room.value - |sent|] == (sent + u.value)[..room.value];
        }
      }
    }
  }

  /** The loop goes round here. */
  ghost predicate GoesOn(g: Gcm, key: Bytes, prefix: Bytes, i: nat, tail: Bytes, left: Room) {
    var f := ParseFrame(tail, Eof);
    f.Framed? && !f.last && match Unseal(g, key, prefix, i, false, f.ct) case None => false case Some(pt) => Fits(|pt|, left)
  }

  /** Where it does not, the call ends. */
  lemma EndFound(g: Gcm, key: Bytes, prefix: Bytes, i: nat, sent: Bytes, at: nat, tail: Bytes, end: ReadEnd, room: Room)
    requires Fits(|sent|, room) && !GoesOn(g, key, prefix, i, tail, Shrink(room, |sent|))
    ensures EndsHere(g, key, prefix, i, sent, at, tail, end, room,
                     OpenFrames(g, key, prefix, tail, end, i, Shrink(room, |sent|)).After(sent, at))
  {
    hide Be32, FromBe32, FieldLen, FieldLast, Unseal, OpenChunk;
    if |tail| >= 4 {
      FieldSplits(tail[..4]);
      if ParseFrame(tail, end).Framed? {
        var f := ParseFrame(tail, end);
        UnsealIsOpenChunk(g, key, prefix, i, f.last, f.ct);
        var u := Unseal(g, key, prefix, i, f.last, f.ct);
        if u.Some? && room.Some? && room.value < |sent| + |u.value| {
          assert sent + u.value[..room.value - |sent|] == (sent + u.value)[..room.value];
        }
      }
    }
  }

  /** From the loop back to the bytes: the chunks that pass, and what is behind them. */
  lemma {:induction false} FindEnd(g: Gcm, key: Bytes, prefix: Bytes, first: nat, body: Bytes, room: Room)
    returns (cts: seq<Bytes>, pts: seq<Bytes>, tail: Bytes)
    ensures Passed(g, key, prefix, first, cts, pts) && body == Framing(cts) + tail && Fits(|Concat(pts)|, room)
    ensures !GoesOn(g, key, prefix, first + |cts|, tail, Shrink(room, |Concat(pts)|))
    decreases |body|
  {
    hide Be32, Unseal, ParseFrame;
    cts, pts, tail := [], [], body;
    if GoesOn(g, key, prefix, first, body, room) {
      var ct := ParseFrame(body, Eof).ct;
      var pt := Unseal(g, key, prefix, first, false, ct).value;
      FrameFound(body, Eof);
      var cs, ps, t := FindEnd(g, key, prefix, first + 1, body[4 + |ct|..], Shrink(room, |pt|));
      cts, pts, tail := [ct] + cs, [pt] + ps, t;
      PassedMore(g, key, prefix, first, ct, pt, cs, ps);
      assert cts[1..] == cs && pts[1..] == ps;
      Assoc(Be32(|ct|) + ct, Framing(cs), t);
    }
  }

  lemma PassedMore(g: Gcm, key: Bytes, prefix: Bytes, first: nat, ct: Bytes, pt: Bytes, cts: seq<Bytes>, pts: seq<Bytes>)
    requires |ct| < 0x8000_0000 && Unseal(g, key, prefix, first, false, ct) == Some(pt)
    requires Passed(g, key, prefix, first + 1, cts, pts)
    ensures Passed(g, key, prefix, first, [ct] + cts, [pt] + pts)
  {
    hide Unseal;
    forall j | 0 < j < |cts| + 1
      ensures Unseal(g, key, prefix, first + j, false, ([ct] + cts)[j]) == Some(([pt] + pts)[j]) && |([ct] + cts)[j]| < 0x8000_0000
    {
      assert Unseal(g, key, prefix, first + 1 + (j - 1), false, cts[j - 1]) == Some(pts[j - 1]);
    }
  }

  lemma OutcomeFollows(g: Gcm, key: Bytes, prefix: Bytes, body: Bytes, end: ReadEnd, room: Room, o: Opened)
    requires BodyOutcome(g, key, prefix, body, end, room, o)
    ensures OpenFrames(g, key, prefix, body, end, 0, room).After([], 13) == o
  {
    hide OpenFrames, EndsHere, Unseal, Concat;
    var cts, pts, tail :| EndsAfter(g, key, prefix, body, end, room, o, cts, pts, tail);
    var sent, rest := Concat(pts), OpenFrames(g, key, prefix, tail, end, |cts|, Shrink(room, |Concat(pts)|));
    PassAll(g, key, prefix, 0, cts, pts, tail, end, room);
    EndOfLoop(g, key, prefix, |cts|, sent, 13 + |Framing(cts)|, tail, end, room, o);
    AfterAfter(rest, [], 13, sent, |Framing(cts)|);
    assert [] + sent == sent;
  }

  lemma OutcomeFound(g: Gcm, key: Bytes, prefix: Bytes, body: Bytes, end: ReadEnd, room: Room)
    ensures BodyOutcome(g, key, prefix, body, end, room, OpenFrames(g, key, prefix, body, end, 0, room).After([], 13))
  {
    hide OpenFrames, EndsHere, Unseal, GoesOn, Concat;
    var cts, pts, tail := FindEnd(g, key, prefix, 0, body, room);
    var sent, rest := Concat(pts), OpenFrames(g, key, prefix, tail, end, |cts|, Shrink(room, |Concat(pts)|));
    PassAll(g, key, prefix, 0, cts, pts, tail, end, room);
    EndFound(g, key, prefix, |cts|, sent, 13 + |Framing(cts)|, tail, end, room);
    AfterAfter(rest, [], 13, sent, |Framing(cts)|);
    assert [] + sent == sent;
    assert EndsAfter(g, key, prefix, body, end, room, OpenFrames(g, key, prefix, body, end, 0, room).After([], 13), cts, pts, tail);
  }

  /** What `OpenStream` writes, consumes and returns is exactly what the bytes say, for every input, reader
      end and writer. */
  lemma OpenExactly(g: Gcm, key: Bytes, data: Bytes, end: ReadEnd, room: Room, o: Opened)
    ensures OpenBytes(g, key, data, end, room) == o <==> Outcome(g, key, data, end, room, o)
  {
    hide OpenFrames, BodyOutcome;
    if |data| >= 13 {
      OutcomeFound(g, key, data[5..13], data[13..], end, room);
      if BodyOutcome(g, key, data[5..13], data[13..], end, room, o) {
        OutcomeFollows(g, key, data[5..13], data[13..], end, room, o);
      }
    }
  }

  /** A frame on the wire, flagged or not. */
  function Frame(last: bool, ct: Bytes): Bytes
    requires |ct| < 0x8000_0000
  {
    Be32(|ct| + (if last then 0x8000_0000 else 0)) + ct
  }

  /** Behind chunks that pass stands a whole frame that the cipher refuses. */
  ghost predicate RefusedChunk(g: Gcm, key: Bytes, prefix: Bytes, body: Bytes, room: Room) {
    exists cts, pts, last, ct, rest :: RefusedAfter(g, key, prefix, body, room, cts, pts, last, ct, rest)
  }

  ghost predicate RefusedAfter(g: Gcm, key: Bytes, prefix: Bytes, body: Bytes, room: Room,
                               cts: seq<Bytes>, pts: seq<Bytes>, last: bool, ct: Bytes, rest: Bytes) {
    && Passed(g, key, prefix, 0, cts, pts) && |ct| < 0x8000_0000
    && body == Framing(cts) + (Frame(last, ct) + rest)
    && (room.Some? ==> |Concat(pts)| <= room.value)
    && Unseal(g, key, prefix, |cts|, last, ct) == None
  }

  lemma FrameReads(last: bool, ct: Bytes, rest: Bytes)
    requires |ct| < 0x8000_0000
    ensures var tail := Frame(last, ct) + rest;
            && |tail| == 4 + |ct| + |rest|
            && FromBe32(tail[..4]) == |ct| + (if last then 0x8000_0000 else 0)
            && tail[4..4 + |ct|] == ct && tail[4 + |ct|..] == rest
  {
    hide Be32, FromBe32;
    var n := |ct| + (if last then 0x8000_0000 else 0);
    var tail := Frame(last, ct) + rest;
    assert tail[..4] == Be32(n);
    Be32Inverse(n, tail[..4]);
  }

  lemma ReadsFrame(tail: Bytes, last: bool, len: nat)
    requires 4 + len <= |tail| && len < 0x8000_0000
    requires FromBe32(tail[..4]) == len + (if last then 0x8000_0000 else 0)
    ensures tail == Frame(last, tail[4..4 + len]) + tail[4 + len..]
  {
    hide Be32, FromBe32;
    Be32Inverse(len + (if last then 0x8000_0000 else 0), tail[..4]);
    assert tail == tail[..4] + tail[4..4 + len] + tail[4 + len..];
  }

  lemma RefusedEnds(g: Gcm, key: Bytes, prefix: Bytes, i: nat, sent: Bytes, at: nat, last: bool, ct: Bytes, rest: Bytes,
                    end: ReadEnd, room: Room)
    requires |ct| < 0x8000_0000 && Unseal(g, key, prefix, i, last, ct) == None
    ensures EndsHere(g, key, prefix, i, sent, at, Frame(last, ct) + rest, end, room,
                     Opened(sent, at + 4 + |ct|, Some(Tampered)))
  {
    hide Unseal, Frame, FromBe32;
    FrameReads(last, ct, rest);
  }

  lemma RefusedIsOutcome(g: Gcm, key: Bytes, prefix: Bytes, body: Bytes, end: ReadEnd, room: Room)
    requires RefusedChunk(g, key, prefix, body, room)
    ensures exists sent, at :: BodyOutcome(g, key, prefix, body, end, room, Opened(sent, at, Some(Tampered)))
  {
    hide Unseal, Concat, Frame, Framing, EndsHere;
    var cts, pts, last, ct, rest :| RefusedAfter(g, key, prefix, body, room, cts, pts, last, ct, rest);
    var sent, at, tail := Concat(pts), 13 + |Framing(cts)|, Frame(last, ct) + rest;
    RefusedEnds(g, key, prefix, |cts|, sent, at, last, ct, rest, end, room);
    var o := Opened(sent, at + 4 + |ct|, Some(Tampered));
    assert EndsAfter(g, key, prefix, body, end, room, o, cts, pts, tail);
    assert BodyOutcome(g, key, prefix, body, end, room, o);
  }

  lemma OutcomeIsRefused(g: Gcm, key: Bytes, prefix: Bytes, body: Bytes, end: ReadEnd, room: Room, o: Opened)
    requires BodyOutcome(g, key, prefix, body, end, room, o) && o.err == Some(Tampered)
    ensures RefusedChunk(g, key, prefix, body, room)
  {
    hide Unseal, Concat, Frame, Framing, FromBe32;
    var cts, pts, tail :| EndsAfter(g, key, prefix, body, end, room, o, cts, pts, tail);
    var n := FromBe32(tail[..4]);
    var last := n >= 0x8000_0000;
    var len: nat := if last then n - 0x8000_0000 else n;
    ReadsFrame(tail, last, len);
    assert RefusedAfter(g, key, prefix, body, room, cts, pts, last, tail[4..4 + len], tail[4 + len..]);
  }

  /** `OpenStream` returns `ErrTampered` exactly when the cipher refuses a whole chunk behind chunks that all
      opened, for every input, reader end and writer. */
  lemma TamperedExactly(g: Gcm, key: Bytes, data: Bytes, end: ReadEnd, room: Room)
    ensures OpenBytes(g, key, data, end, room).err == Some(Tampered)
       <==> |key| == 32 && |data| >= 13 && data[..5] == [67, 82, 83, 86, 1]
            && RefusedChunk(g, key, data[5..13], data[13..], room)
  {
    hide OpenBytes, BodyOutcome, RefusedChunk;
    var o := OpenBytes(g, key, data, end, room);
    OpenExactly(g, key, data, end, room, o);
    if |data| >= 13 {
      assert data[..5] == data[..4] + [data[4]];
      if RefusedChunk(g, key, data[5..13], data[13..], room) {
        RefusedIsOutcome(g, key, data[5..13], data[13..], end, room);
        assert data[..5] == [67, 82, 83, 86, 1] ==> data[..4] == data[..5][..4] && data[4] == data[..5][4];
        var sent, at :| BodyOutcome(g, key, data[5..13], data[13..], end, room, Opened(sent, at, Some(Tampered)));
        OpenExactly(g, key, data, end, room, Opened(sent, at, Some(Tampered)));
      }
      if BodyOutcome(g, key, data[5..13], data[13..], end, room, o) && o.err == Some(Tampered) {
        OutcomeIsRefused(g, key, data[5..13], data[13..], end, room, o);
      }
    }
  }

  lemma RefusedHere(g: Gcm, key: Bytes, prefix: Bytes, i: nat, last: bool, ct: Bytes, rest: Bytes, end: ReadEnd)
    requires |ct| < 0x8000_0000 && Unseal(g, key, prefix, i, last, ct) == None
    ensures OpenFrames(g, key, prefix, Frame(last, ct) + rest, end, i, None) == Opened([], 4 + |ct|, Some(Tampered))
  {
    hide OpenFrames, Unseal, Frame, FromBe32, EndsHere;
    var tail, o := Frame(last, ct) + rest, Opened([], 4 + |ct|, Some(Tampered));
    RefusedEnds(g, key, prefix, i, [], 0, last, ct, rest, end, None);
    EndOfLoop(g, key, prefix, i, [], 0, tail, end, None, o);
    var found := OpenFrames(g, key, prefix, tail, end, i, None);
    assert [] + found.written == found.written;
  }

  /** A chunk of a stream was replaced or changed, so that the cipher refuses it: everything before it is
      written, and nothing else. */
  lemma ChangedChunk(g: Gcm, key: Bytes, run: Run, i: nat, last: bool, ct: Bytes, rest: Bytes, end: ReadEnd)
    requires g.Lawful() && |key| == 32 && run.WellFormed() && i <= |run.chunks| && (run.complete ==> i < |run.chunks|)
    requires |ct| < 0x8000_0000
    requires g.open(key, run.prefix + Be32(Wrap32(i)), Be32(Wrap32(i)) + [if last then 1 else 0], ct) == None
    ensures OpenBytes(g, key, Cut(run, i).Wire(g, key) + (Frame(last, ct) + rest), end, None)
         == Opened(Concat(run.chunks[..i]), |Cut(run, i).Wire(g, key)| + 4 + |ct|, Some(Tampered))
  {
    hide OpenFrames, OpenBytes, Frame, Run.Frames, Concat, EndsHere, FromBe32;
    var front, tail := Cut(run, i).Frames(g, key, 0), Frame(last, ct) + rest;
    Assoc(Header(run.prefix), front, tail);
    OpenWire(g, key, run.prefix, front + tail, end, None);
    RunPasses(g, key, run, 0, i, tail, end);
    RefusedHere(g, key, run.prefix, i, last, ct, rest, end);
    assert run.chunks[0..i] == run.chunks[..i];
  }
}
