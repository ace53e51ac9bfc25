/** The reading loop of stream.go and the function on byte strings that it computes. */
module StreamOpen {
  import opened Octets
  import opened Errors
  import opened Primitives
  import opened GoIO
  import opened StreamFormat
  import opened StreamSeal

  /** What one call of the opener does: bytes written, bytes consumed, and the error or nil. */
  datatype Opened = Opened(written: Bytes, consumed: nat, err: Option<Error>)
  {
    /** The whole of a call that first wrote `p` and consumed `n` bytes, and then did `this`. */
    function After(p: Bytes, n: nat): Opened {
      Opened(p + written, n + consumed, err)
    }
  }

  lemma AfterAfter(o: Opened, p: Bytes, m: nat, q: Bytes, n: nat)
    ensures o.After(q, n).After(p, m) == o.After(p + q, m + n)
  {
    assert p + (q + o.written) == (p + q) + o.written;
  }

  /** What the next two reads find: a flagged chunk, or the error for a stream that stops here. */
  datatype Parsed = NoFrame(error: Error) | Framed(last: bool, ct: Bytes)

  function ParseFrame(data: Bytes, end: ReadEnd): (f: Parsed)
    ensures f.Framed? ==> 4 + |f.ct| <= |data| && f.ct == data[4..4 + |f.ct|]
  {
    if |data| < 4 then NoFrame(if end == Fault then ReadFault else Truncated)
    else
      var n := FieldLen(data[..4]);
      if |data| - 4 < n then NoFrame(InvalidCiphertext) else Framed(FieldLast(data[..4]), data[4..4 + n])
  }

  function OpenChunk(g: Gcm, key: Bytes, prefix: Bytes, i: nat, last: bool, ct: Bytes): Option<Bytes> {
    g.open(key, StreamNonce(prefix, Wrap32(i)), StreamAad(Wrap32(i), last), ct)
  }

  /** Chunk `i` and later. */
  function OpenFrames(g: Gcm, key: Bytes, prefix: Bytes, data: Bytes, end: ReadEnd, i: nat, room: Room): (o: Opened)
    ensures o.consumed <= |data|
    decreases |data|
  {
    match ParseFrame(data, end)
    case NoFrame(e) => Opened([], |data|, Some(e))
    case Framed(last, ct) =>
      match OpenChunk(g, key, prefix, i, last, ct)
      case None => Opened([], 4 + |ct|, Some(Tampered))
      case Some(pt) =>
        if !Fits(|pt|, room) then Opened(Take(pt, room), 4 + |ct|, Some(WriteFault))
        else if last then Opened(pt, 4 + |ct|, None)
        else OpenFrames(g, key, prefix, data[4 + |ct|..], end, i + 1, Shrink(room, |pt|)).After(pt, 4 + |ct|)
  }

  function OpenBytes(g: Gcm, key: Bytes, data: Bytes, end: ReadEnd, room: Room): (o: Opened)
    ensures o.consumed <= |data|
  {
    if |key| != KEY_SIZE then Opened([], 0, Some(InvalidKey))
    else if |data| < HEADER_SIZE then Opened([], |data|, Some(InvalidCiphertext))
    else if data[..4] != MAGIC then Opened([], HEADER_SIZE, Some(InvalidCiphertext))
    else if data[4] != VERSION then Opened([], HEADER_SIZE, Some(UnsupportedVersion))
    else OpenFrames(g, key, data[5..HEADER_SIZE], data[HEADER_SIZE..], end, 0, room).After([], HEADER_SIZE)
  }

  lemma HeaderParts(header: Bytes, data: Bytes)
    requires HEADER_SIZE <= |data| && header == data[..HEADER_SIZE]
    ensures header[..4] == data[..4] && header[4] == data[4] && header[5..] == data[5..HEADER_SIZE]
  {
  }

  /** The header, checked up to the nonce prefix. */
  method ReadHeader(r: Reader) returns (err: Option<Error>, prefix: Bytes)
    requires r.Valid()
    modifies r
    ensures r.Valid()
    ensures var data := old(r.Rest());
            && err == (if |data| < HEADER_SIZE || data[..4] != MAGIC then Some(InvalidCiphertext)
                       else if data[4] != VERSION then Some(UnsupportedVersion) else None)
            && r.Rest() == (if |data| < HEADER_SIZE then [] else data[HEADER_SIZE..])
            && (err.None? ==> prefix == data[5..HEADER_SIZE])
  {
    prefix := [];
    ghost var data := r.Rest();
    var header := new byte[HEADER_SIZE](_ => 0);
    var n, e := r.ReadFull(header);
    if e.Some? {
      return Some(InvalidCiphertext), prefix;
    }
    assert header[..] == header[..n];
    HeaderParts(header[..], data);
    if header[..][..4] != MAGIC {
      return Some(InvalidCiphertext), prefix;
    }
    if header[..][4] != VERSION {
      return Some(UnsupportedVersion), prefix;
    }
    return None, header[..][5..];
  }

  /** `OpenStream` */
  method OpenStream(g: Gcm, key: Bytes, r: Reader, w: Writer) returns (err: Option<Error>)
    requires r.Valid()
    modifies r, w
    ensures r.Valid()
    ensures var o := OpenBytes(g, key, old(r.Rest()), r.end, old(w.room));
            && w.out == old(w.out) + o.written
            && r.Rest() == old(r.Rest())[o.consumed..]
            && err == o.err
  {
    hide OpenFrames;
    if |key| != KEY_SIZE {
      return Some(InvalidKey);
    }
    var e, prefix := ReadHeader(r);
    if e.Some? {
      return e;
    }
    err := OpenChunks(g, key, r, w, prefix);
  }

  /** What follows from the four bytes of the length field. */
  lemma FieldDecides(rest: Bytes, end: ReadEnd)
    requires 4 <= |rest|
    ensures var field, body := rest[..4], rest[4..];
            var n := FieldLen(field);
            && ParseFrame(rest, end)
            == (if |body| < n then NoFrame(InvalidCiphertext) else Framed(FieldLast(field), body[..n]))
            && (n <= |body| ==> body[n..] == rest[4 + n..])
  {
  }

  /** The length field of the next chunk, with the flag taken out of it. */
  method ReadLenField(r: Reader) returns (err: Option<Error>, last: bool, n: uint32)
    requires r.Valid()
    modifies r
    ensures r.Valid()
    ensures var rest := old(r.Rest());
            && err == (if 4 <= |rest| then None else Some(if r.end == Fault then ReadFault else Truncated))
            && r.Rest() == (if 4 <= |rest| then rest[4..] else [])
            && (4 <= |rest| ==> last == FieldLast(rest[..4]) && n == FieldLen(rest[..4]))
  {
    hide FromBe32;
    last, n := false, 0;
    var lenField := new byte[4](_ => 0);
    var got, e := r.ReadFull(lenField);
    if e.Some? {
      return Some(if e.value == Fault then ReadFault else Truncated), last, n;
    }
    ghost var field := lenField[..];
    assert field == lenField[..got];
    last := lenField[0] >= 128;
    lenField[0] := lenField[0] % 128;
    assert lenField[..] == [field[0] % 128] + field[1..];
    n := FromBe32(lenField[..]);
    err := None;
  }

  /** The two reads of one turn of the loop: length field, then as many bytes as it says. */
  method ReadChunk(r: Reader) returns (f: Parsed)
    requires r.Valid()
    modifies r
    ensures r.Valid() && f == ParseFrame(old(r.Rest()), r.end)
    ensures r.Rest() == if f.Framed? then old(r.Rest())[4 + |f.ct|..] else []
  {
    ghost var rest := r.Rest();
    var err, isLast, ctLen := ReadLenField(r);
    if err.Some? {
      return NoFrame(err.value);
    }
    hide ParseFrame, FieldLen, FieldLast;
    FieldDecides(rest, r.end);
    var ct := new byte[ctLen](_ => 0);
    var n, e := r.ReadFull(ct);
    if e.Some? {
      return NoFrame(InvalidCiphertext);
    }
    assert ct[..] == ct[..n];
    return Framed(isLast, ct[..]);
  }

  method DecryptChunk(g: Gcm, key: Bytes, prefix: Bytes, counter: uint32, isLast: bool, ct: Bytes)
    returns (pt: Option<Bytes>)
    requires |prefix| == PREFIX_SIZE
    ensures pt == g.open(key, StreamNonce(prefix, counter), StreamAad(counter, isLast), ct)
  {
    var nonce := MakeStreamNonce(prefix, counter);
    var aad := MakeStreamAad(counter, isLast);
    pt := g.open(key, nonce[..], aad[..], ct);
  }

  /** One turn of the chunk loop; `more` says that it goes round again. */
  method OpenTurn(g: Gcm, key: Bytes, r: Reader, w: Writer, prefix: Bytes, counter: uint32, ghost i: nat)
    returns (more: bool, err: Option<Error>, ghost pt: Bytes, ghost used: nat)
    requires r.Valid() && |prefix| == PREFIX_SIZE && counter == Wrap32(i)
    modifies r, w
    ensures r.Valid() && used <= |old(r.Rest())|
    ensures w.out == old(w.out) + pt && r.Rest() == old(r.Rest())[used..]
    ensures var o := OpenFrames(g, key, prefix, old(r.Rest()), r.end, i, old(w.room));
            if more
            then 0 < used && o == OpenFrames(g, key, prefix, r.Rest(), r.end, i + 1, w.room).After(pt, used)
            else o == Opened(pt, used, err)
  {
    pt, used, err, more := [], |r.Rest()|, None, false;
    var f := ReadChunk(r);
    if f.NoFrame? {
      err := Some(f.error);
      return;
    }
    used := 4 + |f.ct|;
    var plain := DecryptChunk(g, key, prefix, counter, f.last, f.ct);
    if plain.None? {
      err := Some(Tampered);
      return;
    }
    pt := Take(plain.value, w.room);
    var ok := w.Write(plain.value);
    if !ok {
      err := Some(WriteFault);
      return;
    }
    more := !f.last;
  }

  /** The chunk loop, entered once the header is read. */
  method OpenChunks(g: Gcm, key: Bytes, r: Reader, w: Writer, prefix: Bytes) returns (err: Option<Error>)
    requires r.Valid() && |prefix| == PREFIX_SIZE
    modifies r, w
    ensures r.Valid()
    ensures var o := OpenFrames(g, key, prefix, old(r.Rest()), r.end, 0, old(w.room));
            && w.out == old(w.out) + o.written
            && r.Rest() == old(r.Rest())[o.consumed..]
            && err == o.err
  {
    hide OpenFrames, Wrap32;
    WrapKeeps(0);
    var counter: uint32 := 0;
    ghost var i: nat, sent: Bytes, used: nat := 0, [], 0;
    ghost var data, before := r.Rest(), w.out;
    ghost var o := OpenFrames(g, key, prefix, data, r.end, 0, w.room);
    while true
      invariant r.Valid() && counter == Wrap32(i)
      invariant used <= |data| && r.Rest() == data[used..] && w.out == before + sent
      invariant o == OpenFrames(g, key, prefix, r.Rest(), r.end, i, w.room).After(sent, used)
      decreases |r.Rest()|
    {
      var more, e, pt, n := OpenTurn(g, key, r, w, prefix, counter, i);
      Assoc(before, sent, pt);
      DropDrop(data, used, n);
      if !more {
        return e;
      }
      AfterAfter(OpenFrames(g, key, prefix, r.Rest(), r.end, i + 1, w.room), sent, used, pt, n);
      WrapNext(i);
      counter := Next32(counter);
      sent, used, i := sent + pt, used + n, i + 1;
    }
  }
}
