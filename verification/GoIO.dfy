/** The readers and writers a stream runs between, with a fault that can be placed anywhere. */
module GoIO {
  import opened Octets

  /** What a reader reports once its data is exhausted. */
  datatype ReadEnd = Eof | UnexpectedEof | Fault

  /** Space left in a writer before it faults; `None` never faults. */
  type Room = Option<nat>

  predicate Fits(n: nat, room: Room) {
    room.None? || n <= room.value
  }

  /** The part of `p` a writer accepts. */
  function Take(p: Bytes, room: Room): Bytes {
    if Fits(|p|, room) then p else p[..room.value]
  }

  function Shrink(room: Room, n: nat): Room {
    if room.None? then None else if n <= room.value then Some(room.value - n) else Some(0)
  }

  lemma TakeAppend(a: Bytes, b: Bytes, room: Room)
    ensures Fits(|a| + |b|, room) <==> Fits(|a|, room) && Fits(|b|, Shrink(room, |a|))
    ensures Take(a + b, room) == if Fits(|a|, room) then a + Take(b, Shrink(room, |a|)) else Take(a, room)
  {
  }

  /** A write that follows others which all fitted. */
  lemma WriteMore(before: Bytes, sent: Bytes, p: Bytes, room: Room)
    requires Fits(|sent|, room)
    ensures (before + sent) + Take(p, Shrink(room, |sent|)) == before + Take(sent + p, room)
    ensures Shrink(Shrink(room, |sent|), |p|) == Shrink(room, |sent + p|)
    ensures Fits(|p|, Shrink(room, |sent|)) <==> Fits(|sent + p|, room)
  {
    TakeAppend(sent, p, room);
    assert (before + sent) + Take(p, Shrink(room, |sent|)) == before + (sent + Take(p, Shrink(room, |sent|)));
  }

  class Reader {
    const data: Bytes
    const end: ReadEnd
    var pos: nat

    constructor (data: Bytes, end: ReadEnd)
      ensures this.data == data && this.end == end && Valid() && Rest() == data
    {
      this.data, this.end, pos := data, end, 0;
    }

    ghost predicate Valid()
      reads this
    {
      pos <= |data|
    }

    ghost function Rest(): Bytes
      requires Valid()
      reads this
    {
      data[pos..]
    }

    /** `io.ReadFull`: fills `buf`, or reports why it could not. */
    method ReadFull(buf: array<byte>) returns (n: nat, err: Option<ReadEnd>)
      requires Valid()
      modifies this, buf
      ensures Valid() && n <= buf.Length && n <= |old(Rest())|
      ensures buf[..n] == old(Rest())[..n] && Rest() == old(Rest())[n..]
      ensures err.None? <==> n == buf.Length
      ensures n < buf.Length ==> Rest() == [] && n == |old(Rest())|
      ensures err.Some? ==> err.value == if end == Eof && 0 < n then UnexpectedEof else end
    {
      n := if buf.Length <= |data| - pos then buf.Length else |data| - pos;
      forall i | 0 <= i < n {
        buf[i] := data[pos + i];
      }
      pos := pos + n;
      if n == buf.Length {
        err := None;
      } else {
        err := Some(if end == Eof && 0 < n then UnexpectedEof else end);
      }
    }
  }

  /** A writer that takes bytes while it has room and reports a short write when it runs out. */
  class Writer {
    var out: Bytes
    var room: Room

    constructor (room: Room)
      ensures out == [] && this.room == room
    {
      out := [];
      this.room := room;
    }

    method Write(p: Bytes) returns (ok: bool)
      modifies this
      ensures out == old(out) + Take(p, old(room))
      ensures room == Shrink(old(room), |p|)
      ensures ok <==> Fits(|p|, old(room))
    {
      ok := Fits(|p|, room);
      out := out + Take(p, room);
      room := Shrink(room, |p|);
    }
  }
}
