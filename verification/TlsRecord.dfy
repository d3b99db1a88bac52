/**
 Reading the first TLS record without losing a byte (bin/yip-rendezvous/src/reality_io.rs). The client's stream is the
 chunks that arrive before the reads are cut short, by end of stream, an error or the deadline, and whatever it still
 sends after the cut; a splice passes on both.
 */
module TlsRecord {
  import opened Prelude
  import opened Wire

  const MaxBody: nat := 16_384

  datatype FirstRecord = Complete(record: Bytes) | Passthrough(bytes: Bytes) | Empty

  class Socket {
    var pending: seq<Bytes>
    const late: Bytes

    /** What can still be read before the cut. */
    function Timely(): Bytes
      reads this
    {
      Concat(pending)
    }

    /** Everything the client has sent or will send that has not been read. */
    function Unread(): Bytes
      reads this
    {
      Timely() + late
    }

    /** A read that yields bytes yields at least one. */
    predicate Valid()
      reads this
    {
      forall i :: 0 <= i < |pending| ==> pending[i] != []
    }

    constructor (pending: seq<Bytes>, late: Bytes)
      requires forall i :: 0 <= i < |pending| ==> pending[i] != []
      ensures Valid() && Timely() == Concat(pending) && Unread() == Concat(pending) + late
    {
      this.pending, this.late := pending, late;
    }

    /** One read into a buffer of `capacity` bytes: as much of the next chunk as fits, nothing once the reads are cut. */
    method Read(capacity: nat) returns (got: Bytes)
      requires Valid() && capacity > 0
      modifies this
      ensures Valid() && got + Timely() == old(Timely())
      ensures |got| <= capacity
      ensures got == [] <==> old(Timely()) == []
    {
      if pending == [] {
        return [];
      }
      var chunk := pending[0];
      assert Concat(pending) == chunk + Concat(pending[1..]);
      if |chunk| <= capacity {
        got, pending := chunk, pending[1..];
      } else {
        got := chunk[..capacity];
        ghost var rest := pending[1..];
        pending := [chunk[capacity..]] + pending[1..];
        assert pending[1..] == rest;
        assert got + (chunk[capacity..] + Concat(rest)) == chunk + Concat(rest);
      }
    }

    /** `read_full`: fills the buffer unless the reads are cut, and then keeps count of what it got. */
    method ReadFull(length: nat) returns (got: Bytes)
      requires Valid()
      modifies this
      ensures Valid() && got == old(Timely())[..Min(length, |old(Timely())|)] && Timely() == old(Timely())[|got|..]
    {
      got := [];
      while |got| < length
        invariant Valid() && |got| <= length && got + Timely() == old(Timely())
        decreases length - |got|
      {
        var k := Read(length - |got|);
        if k == [] {
          break;
        }
        got := got + k;
      }
    }

    method ReadFirstTlsRecord() returns (r: FirstRecord)
      requires Valid()
      modifies this
      ensures Valid() && r == RecordOf(old(Timely()))
      ensures Consumed(r) + Timely() == old(Timely()) && Consumed(r) + Unread() == old(Unread())
    {
      hide Concat;
      ghost var stream := Timely();
      var header := ReadFull(5);
      if |header| == 0 {
        return Empty;
      }
      if |header| < 5 {
        return Passthrough(header);
      }
      var len := FromU16(header[3], header[4]);
      if len > MaxBody {
        return Passthrough(header);
      }
      var body := ReadFull(len);
      assert header + body == stream[..Min(5 + len, |stream|)];
      if |body| == len {
        return Complete(header + body);
      }
      return Passthrough(header + body);
    }
  }

  /** The bytes taken off the socket. */
  function Consumed(r: FirstRecord): Bytes {
    match r
    case Complete(record) => record
    case Passthrough(bytes) => bytes
    case Empty => []
  }

  /** The outcome as a function of the bytes alone: how they were cut into reads does not matter. */
  function RecordOf(stream: Bytes): FirstRecord {
    if stream == [] then Empty
    else if |stream| < 5 then Passthrough(stream)
    else
      var len := FromU16(stream[3], stream[4]);
      if len > MaxBody then Passthrough(stream[..5])
      else if |stream| < 5 + len then Passthrough(stream)
      else Complete(stream[..5 + len])
  }

  // ---- The layout of a record (section 5.1 of RFC 8446) -----------------------------------------------------------

  /** `type | legacy_record_version | length | fragment`, the length big-endian. */
  function RecordBytes(kind: Byte, version: Bytes, body: Bytes): Bytes
    requires |version| == 2 && |body| <= U16_MAX
  {
    [kind] + version + BigEndian(|body|, 2) + body
  }

  lemma HeaderOf(kind: Byte, version: Bytes, body: Bytes, rest: Bytes)
    requires |version| == 2 && |body| <= U16_MAX
    ensures
      var b := RecordBytes(kind, version, body) + rest;
      && |RecordBytes(kind, version, body)| == 5 + |body| && FromU16(b[3], b[4]) == |body|
      && b[..5 + |body|] == RecordBytes(kind, version, body) && RecordBytes(kind, version, body)[5..] == body
  {
    BigEndianIsU16(|body|);
    var r := RecordBytes(kind, version, body);
    assert r == [kind] + version + U16(|body|) + body;
    assert r[3] == U16(|body|)[0] && r[4] == U16(|body|)[1];
    assert r[5..] == body;
  }

  /** A whole record with a body of up to 16384 bytes is read as itself, whatever follows. */
  lemma WholeRecordIsComplete(kind: Byte, version: Bytes, body: Bytes, rest: Bytes)
    requires |version| == 2 && |body| <= 16_384
    ensures RecordOf(RecordBytes(kind, version, body) + rest) == Complete(RecordBytes(kind, version, body))
  {
    HeaderOf(kind, version, body, rest);
    hide RecordBytes;
  }

  /** One that declares more passes through as its five header bytes, once they are there. */
  lemma OversizedRecordPassesThrough(kind: Byte, version: Bytes, body: Bytes, n: nat)
    requires |version| == 2 && 16_384 < |body| <= U16_MAX && 5 <= n <= 5 + |body|
    ensures
      var r := RecordBytes(kind, version, body);
      RecordOf(r[..n]) == Passthrough(r[..5])
  {
    HeaderOf(kind, version, body, []);
    var r := RecordBytes(kind, version, body);
    assert r + [] == r;
    assert r[..n][..5] == r[..5];
    hide RecordBytes;
  }

  /** A record cut short passes through as what there is of it; only nothing at all is empty. */
  lemma CutRecordPassesThrough(kind: Byte, version: Bytes, body: Bytes, n: nat)
    requires |version| == 2 && |body| <= 16_384 && n < 5 + |body|
    ensures
      var r := RecordBytes(kind, version, body);
      n <= |r| && RecordOf(r[..n]) == if n == 0 then Empty else Passthrough(r[..n])
  {
    HeaderOf(kind, version, body, []);
    var r := RecordBytes(kind, version, body);
    assert r + [] == r;
    hide RecordBytes;
  }
}
