/** However a stream is cut into chunks, reading fills buffers with its next bytes,
    and a download ends with all of them or with the first fault. */
module S3Reader {
  import opened Wrappers

  newtype byte = x: int | 0 <= x < 256

  /** What the transport delivers next: a chunk, possibly empty, or a failure. */
  datatype Chunk = Data(bytes: seq<byte>) | Fault(recoverable: bool)

  datatype IoError = ConnectionReset | Other

  const SLAB_BYTES: nat := 8 * 1024 * 1024

  /** The bytes that arrive before the first failure. */
  ghost function Arriving(chunks: seq<Chunk>): seq<byte> {
    if chunks == [] || chunks[0].Fault? then [] else chunks[0].bytes + Arriving(chunks[1..])
  }

  /** The first failure, if the stream has one. */
  ghost function FirstFault(chunks: seq<Chunk>): Option<IoError> {
    if chunks == [] then None
    else if chunks[0].Fault? then Some(if chunks[0].recoverable then ConnectionReset else Other)
    else FirstFault(chunks[1..])
  }

  class S3Reader {
    var held: seq<byte>
    var chunks: seq<Chunk>

    /** All that can still be read. */
    ghost function Remaining(): seq<byte>
      reads this
    {
      held + Arriving(chunks)
    }

    constructor (chunks: seq<Chunk>)
      ensures this.held == [] && this.chunks == chunks
    {
      this.held, this.chunks := [], chunks;
    }

    /** Fill the buffer with the next bytes of the object; fewer only at its end. */
    method ReadFull(buf: array<byte>) returns (r: Result<nat, IoError>)
      modifies this, buf
      ensures r.Err? <==> |old(Remaining())| < buf.Length && FirstFault(old(chunks)).Some?
      ensures r.Err? ==> FirstFault(old(chunks)) == Some(r.error)
      ensures r.Ok? ==> r.value == if buf.Length <= |old(Remaining())| then buf.Length else |old(Remaining())|
      ensures r.Ok? ==> old(Remaining()) == buf[..r.value] + Remaining()
      ensures r.Ok? ==> buf[r.value..] == old(buf[r.value..])
      ensures r.Ok? ==> FirstFault(chunks) == FirstFault(old(chunks))
    {
      var done := 0;
      ghost var whole, before, stream := Remaining(), buf[..], chunks;
      while done < buf.Length
        invariant done <= buf.Length
        invariant buf[..done] + Remaining() == whole
        invariant buf[done..] == before[done..]
        invariant FirstFault(chunks) == FirstFault(stream)
        decreases buf.Length - done, |chunks|
      {
        if held == [] {
          if chunks == [] {
            Filled(buf[..done], [], whole);
            return Ok(done);
          }
          var next := chunks[0];
          if next.Fault? {
            Filled(buf[..done], [], whole);
            return Err(if next.recoverable then ConnectionReset else Other);
          }
          held, chunks := next.bytes, chunks[1..];
        }
        var n := Move(buf, done);
        done := done + n;
      }
      r := Ok(done);
    }

    /** Move what is held, or as much of it as fits, into the buffer. */
    method Move(buf: array<byte>, done: nat) returns (n: nat)
      requires done < buf.Length
      modifies this`held, buf
      ensures n == if |old(held)| < buf.Length - done then |old(held)| else buf.Length - done
      ensures buf[..done + n] + Remaining() == old(buf[..done]) + old(Remaining())
      ensures buf[done + n..] == old(buf[done + n..])
      ensures held == old(held[n..])
    {
      n := if |held| < buf.Length - done then |held| else buf.Length - done;
      ghost var front, arriving := buf[..done], Arriving(chunks);
      Copy(buf, done, held[..n]);
      Regroup(front, held, n, arriving);
      assert buf[..done + n] == front + held[..n];
      held := held[n..];
    }
  }

  /** What is in the buffer and what is still to come make up the whole. */
  lemma Filled(front: seq<byte>, rest: seq<byte>, whole: seq<byte>)
    requires front + rest == whole
    ensures |whole| == |front| + |rest| && (rest == [] ==> front == whole)
  {
  }

  lemma Regroup(front: seq<byte>, held: seq<byte>, n: nat, arriving: seq<byte>)
    requires n <= |held|
    ensures front + held[..n] + (held[n..] + arriving) == front + (held + arriving)
  {
    assert held == held[..n] + held[n..];
  }

  /** `copy_from_slice` into the buffer at an offset. */
  method Copy(buf: array<byte>, at: nat, bytes: seq<byte>)
    requires at + |bytes| <= buf.Length
    modifies buf
    ensures buf[..] == old(buf[..at]) + bytes + old(buf[at + |bytes|..])
  {
    for i := 0 to |bytes|
      invariant buf[..at + i] == old(buf[..at]) + bytes[..i]
      invariant buf[at + i..] == old(buf[at + i..])
    {
      buf[at + i] := bytes[i];
      assert bytes[..i + 1] == bytes[..i] + [bytes[i]];
    }
    assert bytes[..|bytes|] == bytes;
  }

  /** The loop of reads ends, because each takes something from what remains. */
  method DownloadObject(chunks: seq<Chunk>) returns (r: Result<seq<byte>, IoError>)
    ensures match FirstFault(chunks)
      case None => r == Ok(Arriving(chunks))
      case Some(error) => r == Err(error)
  {
    var reader := new S3Reader(chunks);
    var sink := [];
    var slab := new byte[SLAB_BYTES];
    ghost var whole := Arriving(chunks);
    while true
      invariant sink + reader.Remaining() == whole
      invariant FirstFault(reader.chunks) == FirstFault(chunks)
      decreases |reader.Remaining()|
    {
      var got := reader.ReadFull(slab);
      if got.Err? {
        return Err(got.error);
      }
      if got.value == 0 {
        assert reader.Remaining() == [] && sink + [] == sink;
        break;
      }
      sink := sink + slab[..got.value];
    }
    r := Ok(sink);
  }
}
