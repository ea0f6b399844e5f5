/** The client connection: the bytes still to arrive, as the chunks successive
    reads deliver, and the bytes the server has written back. A read that
    returns no bytes (an empty chunk, or no chunk left) is the end of the
    stream. */
module Connections {
  import opened Encoding

  /** The bytes a client sends before its stream ends. */
  function Available(chunks: seq<seq<byte>>): seq<byte>
  {
    if chunks == [] || chunks[0] == [] then [] else chunks[0] + Available(chunks[1..])
  }

  /** One `ReadAsync` into a buffer of `max` bytes: at most `max` bytes of the next
      chunk; what does not fit stays for the next read. */
  function ReadChunk(chunks: seq<seq<byte>>, max: nat): (r: (seq<byte>, seq<seq<byte>>))
    requires max > 0
    ensures |r.0| <= max
  {
    if chunks == [] || chunks[0] == [] then ([], chunks)
    else if |chunks[0]| <= max then (chunks[0], chunks[1..])
    else (chunks[0][..max], [chunks[0][max..]] + chunks[1..])
  }

  /** A read takes bytes off the front of the stream, and returns none only at its end. */
  lemma ReadChunkAvailable(chunks: seq<seq<byte>>, max: nat)
    requires max > 0
    ensures var (data, rest) := ReadChunk(chunks, max);
            data + Available(rest) == Available(chunks) && (data == [] <==> Available(chunks) == [])
  {
    if chunks != [] && chunks[0] != [] && |chunks[0]| > max {
      var rest := [chunks[0][max..]] + chunks[1..];
      assert rest[1..] == chunks[1..];
      assert chunks[0] == chunks[0][..max] + chunks[0][max..];
    }
  }

  class Connection {
    /** What the client still has to send. */
    var incoming: seq<seq<byte>>
    /** What the server has written to the client. */
    var written: seq<byte>

    constructor(chunks: seq<seq<byte>>)
      ensures incoming == chunks && written == []
    {
      incoming := chunks;
      written := [];
    }

    /** `stream.ReadAsync(buffer.AsMemory(0, max))`. */
    method Read(max: nat) returns (data: seq<byte>)
      requires max > 0
      modifies this
      ensures (data, incoming) == ReadChunk(old(incoming), max)
      ensures written == old(written)
    {
      var r := ReadChunk(incoming, max);
      data := r.0;
      incoming := r.1;
    }

    /** `stream.WriteAsync(bytes)`. */
    method Write(bytes: seq<byte>)
      modifies this
      ensures written == old(written) + bytes
      ensures incoming == old(incoming)
    {
      written := written + bytes;
    }
  }
}
