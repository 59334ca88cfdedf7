/** The bounded captures of scripts/kuberay_compiled_graph_pilot.py and
    scripts/coverage_debt.py. */
module RollingTail {
  import opened Text
  import opened Streams

  type byte = bv8

  const MAX_CAPTURE_CHARS := 32_768
  const MAX_STRUCTURED_CAPTURE_BYTES := 1024 * 1024
  const READ_BYTES := 64 * 1024

  function LastN(bytes: seq<byte>, n: nat): seq<byte> {
    if |bytes| <= n then bytes else bytes[|bytes| - n..]
  }

  function FirstN<T>(bytes: seq<T>, n: int): seq<T> {
    if n <= 0 then [] else if |bytes| <= n then bytes else bytes[..n]
  }

  lemma LastNAbsorbs(a: seq<byte>, b: seq<byte>, n: nat)
    ensures LastN(LastN(a, n) + b, n) == LastN(a + b, n)
  {
  }

  class ByteArray {
    var bytes: seq<byte>

    constructor ()
      ensures bytes == []
    {
      bytes := [];
    }
  }

  class Event {
    var isSet: bool

    constructor ()
      ensures !isSet
    {
      isSet := false;
    }
  }

  /** What appending leaves in the pilot's buffer. A limit of zero keeps the whole
      chunk: the slice from minus zero is the slice from the start. */
  function AppendedTail(buffer: seq<byte>, chunk: seq<byte>, limit: nat): seq<byte> {
    if |chunk| >= limit then (if limit == 0 then chunk else chunk[|chunk| - limit..])
    else
      var overflow := |buffer| + |chunk| - limit;
      (if overflow > 0 then buffer[overflow..] else buffer) + chunk
  }

  /** The buffer holds the newest bytes of everything appended. A limit of zero, which
      the program does not use, keeps the last chunk instead. */
  method AppendBoundedTail(buffer: ByteArray, chunk: seq<byte>, limit: nat)
    modifies buffer
    ensures limit > 0 || chunk == [] ==> buffer.bytes == LastN(old(buffer.bytes) + chunk, limit)
    ensures limit == 0 && chunk != [] ==> buffer.bytes == chunk
  {
    AppendKeepsNewest(buffer.bytes, chunk, limit);
    if |chunk| >= limit {
      buffer.bytes := if limit == 0 then chunk else chunk[|chunk| - limit..];
      return;
    }
    var overflow := |buffer.bytes| + |chunk| - limit;
    if overflow > 0 { buffer.bytes := buffer.bytes[overflow..]; }
    buffer.bytes := buffer.bytes + chunk;
  }

  /** The newest bytes are kept, exactly when the limit is positive or the chunk
      empty. */
  lemma AppendKeepsNewest(buffer: seq<byte>, chunk: seq<byte>, limit: nat)
    ensures AppendedTail(buffer, chunk, limit) == LastN(buffer + chunk, limit) <==>
            limit > 0 || chunk == []
  {
    if limit > 0 {
      assert AppendedTail(buffer, chunk, limit) == LastN(buffer + chunk, limit);
    } else if chunk == [] {
      assert buffer + chunk == buffer;
    }
  }

  predicate Overflows(buffer: seq<byte>, input: seq<byte>) {
    input != [] && |buffer| + |input| > MAX_STRUCTURED_CAPTURE_BYTES
  }

  /** Drains the pipe: either everything up to the cap, flagging what does not
      fit, or the newest bytes only. */
  method DrainCommandStream(stream: Stream<byte>, buffer: ByteArray, preserveComplete: bool, overflow: Event)
    modifies stream, buffer, overflow
    ensures stream.closed
    ensures preserveComplete ==>
              && buffer.bytes == old(buffer.bytes) +
                   FirstN(old(stream.rest), MAX_STRUCTURED_CAPTURE_BYTES - |old(buffer.bytes)|)
              && overflow.isSet == (old(overflow.isSet) || Overflows(old(buffer.bytes), old(stream.rest)))
    ensures !preserveComplete ==>
              && stream.rest == []
              && overflow.isSet == old(overflow.isSet)
              && (|old(buffer.bytes)| <= MAX_CAPTURE_CHARS ==>
                   buffer.bytes == LastN(old(buffer.bytes) + old(stream.rest), MAX_CAPTURE_CHARS))
  {
    ghost var start, all := buffer.bytes, stream.rest;
    ghost var read: seq<byte> := [];
    var chunk := stream.Read(READ_BYTES);
    while chunk != []
      invariant read + chunk + stream.rest == all
      invariant chunk == [] ==> stream.rest == []
      invariant overflow.isSet == old(overflow.isSet)
      invariant preserveComplete ==> buffer.bytes == start + read
      invariant preserveComplete && read != [] ==> |start + read| <= MAX_STRUCTURED_CAPTURE_BYTES
      invariant !preserveComplete && |start| <= MAX_CAPTURE_CHARS ==> buffer.bytes == LastN(start + read, MAX_CAPTURE_CHARS)
      decreases |chunk| + |stream.rest|
    {
      if preserveComplete {
        var remaining := MAX_STRUCTURED_CAPTURE_BYTES - |buffer.bytes|;
        if |chunk| > remaining {
          if remaining > 0 { buffer.bytes := buffer.bytes + chunk[..remaining]; }
          overflow.isSet := true;
          stream.Close();
          return;
        }
        buffer.bytes := buffer.bytes + chunk;
      } else {
        LastNAbsorbs(start + read, chunk, MAX_CAPTURE_CHARS);
        AppendBoundedTail(buffer, chunk, MAX_CAPTURE_CHARS);
      }
      assert start + read + chunk == start + (read + chunk);
      read := read + chunk;
      chunk := stream.Read(READ_BYTES);
    }
    assert read == all;
    stream.Close();
  }

  function Message(text: string): string { FirstN(Collapsed(text), 1000) }

  /** A message is the start of the text on one line, whole if that has at most 1000
      characters. */
  lemma MessageMeans(text: string)
    ensures |Message(text)| <= 1000 && Message(text) <= Collapsed(text)
    ensures Message(text) == Collapsed(text) <==> |Collapsed(text)| <= 1000
    ensures |Collapsed(text)| > 1000 ==> |Message(text)| == 1000
  {
  }

  /** Counts every byte of a phase's output and keeps the newest. */
  class BoundedPhaseOutput {
    const maxBytes: nat
    var outputBytes: nat
    var tail: seq<byte>
    var error: Option<string>
    ghost var history: seq<byte>

    ghost predicate Valid()
      reads this
    {
      outputBytes == |history| && tail == LastN(history, maxBytes)
    }

    constructor (maxBytes: nat)
      ensures Valid() && this.maxBytes == maxBytes && history == [] && error == None
    {
      this.maxBytes, outputBytes, tail, error, history := maxBytes, 0, [], None, [];
    }

    method Append(chunk: seq<byte>)
      requires Valid()
      modifies this`outputBytes, this`tail, this`history
      ensures Valid() && history == old(history) + chunk
    {
      LastNAbsorbs(history, chunk, maxBytes);
      outputBytes := outputBytes + |chunk|;
      tail := tail + chunk;
      var overflow := |tail| - maxBytes;
      if overflow > 0 { tail := tail[overflow..]; }
      history := history + chunk;
    }

    /** Drains the pipe. A read that fails ends the draining and leaves its message; what
        came before is kept, and the pipe is closed in any case. */
    method Consume(stream: Stream<byte>)
      requires Valid()
      modifies this, stream
      ensures Valid() && history == old(history) + old(stream.rest)
      ensures stream.rest == [] && stream.closed
      ensures error == match stream.broken case None => old(error) case Some(text) => Some(Message(text))
    {
      var chunk := stream.TryRead(READ_BYTES);
      while chunk.Success? && chunk.value != []
        invariant Valid() && error == old(error)
        invariant chunk.Success? ==> history + chunk.value + stream.rest == old(history) + old(stream.rest)
        invariant chunk.Success? && chunk.value == [] ==> stream.rest == [] && stream.broken.None?
        invariant chunk.Failure? ==> stream.broken == Some(chunk.error) && stream.rest == [] && history == old(history) + old(stream.rest)
        decreases if chunk.Success? then |chunk.value| + |stream.rest| + 1 else 0
      {
        Append(chunk.value);
        chunk := stream.TryRead(READ_BYTES);
      }
      if chunk.Failure? { error := Some(Message(chunk.error)); }
      stream.Close();
    }

    /** A later failure does not replace an earlier one. */
    method MarkError(message: string)
      modifies this`error
      ensures error == if old(error).Some? then old(error) else Some(Message(message))
    {
      if error.None? { error := Some(Message(message)); }
    }

    /** The count tells exactly whether the tail lost something. */
    method Truncated() returns (truncated: bool)
      requires Valid()
      ensures truncated <==> tail != history
    {
      truncated := outputBytes > |tail|;
    }
  }

  // ----- both buffers over a run of chunks -----

  function Concat(chunks: seq<seq<byte>>): seq<byte> {
    if chunks == [] then [] else Concat(chunks[..|chunks| - 1]) + chunks[|chunks| - 1]
  }

  function PilotBuffer(chunks: seq<seq<byte>>, limit: nat): seq<byte> {
    if chunks == [] then [] else AppendedTail(PilotBuffer(chunks[..|chunks| - 1], limit), chunks[|chunks| - 1], limit)
  }

  /** Whatever the chunks, the pilot's buffer holds the newest bytes, as the
      phase output does. */
  lemma {:induction false} TailsAgree(chunks: seq<seq<byte>>, limit: nat)
    requires limit > 0
    ensures PilotBuffer(chunks, limit) == LastN(Concat(chunks), limit)
  {
    if chunks != [] {
      var init, last := chunks[..|chunks| - 1], chunks[|chunks| - 1];
      TailsAgree(init, limit);
      AppendKeepsNewest(PilotBuffer(init, limit), last, limit);
      LastNAbsorbs(Concat(init), last, limit);
    }
  }
}
