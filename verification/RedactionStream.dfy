/** scripts/bounded_redact.py: the chunked redactor and its bounded reader. */
module RedactionStream {
  import opened Text
  import opened RedactionSpec
  import opened Streams

  datatype Yield = Chunk(text: string) | Exhausted | BadChunkSize

  /** The generator `_iter_redacted`: what it has read but not yet scanned is
      `pending`; each call of Next resumes it up to its next yield. */
  class RedactedChunks {
    const stream: Stream<char>
    const secrets: seq<string>
    const chunkChars: int
    const mark: string
    var pending: string
    var finished: bool
    ghost const whole: string   // what the stream holds when the generator starts
    ghost const total: string   // the streamed form of `whole`
    ghost const stop: nat       // where the scan of `whole` stops
    ghost var emitted: string   // everything yielded so far
    ghost var position: nat     // how many characters the scan has consumed

    ghost function Now(): Progress
      reads this
    {
      Progress(emitted, position, total, stop)
    }

    /** The promise kept between two reads: scanning on from `position` completes
        what was emitted to the streamed form of the whole text. `unscanned` has
        been read but not yet joined to `pending`. */
    ghost predicate Scanning(unscanned: string)
      requires AllNonEmpty(secrets)
      reads this, stream
    {
      && position <= |whole|
      && whole[position..] == pending + unscanned + stream.rest
      && (secrets == [] ==> pending == "")
      && (secrets != [] ==> |pending| < |secrets[0]|)
      && Partial(Now(), whole[position..], secrets, mark)
    }

    ghost predicate Valid()
      reads this, stream
    {
      && Normalized(secrets)
      && if finished
         then stream.rest == "" && position == stop && emitted == total
         else Scanning("")
    }

    ghost function Remaining(): nat
      reads this, stream
    {
      |stream.rest| + if finished then 0 else 1
    }

    constructor (stream: Stream<char>, secrets: seq<string>, chunkChars: int)
      requires Normalized(secrets)
      ensures Valid() && this.stream == stream && this.secrets == secrets && this.chunkChars == chunkChars
      ensures mark == REDACTION
      ensures total == Streamed(stream.rest, secrets, REDACTION) && stop == ScanStop(stream.rest, secrets)
      ensures whole == stream.rest && emitted == "" && !finished
    {
      this.stream, this.secrets, this.chunkChars := stream, secrets, chunkChars;
      mark, pending, finished := REDACTION, "", false;
      whole, emitted, position := stream.rest, "", 0;
      total, stop := Streamed(stream.rest, secrets, REDACTION), ScanStop(stream.rest, secrets);
      new;
      assert whole[0..] == whole;
    }

    /** Scan `candidate` from its start while a secret of full length fits. */
    method ScanCandidate(candidate: string, ghost tail: string) returns (output: seq<string>, index: nat)
      requires Normalized(secrets) && secrets != []
      requires Partial(Now(), candidate + tail, secrets, mark)
      ensures index <= |candidate| < index + |secrets[0]|
      ensures Partial(Now().Step(Join(output), index), candidate[index..] + tail, secrets, mark)
      ensures output == [] <==> index == 0
      ensures mark != "" && output != [] ==> Join(output) != ""
    {
      var longest := |secrets[0]|;
      var safeStartLimit := if |candidate| - longest + 1 > 0 then |candidate| - longest + 1 else 0;
      output, index := [], 0;
      ghost var at := Now();
      while index < safeStartLimit
        invariant index <= |candidate|
        invariant at == Now().Step(Join(output), index) && Partial(at, candidate[index..] + tail, secrets, mark)
        invariant output == [] <==> index == 0
        invariant mark != "" && output != [] ==> Join(output) != ""
        decreases safeStartLimit - index
      {
        var step, piece := 1, [candidate[index]];
        match FirstMatch(candidate, index, secrets) {
          case None =>
          case Some(s) => step, piece := |s|, mark;
        }
        WindowStep(at, candidate, index, tail, secrets, mark, step, piece);
        at := at.Step(piece, step);
        output, index := Yielding(output, piece), index + step;
      }
    }

    function Yielding(output: seq<string>, piece: string): (r: seq<string>)
      reads this
      ensures r == output + [piece] && Join(r) == Join(output) + piece && emitted + Join(output) + piece == emitted + Join(r)
    {
      JoinAppend(output, piece);
      AppendAssociates(emitted, Join(output), piece);
      output + [piece]
    }

    /** Join one chunk to what is pending and scan as far as is safe. */
    method Advance(chunk: string) returns (output: seq<string>)
      requires Normalized(secrets) && secrets != [] && Scanning(chunk)
      modifies this`pending, this`position, this`emitted
      ensures Scanning("") && emitted == old(emitted) + Join(output)
      ensures output == [] ==> emitted == old(emitted)
      ensures mark != "" && output != [] ==> Join(output) != ""
    {
      var candidate := pending + chunk;
      var index;
      assert whole[position..] == candidate + stream.rest;
      output, index := ScanCandidate(candidate, stream.rest);
      pending, position, emitted := candidate[index..], position + index, emitted + Join(output);
      assert whole[position..] == pending + stream.rest == pending + "" + stream.rest;
    }

    /** Without secrets a chunk is yielded as it came. */
    method Copy(chunk: string)
      requires secrets == [] && Scanning(chunk)
      modifies this`position, this`emitted
      ensures Scanning("") && emitted == old(emitted) + chunk
    {
      assert whole[position..] == chunk + stream.rest;
      PartialCopy(Now(), chunk, stream.rest, mark);
      emitted, position := emitted + chunk, position + |chunk|;
      assert whole[position..] == stream.rest == pending + "" + stream.rest;
    }

    /** The stream has ended: the tail goes through one-shot replacement. */
    method Finish() returns (r: Yield)
      requires Normalized(secrets) && !finished && Scanning("") && stream.rest == ""
      modifies this`finished, this`emitted
      ensures Valid() && finished
      ensures r == if pending == "" then Exhausted else Chunk(OneShot(pending, secrets, mark))
      ensures emitted == if pending == "" then old(emitted) else old(emitted) + r.text
      ensures r.Chunk? && mark != "" ==> r.text != ""
    {
      assert whole[position..] == pending;
      PartialEnd(Now(), pending, secrets, mark);
      finished := true;
      if pending == "" { return Exhausted; }
      if mark != "" { OneShotKeepsSome(pending, secrets, mark); }
      emitted := emitted + OneShot(pending, secrets, mark);
      r := Chunk(OneShot(pending, secrets, mark));
    }

    method ReadChunk() returns (chunk: string)
      requires AllNonEmpty(secrets) && Scanning("") && chunkChars > 0
      modifies stream
      ensures Scanning(chunk) && |stream.rest| + |chunk| == old(|stream.rest|)
      ensures chunk == "" <==> old(stream.rest) == ""
    {
      chunk := stream.Read(chunkChars);
      assert whole[position..] == pending + "" + (chunk + stream.rest) == pending + chunk + stream.rest;
    }

    method Next() returns (r: Yield)
      requires Valid()
      modifies this, stream
      ensures Valid()
      ensures r.BadChunkSize? <==> !old(finished) && chunkChars <= 0
      ensures r.BadChunkSize? ==> emitted == old(emitted) && stream.rest == old(stream.rest)
      ensures r.Chunk? ==> emitted == old(emitted) + r.text && Remaining() < old(Remaining())
      ensures r.Chunk? && mark != "" ==> r.text != ""
      ensures r.Exhausted? ==> emitted == old(emitted) == total && position == stop && finished
    {
      if finished { return Exhausted; }
      if chunkChars <= 0 { return BadChunkSize; }
      var chunk := ReadChunk();
      while chunk != ""
        invariant !finished && Scanning(chunk)
        invariant emitted == old(emitted)
        invariant chunk == "" ==> stream.rest == ""
        invariant |stream.rest| + |chunk| <= old(|stream.rest|)
        decreases |stream.rest| + |chunk|
      {
        if secrets == [] {
          Copy(chunk);
          return Chunk(chunk);
        }
        var output := Advance(chunk);
        if output != [] { return Chunk(Join(output)); }
        chunk := ReadChunk();
      }
      r := Finish();
    }
  }
}
