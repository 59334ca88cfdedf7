/** Streams that are read in pieces. */
module Streams {
  import opened Text

  /** Each read returns any non-empty piece of what is left, within the limit. */
  class Stream<T> {
    var rest: seq<T>
    var closed: bool
    const broken: Option<string>   // how reading fails once `rest` is delivered, if it does

    constructor (contents: seq<T>, broken: Option<string>)
      ensures rest == contents && !closed && this.broken == broken
    {
      rest, closed, this.broken := contents, false, broken;
    }

    method Read(limit: nat) returns (chunk: seq<T>)
      requires limit > 0
      modifies this`rest
      ensures chunk + rest == old(rest) && |chunk| <= limit && |chunk| + |rest| == old(|rest|)
      ensures |chunk| == 0 <==> old(|rest|) == 0
    {
      if |rest| == 0 { return []; }
      var n: nat :| 1 <= n <= limit && n <= |rest|;
      chunk, rest := rest[..n], rest[n..];
    }

    /** A read that reports the failure. */
    method TryRead(limit: nat) returns (r: Result<seq<T>, string>)
      requires limit > 0
      modifies this`rest
      ensures r.Failure? <==> old(rest) == [] && broken.Some?
      ensures r.Failure? ==> rest == [] && r.error == broken.value
      ensures r.Success? ==>
                && r.value + rest == old(rest) && |r.value| <= limit && |r.value| + |rest| == old(|rest|)
                && (|r.value| == 0 <==> old(|rest|) == 0)
    {
      if |rest| == 0 && broken.Some? { return Failure(broken.value); }
      var chunk := Read(limit);
      r := Success(chunk);
    }

    method Close()
      modifies this`closed
      ensures closed
    {
      closed := true;
    }
  }
}
