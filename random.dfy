/**
 * The random source, injected as an oracle: a finite stream of natural numbers that
 * the generators consume one draw at a time. An exhausted stream is the failure of
 * the entropy source.
 */
module Random {

  datatype Result<T> = Ok(value: T) | Err

  class Source {
    var stream: seq<nat>

    constructor (stream: seq<nat>)
      ensures this.stream == stream
    {
      this.stream := stream;
    }

    /** Takes the next number of the stream, or fails when there is none. */
    method Next() returns (r: Result<nat>)
      modifies this
      ensures old(stream) == [] ==> r == Err && stream == []
      ensures old(stream) != [] ==> r == Ok(old(stream)[0]) && stream == old(stream)[1..]
    {
      if stream == [] {
        r := Err;
      } else {
        r := Ok(stream[0]);
        stream := stream[1..];
      }
    }
  }
}
