/**
 * An in-memory byte stream with a read position, as far as the request
 * parser uses Python's `io.BytesIO`: `readline()` and `readlines()`.
 */
module ByteStreams {
  import opened ByteStrings

  class ByteStream {
    /** The buffer the stream was created over; reading never changes it. */
    const data: Bytes
    /** The read position. */
    var pos: nat

    ghost predicate Valid()
      reads this
    {
      pos <= |data|
    }

    /** What is left to read. */
    function Remaining(): Bytes
      reads this
      requires Valid()
    {
      data[pos..]
    }

    constructor (initial: Bytes)
      ensures Valid()
      ensures data == initial && pos == 0
      ensures Remaining() == initial
    {
      data := initial;
      pos := 0;
    }

    /** `readline()`: scans forward from the read position to the next LF
        and returns the bytes up to and including it, or everything left when
        there is no LF; at the end of the stream it returns nothing. */
    method ReadLine() returns (line: Bytes)
      requires Valid()
      modifies this
      ensures Valid()
      ensures pos == LineEnd(data, old(pos))
      ensures line == data[old(pos)..pos]
    {
      var i := pos;
      while i < |data| && data[i] != LF
        invariant pos <= i <= |data|
        invariant forall k :: pos <= k < i ==> data[k] != LF
      {
        i := i + 1;
      }
      if i < |data| {
        i := i + 1;
      }
      LineEndUnique(data, pos, i);
      line := data[pos..i];
      pos := i;
    }

    /** `readlines()`: reads line after line until the stream is exhausted. */
    method ReadLines() returns (lines: seq<Bytes>)
      requires Valid()
      modifies this
      ensures Valid()
      ensures lines == LinesFrom(data, old(pos))
      ensures pos == |data|
    {
      lines := [];
      while pos < |data|
        invariant Valid()
        invariant old(pos) <= pos
        invariant lines + LinesFrom(data, pos) == LinesFrom(data, old(pos))
        decreases |data| - pos
      {
        ghost var before := pos;
        var line := ReadLine();
        assert LinesFrom(data, before) == [line] + LinesFrom(data, pos);
        lines := lines + [line];
      }
    }
  }
}
