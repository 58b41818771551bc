/**
 * The part of Go's `bytes.Buffer` the parser uses: a byte slice with a read
 * offset. Reading moves the offset forward; a read that finds the buffer
 * drained resets it to empty.
 */
module Bytes {

  class Buffer {
    var buf: string
    var off: nat

    ghost predicate Valid()
      reads this
    {
      off <= |buf|
    }

    /** The unread portion, as `Bytes()` returns it. */
    function Bytes(): string
      reads this
      requires Valid()
    {
      buf[off..]
    }

    constructor (contents: string)
      ensures Valid() && Bytes() == contents
    {
      buf, off := contents, 0;
    }

    /** `Next(n)`: the next `n` unread bytes, or all of them when fewer remain. */
    method Next(n: nat) returns (b: string)
      requires Valid()
      modifies this
      ensures Valid() && buf == old(buf)
      ensures var m := if n < |old(Bytes())| then n else |old(Bytes())|;
              b == old(Bytes())[..m] && Bytes() == old(Bytes())[m..]
    {
      var m := if n < |buf| - off then n else |buf| - off;
      b := buf[off..off + m];
      off := off + m;
    }

    /**
     * `ReadBytes(delim)`: the unread bytes up to and including the first `delim`.
     * When there is none it returns everything that is left and `eof` (the
     * `io.EOF` error), leaving the buffer empty.
     */
    method ReadBytes(delim: char) returns (line: string, eof: bool)
      requires Valid()
      modifies this
      ensures Valid() && buf == old(buf)
      ensures eof <==> delim !in old(Bytes())
      ensures !eof ==> |line| >= 1 && line[|line| - 1] == delim && delim !in line[..|line| - 1]
      ensures old(Bytes()) == line + Bytes()
      ensures eof ==> Bytes() == []
    {
      var i := off;
      while i < |buf| && buf[i] != delim
        invariant off <= i <= |buf|
        invariant delim !in buf[off..i]
      {
        i := i + 1;
      }
      if i < |buf| {
        line := buf[off..i + 1];
        assert line[..|line| - 1] == buf[off..i];
        off := i + 1;
        eof := false;
      } else {
        line := buf[off..];
        off := |buf|;
        eof := true;
      }
    }

    /**
     * Everything that is left, as a reader that calls `Read` until `io.EOF`
     * receives it; the last `Read` finds the buffer drained and `Reset`s it.
     */
    method ReadAll() returns (b: string)
      requires Valid()
      modifies this
      ensures Valid() && buf == [] && off == 0
      ensures b == old(Bytes())
    {
      b := buf[off..];
      buf, off := [], 0;
    }
  }
}
