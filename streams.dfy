/**
 * A binary input file stream as the duplicate finder uses it: `read(buffer, n)`
 * followed by `gcount()`. The file's bytes are fixed when the stream is opened;
 * the stream keeps a read position and a fail state.
 */
module Streams {
  import opened Hashing

  function Min(a: int, b: int): int {
    if a <= b then a else b
  }

  class InputStream {
    const data: seq<Byte>
    /** position of the next byte to read */
    var pos: nat
    /** the fail state, entered by a read that got fewer bytes than asked for */
    var failed: bool
    /** `gcount()`: the number of bytes the last read delivered */
    var gcount: nat

    ghost predicate Valid()
      reads this
    {
      pos <= |data|
    }

    /** Opens a stream on `contents`. A file that cannot be opened behaves like an
        empty one for the reads below, so callers pass the empty sequence for it. */
    constructor Open(contents: seq<Byte>)
      ensures Valid()
      ensures data == contents && pos == 0 && !failed && gcount == 0
    {
      data := contents;
      pos := 0;
      failed := false;
      gcount := 0;
    }

    /** `read(buffer, n)`: a stream in the fail state reads nothing and reports a
        count of 0; otherwise up to `n` bytes are copied to the front of the
        buffer, the rest of the buffer keeps its old bytes, and a read that got
        fewer than `n` bytes puts the stream into the fail state. The result is
        the stream's truth value after the read. */
    method Read(buffer: array<Byte>, n: nat) returns (ok: bool)
      requires Valid() && n <= buffer.Length
      modifies this, buffer
      ensures Valid()
      ensures old(failed) ==>
                pos == old(pos) && failed && gcount == 0 && buffer[..] == old(buffer[..])
      ensures !old(failed) ==>
                && gcount == Min(n, |data| - old(pos))
                && pos == old(pos) + gcount
                && failed == (gcount < n)
                && buffer[..] == data[old(pos)..pos] + old(buffer[..])[gcount..]
      ensures ok == !failed
    {
      if failed {
        gcount := 0;
      } else {
        var count := Min(n, |data| - pos);
        var k := 0;
        while k < count
          modifies buffer
          invariant 0 <= k <= count
          invariant forall j :: 0 <= j < k ==> buffer[j] == data[pos + j]
          invariant forall j :: k <= j < buffer.Length ==> buffer[j] == old(buffer[j])
        {
          buffer[k] := data[pos + k];
          k := k + 1;
        }
        assert buffer[..] == data[pos..pos + count] + old(buffer[..])[count..];
        gcount := count;
        pos := pos + count;
        failed := count < n;
      }
      ok := !failed;
    }
  }
}
