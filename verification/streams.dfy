/**
 * The two halves of the client's TCP stream as the server uses them: a
 * reader over the bytes the client sends and a writer collecting the
 * bytes the server sends back.
 */
module Streams {
  import opened Wire

  /** The read half: everything the client will ever send and a cursor. */
  class Reader {
    const input: seq<byte>
    var pos: nat

    ghost predicate Valid()
      reads this
    {
      pos <= |input|
    }

    constructor (data: seq<byte>)
      ensures Valid() && input == data && pos == 0
    {
      input := data;
      pos := 0;
    }

    /**
     * `read_exact` into `buf[0..n]`: when `n` more bytes are available they
     * fill the first `n` cells; otherwise the stream is drained into the
     * front of `buf` and the call fails (Rust's `UnexpectedEof`). Cells
     * from `n` on are never touched.
     */
    method ReadExact(buf: array<byte>, n: nat) returns (ok: bool)
      requires Valid()
      requires n <= buf.Length
      modifies this, buf
      ensures Valid()
      ensures ok <==> old(pos) + n <= |input|
      ensures ok ==> pos == old(pos) + n && buf[..n] == input[old(pos)..pos]
      ensures ok ==> forall i :: 0 <= i < n ==> buf[i] == input[old(pos) + i]
      ensures !ok ==> pos == |input| && buf[..pos - old(pos)] == input[old(pos)..]
      ensures buf[n..] == old(buf[n..])
    {
      var i := 0;
      while i < n && pos < |input|
        invariant 0 <= i <= n
        invariant pos == old(pos) + i <= |input|
        invariant forall k :: 0 <= k < i ==> buf[k] == input[old(pos) + k]
        invariant forall k :: i <= k < buf.Length ==> buf[k] == old(buf[k])
      {
        buf[i] := input[pos];
        pos := pos + 1;
        i := i + 1;
      }
      ok := i == n;
      assert buf[..i] == input[old(pos)..pos];
    }
  }

  /** The write half: every byte written so far, in order. */
  class Writer {
    var output: seq<byte>

    constructor ()
      ensures output == []
    {
      output := [];
    }

    /** A one-byte `write`, taken to deliver its byte in full. */
    method Write(b: byte)
      modifies this
      ensures output == old(output) + [b]
    {
      output := output + [b];
    }
  }

}
