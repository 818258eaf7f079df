/** One end of a byte stream: what will ever arrive before the other end closes, and what was sent. */
module Socks5Stream {
  import opened ByteOrder

  class Stream {
    var input: Bytes
    var sent: Bytes

    constructor (input: Bytes)
      ensures this.input == input && sent == []
    {
      this.input, sent := input, [];
    }

    method Send(b: Bytes)
      modifies this`sent
      ensures sent == old(sent) + b
    {
      sent := sent + b;
    }

    /** Waits for `n` bytes, or for the end; fewer are all there are. */
    method Recv(n: nat) returns (b: Bytes)
      modifies this`input
      ensures if |old(input)| >= n then b == old(input)[..n] && input == old(input)[n..] else b == old(input) && input == []
    {
      if |input| >= n {
        b, input := input[..n], input[n..];
      } else {
        b, input := input, [];
      }
    }
  }
}
