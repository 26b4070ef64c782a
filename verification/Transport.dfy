/** The transport below TLS and DTLS. */
module Transport {
  /** A BIO: what its writes and flushes will answer, the answers given, and what it has taken. */
  class Bio<T> {
    var answers: seq<int>
    var given: seq<int>
    var out: seq<T>

    constructor (answers: seq<int>)
      ensures this.answers == answers && given == [] && out == []
    {
      this.answers, given, out := answers, [], [];
    }

    method Answer() returns (ret: int)
      modifies `answers, `given
      ensures given == old(given) + [ret]
      ensures old(answers) == [] ==> ret == -1 && answers == []
      ensures old(answers) != [] ==> ret == old(answers)[0] && answers == old(answers)[1..]
    {
      if answers == [] {
        ret := -1;
      } else {
        ret := answers[0];
        answers := answers[1..];
      }
      given := given + [ret];
    }

    /** BIO_write of a datagram, which is taken whole or not at all. */
    method WriteDatagram(packet: T) returns (ret: int)
      modifies this
      ensures given == old(given) + [ret] && out == if ret > 0 then old(out) + [packet] else old(out)
      ensures old(answers) == [] ==> ret == -1 && answers == []
      ensures old(answers) != [] ==> ret == old(answers)[0] && answers == old(answers)[1..]
    {
      ret := Answer();
      if ret > 0 {
        out := out + [packet];
      }
    }

    /** BIO_write on a byte stream: takes some of the bytes, or fails. */
    method WriteSome(bytes: seq<T>) returns (ret: int)
      modifies this
      ensures |given| == |old(given)| + 1 && old(given) <= given
      ensures ret == if given[|old(given)|] > |bytes| then |bytes| else given[|old(given)|]
      ensures out == old(out) + if ret > 0 then bytes[..ret] else []
    {
      ret := Answer();
      if ret > |bytes| {
        ret := |bytes|;
      }
      if ret > 0 {
        out := out + bytes[..ret];
      }
    }
  }
}
