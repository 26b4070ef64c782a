/** Handshake messages over TLS: cut into records, flushed as a flight, and recovered from the stream. */
module TlsFraming {
  import opened Bits
  import opened Wrappers
  import opened Sequences
  import opened Transport
  import opened TlsWire

  const INT_MAX: nat := 0x7fff_ffff

  // ---------- messages and the byte stream ----------

  datatype Message = Message(typ: nat, body: seq<byte>) {
    predicate Fits() { typ < 0x100 && |body| < 0x100_0000 }

    /** Type, 24-bit length, body. */
    function Bytes(): (r: seq<byte>)
      ensures |r| == 4 + |body|
    {
      BigEndian(typ, 1) + BigEndian(|body|, 3) + body
    }
  }

  datatype Peek = NeedBytes(total: nat) | Found(msg: Message)

  /** parse_message: the first message of the buffer, or how many bytes it takes to go on. */
  function ParseMessage(buf: seq<byte>): (r: Peek)
    ensures r.Found? ==> |r.msg.Bytes()| <= |buf|
    ensures r.NeedBytes? ==> |buf| < r.total
  {
    if |buf| < 4 then NeedBytes(4)
    else
      var len := FromBigEndian(buf[1..4]);
      if |buf| - 4 < len then NeedBytes(4 + len) else Found(Message(FromBigEndian(buf[..1]), buf[4..4 + len]))
  }

  lemma MessageRoundTrip(m: Message, rest: seq<byte>)
    requires m.Fits()
    ensures ParseMessage(m.Bytes() + rest) == Found(m)
  {
    hide BigEndian, FromBigEndian;
    Pow2Values();
    Pow2Add(8, 16);
    BigEndianRoundTrip(m.typ, 1);
    BigEndianRoundTrip(|m.body|, 3);
    var bs := m.Bytes() + rest;
    assert bs[..1] == BigEndian(m.typ, 1) && bs[1..4] == BigEndian(|m.body|, 3);
    assert bs[4..4 + |m.body|] == m.body;
  }

  /** A message is found exactly when the buffer starts with its bytes. */
  lemma FoundExactly(buf: seq<byte>, m: Message)
    ensures ParseMessage(buf) == Found(m) <==> m.Fits() && m.Bytes() <= buf
  {
    hide ParseMessage, Message.Fits, Message.Bytes;
    if m.Fits() && m.Bytes() <= buf {
      MessageRoundTrip(m, buf[|m.Bytes()|..]);
      assert buf == m.Bytes() + buf[|m.Bytes()|..];
    }
    if ParseMessage(buf).Found? { FoundBytes(buf); }
  }

  lemma FoundBytes(buf: seq<byte>)
    requires ParseMessage(buf).Found?
    ensures ParseMessage(buf).msg.Fits() && ParseMessage(buf).msg.Bytes() <= buf
  {
    hide BigEndian, FromBigEndian;
    BigEndianOf(buf[..1]);
    BigEndianOf(buf[1..4]);
    Pow2Values();
    Pow2Add(8, 16);
    var m := ParseMessage(buf).msg;
    assert m.Bytes() == buf[..1] + buf[1..4] + buf[4..4 + |m.body|];
  }

  /** Of a message that is not all there, the header is asked for first and then the whole. */
  lemma PrefixNeeds(m: Message, n: nat)
    requires m.Fits() && n < |m.Bytes()|
    ensures ParseMessage(m.Bytes()[..n]) == NeedBytes(if n < 4 then 4 else |m.Bytes()|)
  {
    hide BigEndian, FromBigEndian;
    Pow2Values();
    Pow2Add(8, 16);
    BigEndianRoundTrip(|m.body|, 3);
    var bs := m.Bytes()[..n];
    if n >= 4 { assert bs[1..4] == BigEndian(|m.body|, 3); }
  }

  /** All complete messages of a stream, and what is left. */
  datatype Stream = Stream(msgs: seq<Message>, rest: seq<byte>)

  function ParseAll(bytes: seq<byte>): Stream
    decreases |bytes|
  {
    match ParseMessage(bytes)
    case NeedBytes(_) => Stream([], bytes)
    case Found(m) =>
      var tail := ParseAll(bytes[|m.Bytes()|..]);
      Stream([m] + tail.msgs, tail.rest)
  }

  /** More bytes do not change a message that is complete. */
  lemma ParseExtends(buf: seq<byte>, more: seq<byte>)
    requires ParseMessage(buf).Found?
    ensures ParseMessage(buf + more) == ParseMessage(buf)
  {
    var len := |ParseMessage(buf).msg.body|;
    assert (buf + more)[..1] == buf[..1] && (buf + more)[1..4] == buf[1..4];
    assert (buf + more)[4..4 + len] == buf[4..4 + len];
  }

  lemma ParseAllStep(bytes: seq<byte>)
    ensures ParseMessage(bytes).NeedBytes? ==> ParseAll(bytes) == Stream([], bytes)
    ensures ParseMessage(bytes).Found? ==>
      var m := ParseMessage(bytes).msg;
      var tail := ParseAll(bytes[|m.Bytes()|..]);
      ParseAll(bytes) == Stream([m] + tail.msgs, tail.rest)
  {
  }

  /** Parsing more of a stream goes on from what was left. */
  lemma {:induction false} ParseAllAppend(a: seq<byte>, b: seq<byte>)
    ensures var left := ParseAll(a);
      var more := ParseAll(left.rest + b);
      ParseAll(a + b) == Stream(left.msgs + more.msgs, more.rest)
    decreases |a|
  {
    hide ParseAll, ParseMessage, Message.Bytes;
    ParseAllStep(a);
    var p := ParseMessage(a);
    if p.Found? {
      ParseExtends(a, b);
      ParseAllStep(a + b);
      var n := |p.msg.Bytes()|;
      assert (a + b)[n..] == a[n..] + b;
      ParseAllAppend(a[n..], b);
    }
  }

  /** The first message of the buffer is the next one of the stream. */
  lemma TakeOne(received: seq<byte>, taken: seq<Message>, buf: seq<byte>)
    requires ParseAll(received) == Stream(taken + ParseAll(buf).msgs, ParseAll(buf).rest) && ParseMessage(buf).Found?
    ensures var m := ParseMessage(buf).msg;
      var tail := ParseAll(buf[|m.Bytes()|..]);
      ParseAll(received) == Stream((taken + [m]) + tail.msgs, tail.rest)
  {
    hide ParseAll, ParseMessage, Message.Bytes;
    ParseAllStep(buf);
    var m := ParseMessage(buf).msg;
    var tail := ParseAll(buf[|m.Bytes()|..]);
    assert taken + ([m] + tail.msgs) == (taken + [m]) + tail.msgs;
  }

  /** The handshake stream of a sequence of messages. */
  function Encode(msgs: seq<Message>): seq<byte> {
    if msgs == [] then [] else msgs[0].Bytes() + Encode(msgs[1..])
  }

  lemma {:induction false} EncodeRoundTrip(msgs: seq<Message>)
    requires forall m | m in msgs :: m.Fits()
    ensures ParseAll(Encode(msgs)) == Stream(msgs, [])
  {
    hide ParseMessage, Message.Bytes, Message.Fits;
    if msgs != [] {
      MessageRoundTrip(msgs[0], Encode(msgs[1..]));
      EncodeRoundTrip(msgs[1..]);
      assert Encode(msgs)[|msgs[0].Bytes()|..] == Encode(msgs[1..]);
    } else {
      NoMessage();
    }
  }

  lemma NoMessage()
    ensures ParseMessage([]) == NeedBytes(4)
  {
  }

  // ---------- the sender ----------

  /** A record of the flight and the body it was sealed to. */
  datatype FlightRecord = FlightRecord(typ: nat, plaintext: seq<byte>, bytes: seq<byte>)

  function Bodies(records: seq<FlightRecord>): seq<seq<byte>> {
    seq(|records|, i requires 0 <= i < |records| => records[i].bytes)
  }

  function Plaintexts(records: seq<FlightRecord>): (r: seq<seq<byte>>)
    ensures |r| == |records|
  {
    seq(|records|, i requires 0 <= i < |records| => records[i].plaintext)
  }

  /** A message cut by the fragment limit; an empty message still takes one record. */
  function Chunks(msg: seq<byte>, max: nat): (r: seq<seq<byte>>)
    requires max >= 1
    ensures |r| >= 1
    decreases |msg|
  {
    if |msg| <= max then [msg] else [msg[..max]] + Chunks(msg[max..], max)
  }

  /** All chunks but the last are as long as they may be. */
  lemma {:induction false} ChunksAreFull(msg: seq<byte>, max: nat, k: nat)
    requires max >= 1 && k < |Chunks(msg, max)| - 1
    ensures |Chunks(msg, max)[k]| == max
    decreases k
  {
    if k > 0 { ChunksAreFull(msg[max..], max, k - 1); }
  }

  /** The chunks make up the message; none is too long, and only an empty message has an empty one. */
  lemma {:induction false} ChunksCover(msg: seq<byte>, max: nat)
    requires max >= 1
    ensures Flatten(Chunks(msg, max)) == msg
    ensures forall c | c in Chunks(msg, max) :: |c| <= max && (|c| == 0 ==> msg == [])
    decreases |msg|
  {
    hide Flatten;
    if |msg| <= max {
      assert [msg] == [] + [msg];
      FlattenOne([], msg);
      NoRecords();
    } else {
      ChunksCover(msg[max..], max);
      FlattenFirst(msg[..max], Chunks(msg[max..], max));
    }
  }

  /** The pending flight of an SSL3_STATE. seal stands for tls_seal_record with its record counter. */
  class FlightWriter {
    const bio: Bio<byte>
    const seal: (nat, nat, seq<byte>) -> Option<seq<byte>>
    const maxOverhead: nat
    const maxSendFragment: nat
    var counter: nat
    var pending: Option<seq<byte>>
    var offset: nat
    var shutdown: bool
    ghost var records: seq<FlightRecord>
    /** The bytes of the flights that went out before. */
    ghost var flushed: seq<byte>

    ghost function Flight(): seq<byte>
      reads `pending
    {
      if pending.None? then [] else pending.value
    }

    ghost predicate Valid()
      reads this, bio
    {
      && maxSendFragment >= 1 && offset <= |Flight()|
      && Flight() == Flatten(Bodies(records))
      && bio.out == flushed + Flight()[..offset]
    }

    /** Does tls_seal_record make a record of the input? */
    predicate Seals(counter: nat, typ: nat, input: seq<byte>) {
      seal(counter, typ, input).Some? && |seal(counter, typ, input).value| <= |input| + maxOverhead
    }

    constructor (bio: Bio<byte>, seal: (nat, nat, seq<byte>) -> Option<seq<byte>>, maxOverhead: nat,
        maxSendFragment: nat)
      requires maxSendFragment >= 1
      ensures Valid() && this.bio == bio && this.maxSendFragment == maxSendFragment
      ensures pending == None && records == [] && flushed == bio.out && !shutdown
    {
      this.bio, this.seal := bio, seal;
      this.maxOverhead, this.maxSendFragment := maxOverhead, maxSendFragment;
      counter, pending, offset, shutdown := 0, None, 0, false;
      records, flushed := [], bio.out;
    }

    /** add_record_to_flight */
    method AddRecord(typ: nat, input: seq<byte>) returns (ok: bool, ghost r: FlightRecord)
      requires Valid() && offset == 0
      modifies `counter, `pending, `records
      ensures Valid() && records == if ok then old(records) + [r] else old(records)
      ensures ok <==> Seals(old(counter), typ, input)
      ensures ok <==> var s := seal(old(counter), typ, input); s.Some? && |s.value| <= |input| + maxOverhead
      ensures ok ==> r == FlightRecord(typ, input, seal(old(counter), typ, input).value)
      ensures counter == if ok then old(counter) + 1 else old(counter)
    {
      hide Flatten;
      r := FlightRecord(typ, input, []);
      if pending.None? {
        pending := Some([]);
      }
      if !Seals(counter, typ, input) {
        return false, r;
      }
      var sealed := seal(counter, typ, input);
      FlattenOne(Bodies(records), sealed.value);
      counter, pending := counter + 1, Some(pending.value + sealed.value);
      r := FlightRecord(typ, input, sealed.value);
      assert Bodies(records + [r]) == Bodies(records) + [sealed.value];
      records := records + [r];
      return true, r;
    }

    /** ssl3_add_message: the message in records of at most max_send_fragment bytes. When it fails, some
        of the records are in the flight. */
    method AddMessage(msg: seq<byte>) returns (ok: bool, ghost added: seq<FlightRecord>)
      requires Valid() && offset == 0
      modifies `counter, `pending, `records
      ensures Valid() && records == old(records) + added && forall r | r in added :: r.typ == RT_HANDSHAKE
      ensures Plaintexts(added) <= Chunks(msg, maxSendFragment)
      ensures ok <==> Plaintexts(added) == Chunks(msg, maxSendFragment)
      ensures !ok ==>
        |added| < |Chunks(msg, maxSendFragment)|
        && !Seals(counter, RT_HANDSHAKE, Chunks(msg, maxSendFragment)[|added|])
    {
      hide Flatten, Bodies, Plaintexts, Chunks, FlightWriter.Seals, Splits;
      ghost var max, all := maxSendFragment, Chunks(msg, maxSendFragment);
      var rest, first := msg, true;
      added := [];
      ghost var todo := all;
      SplitsStart(all);
      while first || rest != []
        invariant Valid() && records == old(records) + added && forall r | r in added :: r.typ == RT_HANDSHAKE
        invariant Splits(Plaintexts(added), todo, all)
        invariant todo == if first || rest != [] then Chunks(rest, max) else []
        decreases first, |rest|
      {
        ChunkStep(rest, max);
        var n := if |rest| <= maxSendFragment then |rest| else maxSendFragment;
        var chunk := rest[..n];
        rest := rest[n..];
        first := false;
        ghost var r;
        ok, r := AddRecord(RT_HANDSHAKE, chunk);
        SplitsNext(added, todo, all, r);
        if !ok {
          return false, added;
        }
        added := added + [r];
        todo := todo[1..];
      }
      SplitsEnd(added, all);
      return true, added;
    }

    /** ssl3_add_change_cipher_spec */
    method AddChangeCipherSpec() returns (ok: bool, ghost r: FlightRecord)
      requires Valid() && offset == 0
      modifies `counter, `pending, `records
      ensures Valid() && records == if ok then old(records) + [r] else old(records)
      ensures ok <==> Seals(old(counter), RT_CHANGE_CIPHER_SPEC, [1])
      ensures ok ==> r.typ == RT_CHANGE_CIPHER_SPEC && r.plaintext == [1]
    {
      ok, r := AddRecord(RT_CHANGE_CIPHER_SPEC, [1]);
    }

    /** What the result says: nothing was pending or the transport accepted everything; or writing is
        not allowed; or the transport's last answer was a refusal. */
    ghost predicate Outcome(ret: int, before: seq<int>, given: seq<int>, was: Option<seq<byte>>)
      reads `pending, `offset, `shutdown
    {
      && before <= given
      && if was.None? then ret == 1 && given == before
         else if shutdown || |was.value| > INT_MAX then ret == -1 && given == before
         else if ret == 1 then forall k | |before| <= k < |given| :: given[k] > 0
         else
           && |given| > |before| && given[|given| - 1] <= 0
           && ret == if offset < |was.value| then given[|given| - 1] else -1
    }

    /** The write loop of ssl3_flush_flight: ends with everything written, or with the transport's refusal. */
    method WritePending() returns (ret: int)
      requires Valid() && pending.Some?
      modifies `offset, bio
      ensures Valid() && offset >= old(offset) && old(bio.out) <= bio.out && old(bio.given) <= bio.given
      ensures if ret > 0 then
                offset == |pending.value| && forall k | |old(bio.given)| <= k < |bio.given| :: bio.given[k] > 0
              else
                && offset < |pending.value| && |bio.given| > |old(bio.given)|
                && bio.given[|bio.given| - 1] == ret
    {
      hide Flatten, Bodies;
      while offset < |pending.value|
        invariant Valid() && offset >= old(offset) && old(bio.out) <= bio.out && old(bio.given) <= bio.given
        invariant forall k | |old(bio.given)| <= k < |bio.given| :: bio.given[k] > 0
        decreases |pending.value| - offset
      {
        var n := bio.WriteSome(pending.value[offset..]);
        if n <= 0 {
          return n;
        }
        SliceMore(pending.value, offset, n);
        offset := offset + n;
      }
      return 1;
    }

    /** ssl3_flush_flight: whatever part of it the transport takes at a time, and however often the call
        has to be repeated, the flight goes out exactly once and in order. */
    method FlushFlight() returns (ret: int)
      requires Valid()
      modifies `pending, `offset, `records, `flushed, bio
      ensures Valid() && old(bio.out) <= bio.out
      ensures ret == 1 ==>
        bio.out == flushed == old(flushed) + old(Flight()) && pending == None && records == []
        && offset == 0
      ensures ret != 1 ==>
        pending == old(pending) && records == old(records) && flushed == old(flushed)
        && offset >= old(offset)
      ensures Outcome(ret, old(bio.given), bio.given, old(pending))
    {
      hide Flatten, Bodies;
      NoBodies();
      if pending.None? {
        records, flushed, offset := [], bio.out, 0;
        return 1;
      }
      if shutdown || |pending.value| > INT_MAX {
        return -1;
      }
      var written := WritePending();
      if written <= 0 {
        return written;
      }
      var answer := bio.Answer();
      if answer <= 0 {
        return -1;
      }
      assert pending.value[..offset] == pending.value;
      pending, offset := None, 0;
      records, flushed := [], bio.out;
      return 1;
    }
  }

  lemma SliceMore(s: seq<byte>, from: nat, n: nat)
    requires from + n <= |s|
    ensures s[..from] + s[from..][..n] == s[..from + n]
  {
  }

  lemma NoBodies()
    ensures Flatten(Bodies([])) == []
  {
  }

  /** The chunks sealed and those still to come. */
  predicate Splits(done: seq<seq<byte>>, todo: seq<seq<byte>>, all: seq<seq<byte>>) { all == done + todo }

  lemma SplitsStart(all: seq<seq<byte>>)
    ensures Splits(Plaintexts([]), all, all)
  {
  }

  lemma SplitsNext(added: seq<FlightRecord>, todo: seq<seq<byte>>, all: seq<seq<byte>>, r: FlightRecord)
    requires Splits(Plaintexts(added), todo, all) && todo != []
    ensures Plaintexts(added) <= all && |added| < |all| && all[|added|] == todo[0] && Plaintexts(added) != all
    ensures r.plaintext == todo[0] ==> Splits(Plaintexts(added + [r]), todo[1..], all)
  {
  }

  lemma SplitsEnd(added: seq<FlightRecord>, all: seq<seq<byte>>)
    requires Splits(Plaintexts(added), [], all)
    ensures Plaintexts(added) == all
  {
  }

  lemma ChunkStep(rest: seq<byte>, max: nat)
    requires max >= 1
    ensures var n := if |rest| <= max then |rest| else max;
      Chunks(rest, max) == [rest[..n]] + if rest[n..] == [] then [] else Chunks(rest[n..], max)
  {
    if |rest| <= max { assert rest[..|rest|] == rest; }
  }

  // ---------- the receiver ----------

  /** The handshake buffer of an SSL3_STATE. */
  class HandshakeReader {
    var hsBuf: Option<seq<byte>>
    var hasMessage: bool
    /** Everything appended so far, and the messages consumed. */
    ghost var received: seq<byte>
    ghost var taken: seq<Message>

    ghost function Buffer(): seq<byte>
      reads `hsBuf
    {
      if hsBuf.None? then [] else hsBuf.value
    }

    /** What has been consumed are the first messages of the stream, and the buffer is the rest. */
    ghost predicate Valid()
      reads this
    {
      && ParseAll(received) == Stream(taken + ParseAll(Buffer()).msgs, ParseAll(Buffer()).rest)
      && (hasMessage ==> ParseMessage(Buffer()).Found?)
    }

    constructor ()
      ensures Valid() && received == [] && taken == [] && hsBuf == None && !hasMessage
    {
      hsBuf, hasMessage, received, taken := None, false, [], [];
    }

    /** parse_message on the buffer, if there is one. */
    method Parse() returns (p: Peek)
      ensures p == ParseMessage(Buffer())
    {
      if hsBuf.None? {
        return NeedBytes(4);
      }
      p := ParseMessage(hsBuf.value);
    }

    /** tls_can_accept_handshake_data */
    method CanAccept(maxMessageLen: nat) returns (ok: bool)
      ensures ok <==> ParseMessage(Buffer()).NeedBytes? && ParseMessage(Buffer()).total <= 4 + maxMessageLen
    {
      var p := Parse();
      ok := p.NeedBytes? && p.total <= 4 + maxMessageLen;
    }

    /** The end of ssl3_open_handshake: the plaintext of a handshake record is appended. */
    method Append(record: seq<byte>)
      requires Valid()
      modifies this
      ensures Valid() && received == old(received) + record && taken == old(taken) && hasMessage == old(hasMessage)
      ensures Buffer() == old(Buffer()) + record
    {
      hide ParseMessage, ParseAll;
      ghost var before := Buffer();
      ParseAllAppend(received, record);
      ParseAllAppend(before, record);
      ParseAllAppend(ParseAll(before).rest, record);
      if hasMessage { ParseExtends(before, record); }
      hsBuf := Some((if hsBuf.None? then [] else hsBuf.value) + record);
      received := received + record;
    }

    /** ssl3_get_message. When there is none, everything in the stream has been consumed. */
    method GetMessage() returns (msg: Option<Message>)
      requires Valid()
      modifies `hasMessage
      ensures Valid() && hasMessage == (old(hasMessage) || msg.Some?)
      ensures msg.Some? <==> ParseMessage(Buffer()).Found?
      ensures msg.Some? ==> msg.value == ParseMessage(Buffer()).msg && taken + [msg.value] <= ParseAll(received).msgs
      ensures msg.None? ==> ParseAll(received) == Stream(taken, Buffer())
    {
      var p := Parse();
      if p.NeedBytes? {
        return None;
      }
      hasMessage := true;
      return Some(p.msg);
    }

    /** ssl3_next_message: the current message is shifted out of the buffer. */
    method NextMessage(inInit: bool)
      requires Valid()
      modifies this
      ensures Valid() && received == old(received)
      ensures old(ParseMessage(Buffer())).NeedBytes? ==> taken == old(taken) && hsBuf == old(hsBuf)
      ensures old(ParseMessage(Buffer())).Found? ==>
        var m := old(ParseMessage(Buffer())).msg;
        taken == old(taken) + [m] && !hasMessage && Buffer() == old(Buffer())[|m.Bytes()|..]
      ensures !inInit && old(ParseMessage(Buffer())).Found? && Buffer() == [] ==> hsBuf == None
    {
      hide ParseAll, ParseMessage, Message.Bytes;
      ghost var buffer := Buffer();
      var msg := GetMessage();
      if msg.None? {
        return;
      }
      TakeOne(received, taken, buffer);
      hsBuf := Some(hsBuf.value[4 + |msg.value.body|..]);
      hasMessage := false;
      taken := taken + [msg.value];
      if !inInit && |hsBuf.value| == 0 {
        hsBuf := None;
      }
    }

    /** tls_has_unprocessed_handshake_data: bytes beyond the message that has been handed out. */
    method HasUnprocessed() returns (more: bool)
      requires Valid()
      ensures more <==> |Buffer()| > if hasMessage then |ParseMessage(Buffer()).msg.Bytes()| else 0
    {
      var len := 0;
      if hasMessage {
        var p := Parse();
        len := 4 + |p.msg.body|;
      }
      more := hsBuf.Some? && |hsBuf.value| > len;
    }
  }

  lemma NoRecords()
    ensures Flatten<byte>([]) == [] && ParseAll([]) == Stream([], [])
  {
  }

  /** The record plaintexts of a sender that adds the messages one after another. */
  function AllChunks(msgs: seq<Message>, max: nat): seq<seq<byte>>
    requires max >= 1
  {
    if msgs == [] then [] else Chunks(msgs[0].Bytes(), max) + AllChunks(msgs[1..], max)
  }

  lemma {:induction false} AllChunksCover(msgs: seq<Message>, max: nat)
    requires max >= 1
    ensures Flatten(AllChunks(msgs, max)) == Encode(msgs)
  {
    hide Flatten, Chunks, Message.Bytes;
    if msgs != [] {
      ChunksCover(msgs[0].Bytes(), max);
      AllChunksCover(msgs[1..], max);
      FlattenAppend(Chunks(msgs[0].Bytes(), max), AllChunks(msgs[1..], max));
    } else {
      NoRecords();
    }
  }

  /** Main theorem: the messages are recovered from the sender's records for every fragment limit, and
      from every other division of the same bytes into records. */
  lemma MessagesSurvive(msgs: seq<Message>, max: nat, records: seq<seq<byte>>)
    requires max >= 1 && forall m | m in msgs :: m.Fits()
    ensures Flatten(AllChunks(msgs, max)) == Encode(msgs)
    ensures Flatten(records) == Flatten(AllChunks(msgs, max)) ==> ParseAll(Flatten(records)) == Stream(msgs, [])
  {
    hide Flatten, AllChunks, ParseAll, Message.Fits;
    AllChunksCover(msgs, max);
    EncodeRoundTrip(msgs);
  }

  /** Takes all complete messages out of the buffer. */
  method TakeMessages(reader: HandshakeReader, inInit: bool) returns (msgs: seq<Message>)
    requires reader.Valid()
    modifies reader
    ensures reader.Valid() && reader.received == old(reader.received) && reader.taken == old(reader.taken) + msgs
    ensures ParseAll(reader.received) == Stream(reader.taken, reader.Buffer())
  {
    hide ParseMessage, ParseAll, Message.Bytes;
    msgs := [];
    var msg := reader.GetMessage();
    while msg.Some?
      invariant reader.Valid() && reader.received == old(reader.received) && reader.taken == old(reader.taken) + msgs
      invariant msg.Some? <==> ParseMessage(reader.Buffer()).Found?
      invariant msg.Some? ==> msg.value == ParseMessage(reader.Buffer()).msg
      invariant msg.None? ==> ParseAll(reader.received) == Stream(reader.taken, reader.Buffer())
      decreases |reader.Buffer()|
    {
      reader.NextMessage(inInit);
      msgs := msgs + [msg.value];
      msg := reader.GetMessage();
    }
  }

  /** Records are appended one by one, and after each one all complete messages are taken out. */
  method ReadRecords(records: seq<seq<byte>>, inInit: bool) returns (msgs: seq<Message>, reader: HandshakeReader)
    ensures msgs == ParseAll(Flatten(records)).msgs
    ensures fresh(reader) && reader.Valid() && reader.received == Flatten(records)
      && reader.Buffer() == ParseAll(Flatten(records)).rest
  {
    hide ParseMessage, ParseAll, Flatten, Message.Bytes;
    NoRecords();
    reader := new HandshakeReader();
    msgs := [];
    for i := 0 to |records|
      invariant fresh(reader) && reader.Valid() && reader.taken == msgs && reader.received == Flatten(records[..i])
      invariant ParseAll(reader.received) == Stream(msgs, reader.Buffer())
    {
      reader.Append(records[i]);
      FlattenOne(records[..i], records[i]);
      assert records[..i + 1] == records[..i] + [records[i]];
      var more := TakeMessages(reader, inInit);
      msgs := msgs + more;
    }
    assert records[..|records|] == records;
  }
}
