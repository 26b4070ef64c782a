/** The DTLS record layer: sealing records with fresh numbers, and opening them behind the replay
    window. */
module DtlsRecord {
  import opened Bits
  import opened Wrappers
  import opened TlsWire
  import opened DtlsFragment
  import opened DtlsNumbers
  import opened DtlsReplay

  const DTLS1_RT_HEADER_LENGTH: int := 13
  const RT_MAX_PLAIN_LENGTH: int := 16384
  const RT_MAX_ENCRYPTED_LENGTH: int := 16704     // 256 + 64 + 16384

  /** SSLAEADContext: the cipher of one epoch. The record number is passed as one 64-bit integer. */
  datatype Aead = Aead(
    nullCipher: bool, version: nat, maxOverhead: nat, explicitNonceLen: nat,
    seal: (nat, nat, nat, seq<byte>) -> Option<seq<byte>>,
    open: (nat, nat, nat, seq<byte>) -> Option<seq<byte>>)
  {
    /** What is assumed of a cipher: opening undoes sealing, and the overhead is bounded. */
    ghost predicate Correct() {
      && version < 0x1_0000 && explicitNonceLen <= maxOverhead
      && forall t, v, n, p :: seal(t, v, n, p).Some? ==>
           |seal(t, v, n, p).value| <= |p| + maxOverhead && open(t, v, n, seal(t, v, n, p).value) == Some(p)
    }
  }

  // ---------- the bytes of a record ----------

  datatype Record = Record(typ: nat, version: nat, number: nat, body: seq<byte>) {
    predicate Fits() {
      typ < 0x100 && version < 0x1_0000 && number < TWO_TO_THE_64 && |body| < 0x1_0000
    }

    function Bytes(): (r: seq<byte>)
      ensures |r| == DTLS1_RT_HEADER_LENGTH + |body|
    {
      BigEndian(typ, 1) + BigEndian(version, 2) + BigEndian(number, 8) + BigEndian(|body|, 2) + body
    }
  }

  /** The header checks at the start of dtls_open_record. */
  function ParseRecord(bs: seq<byte>): (r: Option<(Record, seq<byte>)>)
    ensures r.Some? ==> |r.value.1| < |bs|
  {
    if |bs| < DTLS1_RT_HEADER_LENGTH then None
    else
      var len := FromBigEndian(bs[11..13]);
      if |bs| - DTLS1_RT_HEADER_LENGTH < len || len > RT_MAX_ENCRYPTED_LENGTH then None
      else Some((Record(FromBigEndian(bs[..1]), FromBigEndian(bs[1..3]), FromBigEndian(bs[3..11]), bs[13..13 + len]),
          bs[13 + len..]))
  }

  lemma RecordRoundTrip(r: Record, rest: seq<byte>)
    requires r.Fits() && |r.body| <= RT_MAX_ENCRYPTED_LENGTH
    ensures ParseRecord(r.Bytes() + rest) == Some((r, rest))
  {
    hide BigEndian, FromBigEndian;
    Pow2Values();
    Pow2Add(8, 8);
    BigEndianRoundTrip(r.typ, 1);
    BigEndianRoundTrip(r.version, 2);
    BigEndianRoundTrip(r.number, 8);
    BigEndianRoundTrip(|r.body|, 2);
    var bs := r.Bytes() + rest;
    assert bs[..1] == BigEndian(r.typ, 1);
    assert bs[1..3] == BigEndian(r.version, 2);
    assert bs[3..11] == BigEndian(r.number, 8);
    assert bs[11..13] == BigEndian(|r.body|, 2);
    assert bs[13..13 + |r.body|] == r.body && bs[13 + |r.body|..] == rest;
  }

  /** A packet starts with a record exactly when it starts with the record's bytes. */
  lemma RecordParsesExactly(bs: seq<byte>, r: Record, rest: seq<byte>)
    ensures ParseRecord(bs) == Some((r, rest)) <==>
      bs == r.Bytes() + rest && r.Fits() && |r.body| <= 0x4140
  {
    hide ParseRecord, Record.Fits, Record.Bytes;
    if r.Fits() && bs == r.Bytes() + rest && |r.body| <= 0x4140 { RecordRoundTrip(r, rest); }
    if ParseRecord(bs).Some? { ParsedBytes(bs); }
  }

  lemma ParsedBytes(bs: seq<byte>)
    requires ParseRecord(bs).Some?
    ensures var (r, rest) := ParseRecord(bs).value;
      bs == r.Bytes() + rest && r.Fits() && |r.body| <= RT_MAX_ENCRYPTED_LENGTH
  {
    hide BigEndian, FromBigEndian, Pow2;
    Pow2Values();
    Pow2Add(8, 8);
    BigEndianOf(bs[..1]);
    BigEndianOf(bs[1..3]);
    BigEndianOf(bs[3..11]);
    BigEndianOf(bs[11..13]);
    var n := |ParseRecord(bs).value.0.body|;
    assert bs == bs[..1] + bs[1..3] + bs[3..11] + bs[11..13] + bs[13..13 + n] + bs[13 + n..];
  }

  /** The header of section 4.1 of RFC 6347: type, version, epoch and sequence number, and length, each with
      its most significant byte first. */
  lemma RecordLayout(r: Record)
    requires r.Fits()
    ensures var b := r.Bytes();
      && b[0] == r.typ && b[1] == r.version / 0x100 && b[2] == r.version % 0x100
      && b[3..11] == BigEndian(r.number, 8)
      && b[11] == |r.body| / 0x100 && b[12] == |r.body| % 0x100 && b[13..] == r.body
  {
    hide BigEndian;
    ShortNumbers(r.typ);
    ShortNumbers(r.version);
    ShortNumbers(|r.body|);
  }

  // ---------- sealing ----------

  /** Epoch and sequence number as the 64-bit integer in the record header. */
  function NumberOf(epoch: int, counter: nat): int { epoch * 0x1_0000_0000_0000 + counter }

  /** How sealing goes: the cipher fails or its output has no room in the buffer, which leaves the counter
      alone; or the output is too long for the length field. */
  function AttemptFor(cipher: Aead, typ: nat, version: nat, number: nat, plaintext: seq<byte>, maxOut: nat): Attempt {
    var body := cipher.seal(typ, version, number, plaintext);
    if body.None? || DTLS1_RT_HEADER_LENGTH + |body.value| > maxOut then AeadFails
    else if |body.value| >= 0x1_0000 then FailsLater else Succeeds
  }

  /** The write side: the counters are big-endian byte arrays of which the last six bytes are used. */
  class RecordWriter {
    var epoch: nat
    const writeSequence: array<byte>
    const lastWriteSequence: array<byte>
    var aead: Aead
    var lastAead: Aead
    ghost var numbers: Numbers
    ghost var ops: seq<WriteOp>

    /** The counters are the result of everything done so far. */
    ghost predicate Valid()
      reads this, writeSequence, lastWriteSequence
    {
      && CanRun(START_NUMBERS, ops) && numbers == DoAll(START_NUMBERS, ops)
      && writeSequence.Length == 6 && lastWriteSequence.Length == 6 && writeSequence != lastWriteSequence
      && aead.Correct() && lastAead.Correct()
      && epoch == numbers.epoch < 0x1_0000
      && FromBigEndian(writeSequence[..]) == numbers.next && FromBigEndian(lastWriteSequence[..]) == numbers.last
    }

    constructor (aead: Aead)
      requires aead.Correct()
      ensures Valid() && fresh(writeSequence) && fresh(lastWriteSequence)
      ensures ops == [] && numbers == START_NUMBERS && epoch == 0 && this.aead == aead
    {
      epoch := 0;
      writeSequence := new byte[6](_ => 0);
      lastWriteSequence := new byte[6](_ => 0);
      this.aead := aead;
      lastAead := aead;
      numbers := START_NUMBERS;
      ops := [];
      new;
      AllZero(writeSequence[..]);
      AllZero(lastWriteSequence[..]);
    }

    /** dtls1_set_write_state */
    method SetWriteState(next: Aead)
      requires Valid() && next.Correct()
      modifies this, writeSequence, lastWriteSequence
      ensures Valid() && ops == old(ops) + [NextEpoch] && numbers == Do(old(numbers), NextEpoch)
      ensures aead == next && lastAead == old(aead)
    {
      epoch := (epoch + 1) % 0x1_0000;
      ghost var counter := writeSequence[..];
      forall i | 0 <= i < 6 { lastWriteSequence[i] := writeSequence[i]; }
      assert lastWriteSequence[..] == counter;
      forall i | 0 <= i < 6 { writeSequence[i] := 0; }
      assert lastWriteSequence[..] == counter;
      AllZero(writeSequence[..]);
      lastAead := aead;
      aead := next;
      RunOne(START_NUMBERS, ops, NextEpoch);
      numbers := AfterWriteState(numbers);
      ops := ops + [NextEpoch];
    }

    /** get_write_aead */
    function WriteAead(previous: bool): Aead
      reads `aead, `lastAead
    {
      if previous then lastAead else aead
    }

    /** dtls_max_seal_overhead and dtls_seal_prefix_len */
    function MaxSealOverhead(previous: bool): nat
      reads `aead, `lastAead
    {
      DTLS1_RT_HEADER_LENGTH + WriteAead(previous).maxOverhead
    }

    function SealPrefixLen(previous: bool): nat
      reads `aead, `lastAead
    {
      DTLS1_RT_HEADER_LENGTH + WriteAead(previous).explicitNonceLen
    }

    /** dtls_seal_record into a buffer of maxOut bytes. A sealed record carries the number of the
        counter it used up; using up the last number fails. */
    method SealRecord(typ: nat, plaintext: seq<byte>, previous: bool, maxOut: nat)
      returns (ok: bool, record: Record, ghost attempt: Attempt)
      requires Valid() && typ < 0x100 && (previous ==> epoch >= 1)
      modifies `numbers, `ops, writeSequence, lastWriteSequence
      ensures Valid() && ops == old(ops) + [Seal(previous, attempt)]
        && numbers == Do(old(numbers), Seal(previous, attempt))
      ensures var number: nat := NumberOf(EpochOf(old(numbers), previous), Counter(old(numbers), previous));
        var cipher := WriteAead(previous);
        && attempt == AttemptFor(cipher, typ, aead.version, number, plaintext, maxOut)
        && (ok <==> attempt.Succeeds? && Counter(old(numbers), previous) + 1 < COUNTER_LIMIT)
        && (ok ==> cipher.seal(typ, aead.version, number, plaintext).Some?)
        && (ok ==> record == Record(typ, aead.version, number, cipher.seal(typ, aead.version, number, plaintext).value))
      ensures var c := Counter(old(numbers), previous);
        Counter(numbers, previous) == if attempt.AeadFails? then c else if c + 1 < COUNTER_LIMIT then c + 1 else 0
      ensures numbers.sealed ==
        old(numbers.sealed) + if ok then [(EpochOf(old(numbers), previous), Counter(old(numbers), previous))] else []
      ensures ok ==>
        record.Fits() && |record.Bytes()| <= maxOut
        && |record.Bytes()| <= |plaintext| + MaxSealOverhead(previous)
    {
      hide FromBigEndian, BigEndian, Pow2, Record.Bytes, Aead.Correct, CanRun, DoAll;
      record := Record(0, 0, 0, []);
      attempt := AeadFails;
      RunOne(START_NUMBERS, ops, Seal(previous, AeadFails));
      var e := if previous then epoch - 1 else epoch;
      var cipher := if previous then lastAead else aead;
      var counter := if previous then lastWriteSequence else writeSequence;
      if maxOut < DTLS1_RT_HEADER_LENGTH {
        ops := ops + [Seal(previous, attempt)];
        return false, record, attempt;
      }
      CounterBound(counter[..]);
      var number := NumberOf(e, FromBigEndian(counter[..]));
      var sealed := cipher.seal(typ, aead.version, number, plaintext);
      if sealed.None? || |sealed.value| > maxOut - DTLS1_RT_HEADER_LENGTH {
        ops := ops + [Seal(previous, attempt)];
        return false, record, attempt;
      }
      CounterLimit();
      SealBound(cipher, typ, aead.version, number, plaintext);
      SealBound(aead, typ, aead.version, number, plaintext);
      var updated := SequenceUpdate(counter);
      attempt := if |sealed.value| < 0x1_0000 then Succeeds else FailsLater;
      RunOne(START_NUMBERS, ops, Seal(previous, attempt));
      numbers := AfterSeal(numbers, previous, attempt);
      ops := ops + [Seal(previous, attempt)];
      if !updated || |sealed.value| >= 0x1_0000 {
        return false, record, attempt;
      }
      record := Record(typ, aead.version, number, sealed.value);
      ok := true;
    }
  }

  /** The record is what the cipher makes of the plaintext, under the record's own number. */
  ghost predicate Sealed(cipher: Aead, typ: nat, version: nat, plaintext: seq<byte>, r: Record) {
    r.typ == typ && r.version == version && cipher.seal(typ, version, r.number, plaintext) == Some(r.body)
  }

  lemma RunOne(n: Numbers, ops: seq<WriteOp>, op: WriteOp)
    requires CanRun(n, ops) && CanDo(DoAll(n, ops), op)
    ensures CanRun(n, ops + [op]) && DoAll(n, ops + [op]) == Do(DoAll(n, ops), op)
  {
    assert [op][1..] == [];
    RunAppend(n, ops, [op]);
  }

  /** No two records sealed by a writer carry the same epoch and number, however its seals failed and
      whichever of the two live epochs they used, up to the first overflow of a counter or the epoch; no
      counter overflows in fewer than 2^48 attempts. */
  lemma WriterNumbersFresh(w: RecordWriter)
    requires w.Valid() && EpochChanges(w.ops) < 0x1_0000
    requires !w.numbers.wrapped || Attempts(w.ops) < COUNTER_LIMIT
    ensures NoRepeats(w.numbers.sealed)
  {
    SealedNumbersAreFresh(START_NUMBERS, w.ops);
    if w.numbers.wrapped { FewAttemptsAreFresh(w.ops); }
  }

  /** The records carry numbers of sealed pairs, in the order in which those were used up. */
  predicate Drawn(records: seq<Record>, sealed: seq<(nat, nat)>)
    decreases |sealed|
  {
    if records == [] then true
    else if sealed == [] then false
    else
      var r, p, before := records[|records| - 1], sealed[|sealed| - 1], sealed[..|sealed| - 1];
      (r.number == NumberOf(p.0, p.1) && Drawn(records[..|records| - 1], before)) || Drawn(records, before)
  }

  lemma DrawnOne(records: seq<Record>, r: Record, sealed: seq<(nat, nat)>, p: (nat, nat))
    requires Drawn(records, sealed) && r.number == NumberOf(p.0, p.1)
    ensures Drawn(records + [r], sealed + [p])
  {
    assert (records + [r])[..|records|] == records && (sealed + [p])[..|sealed|] == sealed;
  }

  lemma {:induction false} DrawnMore(records: seq<Record>, sealed: seq<(nat, nat)>, more: seq<(nat, nat)>)
    requires Drawn(records, sealed) && sealed <= more
    ensures Drawn(records, more)
    decreases |more|
  {
    if |sealed| < |more| {
      DrawnMore(records, sealed, more[..|more| - 1]);
    } else {
      assert more == sealed;
    }
  }

  lemma {:induction false} DrawnFrom(records: seq<Record>, sealed: seq<(nat, nat)>, k: nat) returns (i: nat)
    requires Drawn(records, sealed) && k < |records|
    ensures i < |sealed| && records[k].number == NumberOf(sealed[i].0, sealed[i].1)
    decreases |sealed|
  {
    var r, p, before := records[|records| - 1], sealed[|sealed| - 1], sealed[..|sealed| - 1];
    if r.number == NumberOf(p.0, p.1) && Drawn(records[..|records| - 1], before) {
      if k == |records| - 1 { i := |sealed| - 1; } else { i := DrawnFrom(records[..|records| - 1], before, k); }
    } else {
      i := DrawnFrom(records, before, k);
    }
  }

  lemma {:induction false} DrawnDistinct(records: seq<Record>, sealed: seq<(nat, nat)>, j: nat, k: nat)
    requires Drawn(records, sealed) && NoRepeats(sealed) && Counted(sealed) && j < k < |records|
    ensures records[j].number != records[k].number
    decreases |sealed|
  {
    var r, p, before := records[|records| - 1], sealed[|sealed| - 1], sealed[..|sealed| - 1];
    if r.number == NumberOf(p.0, p.1) && Drawn(records[..|records| - 1], before) {
      if k < |records| - 1 {
        DrawnDistinct(records[..|records| - 1], before, j, k);
      } else {
        var i := DrawnFrom(records[..|records| - 1], before, j);
        assert before[i] != p && before[i] == sealed[i];
      }
    } else {
      DrawnDistinct(records, before, j, k);
    }
  }

  /** Records sent with numbers a writer used up carry pairwise distinct numbers, before an overflow. */
  lemma RecordNumbersDistinct(w: RecordWriter, records: seq<Record>, j: nat, k: nat)
    requires w.Valid() && EpochChanges(w.ops) < 0x1_0000 && (!w.numbers.wrapped || Attempts(w.ops) < COUNTER_LIMIT)
    requires Drawn(records, w.numbers.sealed) && j < k < |records|
    ensures records[j].number != records[k].number
  {
    WriterNumbersFresh(w);
    CountedAlways(START_NUMBERS, w.ops);
    DrawnDistinct(records, w.numbers.sealed, j, k);
  }

  lemma SealBound(cipher: Aead, t: nat, v: nat, n: nat, p: seq<byte>)
    requires cipher.Correct()
    ensures cipher.version < 0x1_0000
    ensures cipher.seal(t, v, n, p).Some? ==> |cipher.seal(t, v, n, p).value| <= |p| + cipher.maxOverhead
  {
  }

  lemma CounterLimit()
    ensures Pow2(8 * 6) == COUNTER_LIMIT
  {
    hide Pow2;
    Pow2Values();
    Pow2Add(8, 8);
    Pow2Add(16, 32);
  }

  lemma AllZero(s: seq<byte>)
    requires forall i | 0 <= i < |s| :: s[i] == 0
    ensures FromBigEndian(s) == 0
  {
  }

  lemma CounterBound(s: seq<byte>)
    requires |s| == 6
    ensures FromBigEndian(s) < COUNTER_LIMIT
  {
    FromBigEndianBound(s);
    CounterLimit();
  }

  // ---------- opening ----------

  datatype OpenedRecord =
    | CloseNotify | NeedMore | Discard | RecordError | Alert(plaintext: seq<byte>)
    | Opened(typ: nat, plaintext: seq<byte>)

  /** Does the version in the header suit the cipher? Without a cipher only the major number counts. */
  predicate VersionOk(aead: Aead, version: nat) {
    if aead.nullCipher then version / 0x100 == 0xFE else version == aead.version
  }

  /** The read operation that a record amounts to: whether the cipher opens it, and to how much. */
  function OpenOp(aead: Aead, r: Record): ReadOp {
    var p := aead.open(r.typ, r.version, r.number, r.body);
    Open(r.number, p.Some?, p.Some? && |p.value| > RT_MAX_PLAIN_LENGTH)
  }

  /** What dtls_open_record makes of a packet: the result, the bytes consumed, and the new state.
      Malformed packets are dropped whole; a record of another epoch, a replay or one that does not open
      is dropped alone. */
  ghost function Opening(closed: bool, aead: Aead, rd: Reading, input: seq<byte>): (r: (OpenedRecord, int, Reading))
    ensures 0 <= r.1 <= |input|
  {
    if closed then (CloseNotify, 0, rd)
    else if input == [] then (NeedMore, 0, rd)
    else
      var p := ParseRecord(input);
      if p.None? || !VersionOk(aead, p.value.0.version) then (Discard, |input|, rd)
      else
        var rec, consumed := p.value.0, |input| - |p.value.1|;
        var plaintext := aead.open(rec.typ, rec.version, rec.number, rec.body);
        if EpochOfNumber(rec.number) != rd.epoch || Discarded(rd, rec.number) || plaintext.None? then
          (Discard, consumed, rd)
        else if |plaintext.value| > RT_MAX_PLAIN_LENGTH then (RecordError, consumed, rd)
        else
          var r := if rec.typ == RT_ALERT then Alert(plaintext.value) else Opened(rec.typ, plaintext.value);
          (r, consumed, Read(rd, OpenOp(aead, rec)))
  }

  /** A record is handed out exactly when it is well formed, of the right version, and accepted by epoch,
      window and cipher; otherwise nothing changes. */
  lemma OpeningAccepts(aead: Aead, rd: Reading, input: seq<byte>)
    requires input != []
    ensures var (r, _, rd') := Opening(false, aead, rd, input);
      var p := ParseRecord(input);
      && (r.Opened? || r.Alert? <==>
          && p.Some? && Accepts(rd, OpenOp(aead, p.value.0))
          && var v := p.value.0.version; if aead.nullCipher then 0xFE00 <= v <= 0xFEFF else v == aead.version)
      && rd' == if r.Opened? || r.Alert? then Read(rd, OpenOp(aead, p.value.0)) else rd
  {
    hide ParseRecord, Discarded;
  }

  /** The read side. */
  class RecordReader {
    var epoch: nat
    const window: ReplayWindow
    var aead: Aead
    var closed: bool
    ghost var reading: Reading

    ghost predicate Valid()
      reads this, window
    {
      epoch == reading.epoch && window.Represents(reading.recorded)
    }

    constructor (aead: Aead)
      ensures Valid() && fresh(window) && reading == Reading(0, {}, []) && this.aead == aead && !closed
    {
      epoch := 0;
      window := new ReplayWindow();
      this.aead := aead;
      closed := false;
      reading := Reading(0, {}, []);
    }

    /** dtls1_set_read_state, once no handshake data is left over. */
    method SetReadState(next: Aead)
      requires Valid()
      modifies this, window
      ensures Valid() && reading == Read(old(reading), NewReadEpoch) && aead == next && closed == old(closed)
      ensures reading == Reading((old(epoch) + 1) % 0x1_0000, {}, old(reading.accepted))
    {
      epoch := (epoch + 1) % 0x1_0000;
      window.Reset();
      aead := next;
      reading := Read(reading, NewReadEpoch);
    }

    /** dtls_open_record. Unless a record is handed out, the window is unchanged. */
    method OpenRecord(input: seq<byte>) returns (r: OpenedRecord, consumed: nat)
      requires Valid()
      modifies `reading, window
      ensures Valid() && consumed <= |input|
      ensures (r, consumed as int, reading) == Opening(closed, aead, old(reading), input)
      ensures !r.Opened? && !r.Alert? ==> window.map_ == old(window.map_) && window.maxSeqNum == old(window.maxSeqNum)
      ensures var p := ParseRecord(input);
        !closed && p.Some? ==>
          var v, op := p.value.0.version, OpenOp(aead, p.value.0);
          if (if aead.nullCipher then 0xFE00 <= v <= 0xFEFF else v == aead.version) then
            (r.Opened? || r.Alert? <==> Accepts(old(reading), op)) && consumed == |input| - |p.value.1|
          else r == Discard && consumed == |input|
    {
      hide ParseRecord;
      if closed {
        return CloseNotify, 0;
      }
      if input == [] {
        return NeedMore, 0;
      }
      var p := ParseRecord(input);
      if p.None? || !VersionOk(aead, p.value.0.version) {
        return Discard, |input|;
      }
      var rec := p.value.0;
      consumed := |input| - |p.value.1|;
      var discard := window.ShouldDiscard(rec.number, reading.recorded);
      if rec.number / 0x1_0000_0000_0000 != epoch || discard {
        return Discard, consumed;
      }
      var plaintext := aead.open(rec.typ, rec.version, rec.number, rec.body);
      if plaintext.None? {
        return Discard, consumed;
      }
      if |plaintext.value| > RT_MAX_PLAIN_LENGTH {
        return RecordError, consumed;
      }
      window.Record(rec.number, reading.recorded);
      reading := Read(reading, OpenOp(aead, rec));
      if rec.typ == RT_ALERT {
        return Alert(plaintext.value), consumed;
      }
      return Opened(rec.typ, plaintext.value), consumed;
    }
  }

  /** What a well-formed record at the front of a packet comes to. Under a version that does not suit the cipher
      it takes the packet with it; from another epoch, already seen, too old or not to be opened it is dropped
      alone; a plaintext that is too long is an error; and otherwise it is handed out. */
  lemma RecordOpens(cipher: Aead, r: Record, rest: seq<byte>, rd: Reading)
    requires r.Fits() && |r.body| <= RT_MAX_ENCRYPTED_LENGTH
    ensures var p := cipher.open(r.typ, r.version, r.number, r.body);
      Opening(false, cipher, rd, r.Bytes() + rest) ==
        if !(if cipher.nullCipher then 0xFE00 <= r.version <= 0xFEFF else r.version == cipher.version) then
          (Discard, |r.Bytes() + rest|, rd)
        else if r.number / COUNTER_LIMIT != rd.epoch || r.number in rd.recorded
          || (exists n :: n in rd.recorded && r.number + 64 <= n) || p.None? then (Discard, |r.Bytes()|, rd)
        else if |p.value| > 16384 then (RecordError, |r.Bytes()|, rd)
        else
          var result := if r.typ == RT_ALERT then Alert(p.value) else Opened(r.typ, p.value);
          (result, |r.Bytes()|, Reading(rd.epoch, rd.recorded + {r.number}, rd.accepted + [r.number]))
  {
    hide ParseRecord, Record.Bytes;
    RecordRoundTrip(r, rest);
    assert COUNTER_LIMIT == 0x1_0000_0000_0000;
  }

  /** Opening undoes sealing. A record sealed with the reader's cipher under any version, first in any
      packet, is handed out with its plaintext exactly when the version suits the cipher - any of DTLS when
      there is no cipher, its own otherwise - the number is of the reader's epoch, and the replay window does
      not discard it. */
  lemma SealedOpens(cipher: Aead, typ: nat, version: nat, plaintext: seq<byte>, r: Record, rest: seq<byte>, rd: Reading)
    requires cipher.Correct() && r.Fits() && |r.body| <= RT_MAX_ENCRYPTED_LENGTH
    requires Sealed(cipher, typ, version, plaintext, r)
    ensures Opening(false, cipher, rd, r.Bytes() + rest) ==
      if !(if cipher.nullCipher then 0xFE00 <= version <= 0xFEFF else version == cipher.version) then
        (Discard, |r.Bytes() + rest|, rd)
      else if EpochOfNumber(r.number) != rd.epoch || Discarded(rd, r.number) then (Discard, |r.Bytes()|, rd)
      else if |plaintext| > 16384 then (RecordError, |r.Bytes()|, rd)
      else
        var result := if typ == RT_ALERT then Alert(plaintext) else Opened(typ, plaintext);
        (result, |r.Bytes()|, Read(rd, OpenOp(cipher, r)))
  {
    hide ParseRecord, Discarded, Record.Bytes;
    RecordRoundTrip(r, rest);
    assert cipher.open(r.typ, r.version, r.number, r.body) == Some(plaintext);
  }
}
