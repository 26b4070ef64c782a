/** The replay window of the DTLS record layer (section 4.1.2.6 of RFC 6347). */
module DtlsReplay {
  import opened Bits
  import opened DtlsNumbers

  /** The window (map, max) stands for the set of numbers recorded so far: bit k of the map says
      whether max - k is in the set. */
  ghost predicate Stands(map_: nat, max: nat, recorded: set<nat>) {
    && map_ < TWO_TO_THE_64
    && (forall r | r in recorded :: r <= max)
    && (forall k: nat | k < 64 :: BitAt(map_, k) <==> (k <= max && max - k in recorded))
    && (if recorded == {} then max == 0 else max in recorded)
  }

  lemma ShiftStands(map_: nat, max: nat, recorded: set<nat>, shift: nat)
    requires Stands(map_, max, recorded) && 0 < shift
    ensures var m := if shift >= 64 then 0 else Trunc64(map_ * Pow2(shift));
      forall k: nat | k < 64 :: BitAt(m, k) <==> (k <= max + shift && max + shift - k in recorded)
  {
    hide BitAt, Pow2, Trunc64;
    var m := if shift >= 64 then 0 else Trunc64(map_ * Pow2(shift));
    forall k: nat | k < 64 ensures BitAt(m, k) <==> (k <= max + shift && max + shift - k in recorded) {
      if shift >= 64 {
        ZeroHasNoBits(k);
      } else {
        ShiftedBit(map_, shift, k);
        if k >= shift { assert BitAt(map_, k - shift) <==> (k - shift <= max && max - (k - shift) in recorded); }
      }
    }
  }

  lemma ShiftedBit(map_: nat, shift: nat, k: nat)
    requires k < 64
    ensures BitAt(Trunc64(map_ * Pow2(shift)), k) <==> k >= shift && BitAt(map_, k - shift)
  {
    hide BitAt, Pow2, Trunc64;
    Trunc64Is(map_ * Pow2(shift));
    TruncateBits(map_ * Pow2(shift), 64, k);
    ShiftBits(map_, shift, k);
  }

  lemma Trunc64Is(x: nat)
    ensures Trunc64(x) == x % Pow2(64)
  {
    hide Pow2;
    Pow2Values();
  }

  lemma SetStands(map_: nat, max: nat, recorded: set<nat>, n: nat)
    requires n <= max && map_ < TWO_TO_THE_64
    requires forall r | r in recorded :: r <= max
    requires forall k: nat | k < 64 :: BitAt(map_, k) <==> (k <= max && max - k in recorded)
    requires n == max || max in recorded
    ensures Stands(if max - n < 64 then Or(map_, Pow2(max - n)) else map_, max, recorded + {n})
  {
    hide BitAt, Or, Pow2;
    var i := max - n;
    if i < 64 {
      Pow2Values();
      assert Pow2(i) < Pow2(64) by { Pow2Monotone(i, 63); }
      OrBound(64, map_, Pow2(i));
      forall k: nat | k < 64 ensures BitAt(Or(map_, Pow2(i)), k) <==> (k <= max && max - k in recorded + {n}) {
        OrBits(map_, Pow2(i), k);
        Pow2Bits(i, k);
      }
    }
  }

  /** DTLS1_BITMAP */
  class ReplayWindow {
    var map_: nat
    var maxSeqNum: nat

    ghost predicate Represents(recorded: set<nat>)
      reads this
    {
      Stands(map_, maxSeqNum, recorded)
    }

    constructor ()
      ensures Represents({})
    {
      map_, maxSeqNum := 0, 0;
      new;
      forall k: nat | k < 64 ensures !BitAt(0, k) { ZeroHasNoBits(k); }
    }

    /** OPENSSL_memset to zero, on a read epoch change. */
    method Reset()
      modifies this
      ensures Represents({})
    {
      map_, maxSeqNum := 0, 0;
      forall k: nat | k < 64 ensures !BitAt(0, k) { ZeroHasNoBits(k); }
    }

    /** dtls1_bitmap_should_discard: a number is discarded exactly when it has been recorded or lies
        64 or more below the greatest recorded one. */
    method ShouldDiscard(seqNum: nat, ghost recorded: set<nat>) returns (discard: bool)
      requires Represents(recorded)
      ensures discard <==> seqNum in recorded || exists r :: r in recorded && seqNum + 64 <= r
    {
      if seqNum > maxSeqNum {
        return false;
      }
      var idx := maxSeqNum - seqNum;
      return idx >= 64 || BitAt(map_, idx);
    }

    /** dtls1_bitmap_record */
    method Record(seqNum: nat, ghost recorded: set<nat>)
      requires Represents(recorded)
      modifies this
      ensures Represents(recorded + {seqNum})
    {
      hide BitAt, Or, Pow2, Trunc64;
      if seqNum > maxSeqNum {
        var shift := seqNum - maxSeqNum;
        ShiftStands(map_, maxSeqNum, recorded, shift);
        if shift >= 64 {
          map_ := 0;
        } else {
          map_ := Trunc64(map_ * Pow2(shift));
        }
        maxSeqNum := seqNum;
      }
      SetStands(map_, maxSeqNum, recorded, seqNum);
      var idx := maxSeqNum - seqNum;
      if idx < 64 {
        map_ := Or(map_, Pow2(idx));
      }
    }
  }

  // ---------- numbers accepted over a run ----------

  /** The read epoch, the numbers recorded in it, and all numbers ever accepted. A number is the
      64-bit integer of the epoch and the 48-bit sequence number. */
  datatype Reading = Reading(epoch: nat, recorded: set<nat>, accepted: seq<nat>)

  /** A record with this number that the AEAD opens, or not, to a plaintext that is short enough, or
      not; or a change of the read state. */
  datatype ReadOp = Open(number: nat, opens: bool, tooLong: bool) | NewReadEpoch

  function EpochOfNumber(number: nat): nat { number / 0x1_0000_0000_0000 }

  ghost predicate Discarded(rd: Reading, number: nat) {
    number in rd.recorded || exists r :: r in rd.recorded && number + 64 <= r
  }

  ghost predicate Accepts(rd: Reading, op: ReadOp) {
    op.Open? && EpochOfNumber(op.number) == rd.epoch && !Discarded(rd, op.number) && op.opens && !op.tooLong
  }

  ghost function Read(rd: Reading, op: ReadOp): Reading {
    match op
    case Open(n, _, _) =>
      if Accepts(rd, op) then Reading(rd.epoch, rd.recorded + {n}, rd.accepted + [n]) else rd
    case NewReadEpoch => Reading((rd.epoch + 1) % 0x1_0000, {}, rd.accepted)
  }

  ghost function ReadAll(rd: Reading, ops: seq<ReadOp>): Reading
    decreases |ops|
  {
    if ops == [] then rd else ReadAll(Read(rd, ops[0]), ops[1..])
  }

  function ReadEpochChanges(ops: seq<ReadOp>): nat {
    if ops == [] then 0 else (if ops[0].NewReadEpoch? then 1 else 0) + ReadEpochChanges(ops[1..])
  }

  ghost predicate NoReplay(rd: Reading) {
    && NoRepeats(rd.accepted)
    && forall n | n in rd.accepted :: EpochOfNumber(n) < rd.epoch || (EpochOfNumber(n) == rd.epoch && n in rd.recorded)
  }

  lemma ReadKeeps(rd: Reading, op: ReadOp)
    requires NoReplay(rd) && (op.NewReadEpoch? ==> rd.epoch + 1 < 0x1_0000)
    ensures NoReplay(Read(rd, op))
  {
  }

  /** Over any run of records, genuine or not, and of read-epoch changes, no number is accepted
      twice, as long as the 16-bit epoch does not wrap. */
  lemma {:induction false} NothingAcceptedTwice(rd: Reading, ops: seq<ReadOp>)
    requires NoReplay(rd) && rd.epoch + ReadEpochChanges(ops) < 0x1_0000
    ensures NoReplay(ReadAll(rd, ops))
    decreases |ops|
  {
    if ops != [] {
      ReadKeeps(rd, ops[0]);
      NothingAcceptedTwice(Read(rd, ops[0]), ops[1..]);
    }
  }
}
