/**
 The reassembly bitmask of d1_both.c: one bit a message byte, marked in place as fragments arrive.
 `table` stands for `bitmask_end_values`, so that the table the code has and the table it should
 have can be compared.
 */
module Reassembly {
  import opened Bits

  const START_VALUES: seq<byte> := [0xff, 0xfe, 0xfc, 0xf8, 0xf0, 0xe0, 0xc0, 0x80]
  const END_VALUES: seq<byte> := [0x00, 0x01, 0x03, 0x07, 0x0f, 0x1f, 0x3f, 0x7f]
  /** The same table with a full byte where a message ends on a byte boundary of the bitmask. */
  const REPAIRED_END_VALUES: seq<byte> := [0xff, 0x01, 0x03, 0x07, 0x0f, 0x1f, 0x3f, 0x7f]

  predicate IsEndTable(table: seq<byte>) {
    table == END_VALUES || table == REPAIRED_END_VALUES
  }

  function BitmaskSize(msgLen: nat): nat { (msgLen + 7) / 8 }

  predicate Marked(mask: seq<byte>, i: nat)
    requires i < 8 * |mask|
  {
    Bit(mask[i / 8], i % 8)
  }

  function OrByte(a: byte, b: byte): (r: byte)
    ensures forall k: nat :: Bit(r, k) <==> Bit(a, k) || Bit(b, k)
  {
    OrBound(a, b, 8);
    assert Pow2(8) == 256;
    forall k: nat ensures Bit(Or(a, b), k) <==> Bit(a, k) || Bit(b, k) { BitOr(a, b, k); }
    Or(a, b)
  }

  /** `1 << k` in a byte */
  function OneBit(k: nat): (r: byte)
    requires k < 8
    ensures forall j: nat :: Bit(r, j) <==> j == k
  {
    forall j: nat ensures Bit(Shl(1, k), j) <==> j == k { BitOfPow2(k, j); }
    ShlIsTimes(1, k);
    SmallPowers();
    Shl(1, k)
  }

  /** What the short branch of the marking macro does to the bitmask. */
  function SetBits(mask: seq<byte>, start: nat, end: nat): (r: seq<byte>)
    requires start <= end <= 8 * |mask|
    ensures |r| == |mask|
    decreases end
  {
    if start == end then mask
    else
      var m := SetBits(mask, start, end - 1);
      m[(end - 1) / 8 := OrByte(m[(end - 1) / 8], OneBit((end - 1) % 8))]
  }

  /** Byte `j` of the bitmask after the long branch of the marking macro. */
  function LongByte(table: seq<byte>, old_: byte, j: nat, start: nat, end: nat): byte
    requires |table| == 8 && start + 8 < end
  {
    if j == start / 8 then OrByte(old_, START_VALUES[start % 8])
    else if start / 8 < j < (end - 1) / 8 then 0xff
    else if j == (end - 1) / 8 then OrByte(old_, table[end % 8])
    else old_
  }

  function Mark(table: seq<byte>, mask: seq<byte>, start: nat, end: nat): (r: seq<byte>)
    requires |table| == 8 && start <= end <= 8 * |mask|
    ensures |r| == |mask|
  {
    if end - start <= 8 then SetBits(mask, start, end)
    else seq(|mask|, j requires 0 <= j < |mask| => LongByte(table, mask[j], j, start, end))
  }

  predicate IsComplete(table: seq<byte>, mask: seq<byte>, msgLen: nat)
    requires |table| == 8 && 0 < msgLen && |mask| == BitmaskSize(msgLen)
  {
    && mask[(msgLen - 1) / 8] == table[msgLen % 8]
    && forall j :: 0 <= j < (msgLen - 1) / 8 ==> mask[j] == 0xff
  }

  /** RSMBLY_BITMASK_MARK, in place. */
  method MarkInPlace(table: seq<byte>, bitmask: array<byte>, start: nat, end: nat)
    requires |table| == 8 && start <= end <= 8 * bitmask.Length
    modifies bitmask
    ensures bitmask[..] == Mark(table, old(bitmask[..]), start, end)
  {
    if end - start <= 8 {
      MarkShort(bitmask, start, end);
    } else {
      MarkLong(table, bitmask, start, end);
    }
  }

  /** Bit by bit. */
  method MarkShort(bitmask: array<byte>, start: nat, end: nat)
    requires start <= end <= 8 * bitmask.Length
    modifies bitmask
    ensures bitmask[..] == SetBits(old(bitmask[..]), start, end)
  {
    var ii := start;
    while ii < end
      invariant start <= ii <= end
      invariant bitmask[..] == SetBits(old(bitmask[..]), start, ii)
    {
      bitmask[ii / 8] := OrByte(bitmask[ii / 8], OneBit(ii % 8));
      ii := ii + 1;
    }
  }

  /** The ends by the tables, and what is between them octet by octet. */
  method MarkLong(table: seq<byte>, bitmask: array<byte>, start: nat, end: nat)
    requires |table| == 8 && start + 8 < end <= 8 * bitmask.Length
    modifies bitmask
    ensures bitmask[..] == Mark(table, old(bitmask[..]), start, end)
  {
    ghost var was := bitmask[..];
    bitmask[start / 8] := OrByte(bitmask[start / 8], START_VALUES[start % 8]);
    var ii := start / 8 + 1;
    while ii < (end - 1) / 8
      invariant start / 8 < ii <= (end - 1) / 8
      invariant forall j :: 0 <= j < bitmask.Length ==>
        bitmask[j] == if j < ii then LongByte(table, was[j], j, start, end) else was[j]
    {
      bitmask[ii] := 0xff;
      ii := ii + 1;
    }
    bitmask[(end - 1) / 8] := OrByte(bitmask[(end - 1) / 8], table[end % 8]);
  }

  /** RSMBLY_BITMASK_IS_COMPLETE. */
  method CheckComplete(table: seq<byte>, bitmask: array<byte>, msgLen: nat) returns (isComplete: bool)
    requires |table| == 8 && 0 < msgLen && bitmask.Length == BitmaskSize(msgLen)
    ensures isComplete <==> IsComplete(table, bitmask[..], msgLen)
  {
    isComplete := bitmask[(msgLen - 1) / 8] == table[msgLen % 8];
    if isComplete {
      var ii := (msgLen - 1) / 8 - 1;
      while ii >= 0
        invariant -1 <= ii < (msgLen - 1) / 8
        invariant forall j :: ii < j < (msgLen - 1) / 8 ==> bitmask[j] == 0xff
      {
        if bitmask[ii] != 0xff {
          return false;
        }
        ii := ii - 1;
      }
    }
  }

  // ---- what marking means -------------------------------------------------------------------

  datatype Range = Range(off: nat, len: nat) {
    predicate Holds(i: nat) { off <= i < off + len }

    /** The guard of the branch that loses bits: a long fragment whose end is a multiple of 8. */
    predicate LosesTail() { len > 8 && (off + len) % 8 == 0 }

    /** The bytes the bitmask records for the fragment. */
    predicate Records(table: seq<byte>, i: nat) {
      off <= i < if LosesTail() && table == END_VALUES then off + len - 8 else off + len
    }
  }

  lemma {:induction false} StartBits(r: nat, k: nat)
    requires r < 8
    ensures Bit(START_VALUES[r], k) <==> r <= k < 8
  {
    // 256 - 2^r is 2^r times 2^(8-r) - 1
    var ones := Pow2(8 - r) - 1;
    assert Shl(ones, r) == START_VALUES[r] by {
      assert START_VALUES[r] == [255, 2 * 127, 4 * 63, 8 * 31, 16 * 15, 32 * 7, 64 * 3, 128][r];
      SmallPowers();
      ShlIsTimes(ones, r);
    }
    BitShl(ones, r, k);
    if k >= r {
      BitsOfOnes(8 - r, k - r);
    }
  }

  lemma {:induction false} EndBits(table: seq<byte>, r: nat, k: nat)
    requires IsEndTable(table) && r < 8
    ensures Bit(table[r], k) <==> if r == 0 then table == REPAIRED_END_VALUES && k < 8 else k < r
  {
    SmallPowers();
    assert END_VALUES[0] != REPAIRED_END_VALUES[0];
    if r == 0 {
      BitsOfOnes(8, k);
      BitZero(k);
    } else {
      assert table[r] == [0, 1, 3, 7, 15, 31, 63, 127][r];
      BitsOfOnes(r, k);
    }
  }

  lemma {:induction false} FullBits(b: byte, k: nat)
    requires b == 0xff
    ensures Bit(b, k) <==> k < 8
  {
    SmallPowers();
    BitsOfOnes(8, k);
    assert b == Pow2(8) - 1;
  }

  lemma {:induction false} SetBitsMarks(mask: seq<byte>, start: nat, end: nat, i: nat)
    requires start <= end <= 8 * |mask| && i < 8 * |mask|
    ensures Marked(SetBits(mask, start, end), i) <==> Marked(mask, i) || start <= i < end
    decreases end
  {
    if start < end {
      SetBitsMarks(mask, start, end - 1, i);
    }
  }

  /** Marking a long fragment, seen on one byte of the bitmask. */
  lemma {:induction false} LongByteMarks(table: seq<byte>, b: byte, f: Range, j: nat, k: nat)
    requires IsEndTable(table) && f.len > 8 && k < 8
    ensures Bit(LongByte(table, b, j, f.off, f.off + f.len), k) <==> Bit(b, k) || f.Records(table, 8 * j + k)
  {
    var start, end := f.off, f.off + f.len;
    assert END_VALUES[0] != REPAIRED_END_VALUES[0];
    LongIndex(start, end, j, k);
    if j == start / 8 {
      StartBits(start % 8, k);
    } else if start / 8 < j < (end - 1) / 8 {
      FullBits(0xff, k);
    } else if j == (end - 1) / 8 {
      EndBits(table, end % 8, k);
    }
  }

  /** Where bit `k` of byte `j` lies in a long fragment; `full` is where its last full byte ends. */
  lemma {:induction false} LongIndex(start: nat, end: nat, j: nat, k: nat)
    requires start + 8 < end && k < 8
    ensures var full := if end % 8 == 0 then end - 8 else end - end % 8;
      && start / 8 < (end - 1) / 8 && full == 8 * ((end - 1) / 8) && start < full
      && (j < start / 8 ==> 8 * j + k < start)
      && (j == start / 8 ==> (start <= 8 * j + k <==> start % 8 <= k) && 8 * j + k < full)
      && (start / 8 < j ==> start <= 8 * j + k)
      && (j < (end - 1) / 8 ==> 8 * j + k < full)
      && (j == (end - 1) / 8 ==> 8 * j + k == full + k)
      && (j > (end - 1) / 8 ==> 8 * j + k >= end)
  {
    if end % 8 == 0 {
      ModUnique(end - 1, 8, end / 8 - 1, 7);
    } else {
      ModUnique(end - 1, 8, end / 8, end % 8 - 1);
    }
  }

  /** Marking a fragment sets the bits of the bytes it records, and no others. */
  lemma {:induction false} MarkMarks(table: seq<byte>, mask: seq<byte>, f: Range, i: nat)
    requires IsEndTable(table) && f.off + f.len <= 8 * |mask| && i < 8 * |mask|
    ensures Marked(Mark(table, mask, f.off, f.off + f.len), i) <==> Marked(mask, i) || f.Records(table, i)
  {
    if f.len <= 8 {
      SetBitsMarks(mask, f.off, f.off + f.len, i);
    } else {
      LongByteMarks(table, mask[i / 8], f, i / 8, i % 8);
    }
  }

  // ---- whole runs -----------------------------------------------------------------------------

  predicate Within(msgLen: nat, frags: seq<Range>) {
    forall f | f in frags :: 0 < f.len && f.off + f.len <= msgLen
  }

  /** The bitmask of a message of `msgLen` bytes after the fragments in `frags`, in that order. */
  function MaskAfter(table: seq<byte>, msgLen: nat, frags: seq<Range>): (r: seq<byte>)
    requires |table| == 8 && Within(msgLen, frags)
    ensures |r| == BitmaskSize(msgLen)
  {
    if frags == [] then seq(BitmaskSize(msgLen), _ => 0)
    else
      var f := frags[|frags| - 1];
      Mark(table, MaskAfter(table, msgLen, frags[..|frags| - 1]), f.off, f.off + f.len)
  }

  lemma {:induction false} LastMark(table: seq<byte>, msgLen: nat, frags: seq<Range>, f: Range)
    requires |table| == 8 && Within(msgLen, frags) && 0 < f.len && f.off + f.len <= msgLen
    ensures Within(msgLen, frags + [f])
    ensures MaskAfter(table, msgLen, frags + [f])
         == Mark(table, MaskAfter(table, msgLen, frags), f.off, f.off + f.len)
  {
    var all := frags + [f];
    assert all[..|all| - 1] == frags && all[|all| - 1] == f;
  }

  predicate Received(frags: seq<Range>, i: nat) { exists f | f in frags :: f.Holds(i) }

  predicate Recorded(table: seq<byte>, frags: seq<Range>, i: nat) { exists f | f in frags :: f.Records(table, i) }

  lemma {:induction false} MaskIsRecord(table: seq<byte>, msgLen: nat, frags: seq<Range>, i: nat)
    requires IsEndTable(table) && Within(msgLen, frags) && i < 8 * BitmaskSize(msgLen)
    ensures Marked(MaskAfter(table, msgLen, frags), i) <==> Recorded(table, frags, i)
  {
    if frags == [] {
      BitZero(i % 8);
    } else {
      var n := |frags| - 1;
      assert frags == frags[..n] + [frags[n]];
      MaskIsRecord(table, msgLen, frags[..n], i);
      MarkMarks(table, MaskAfter(table, msgLen, frags[..n]), frags[n], i);
      RecordedWith(table, frags[..n], frags[n], i);
    }
  }

  lemma {:induction false} RecordedWith(table: seq<byte>, frags: seq<Range>, f: Range, i: nat)
    ensures Recorded(table, frags + [f], i) <==> Recorded(table, frags, i) || f.Records(table, i)
  {
    assert forall g :: g in frags + [f] <==> g in frags || g == f;
  }

  /** A set bit always means that the byte was received. */
  lemma {:induction false} MarkedWasReceived(table: seq<byte>, msgLen: nat, frags: seq<Range>, i: nat)
    requires IsEndTable(table) && Within(msgLen, frags) && i < 8 * BitmaskSize(msgLen)
    requires Marked(MaskAfter(table, msgLen, frags), i)
    ensures i < msgLen && Received(frags, i)
  {
    MaskIsRecord(table, msgLen, frags, i);
    var f :| f in frags && f.Records(table, i);
    assert f.Holds(i);
  }

  /** Bit `k` of byte `j` of the bitmask ought to be set. */
  predicate RecordedAt(table: seq<byte>, frags: seq<Range>, j: nat, k: nat) { Recorded(table, frags, 8 * j + k) }

  lemma {:induction false} BitIsRecord(table: seq<byte>, msgLen: nat, frags: seq<Range>, j: nat, k: nat)
    requires IsEndTable(table) && Within(msgLen, frags) && j < BitmaskSize(msgLen) && k < 8
    ensures Bit(MaskAfter(table, msgLen, frags)[j], k) <==> RecordedAt(table, frags, j, k)
  {
    MaskIsRecord(table, msgLen, frags, 8 * j + k);
  }

  /** What comparing one byte of the bitmask says. */
  lemma {:induction false} ByteIs(table: seq<byte>, msgLen: nat, frags: seq<Range>, j: nat, b: byte)
    requires IsEndTable(table) && Within(msgLen, frags) && j < BitmaskSize(msgLen)
    ensures MaskAfter(table, msgLen, frags)[j] == b <==>
            forall k: nat | k < 8 :: Bit(b, k) <==> RecordedAt(table, frags, j, k)
  {
    forall k: nat | k < 8
      ensures Bit(MaskAfter(table, msgLen, frags)[j], k) <==> RecordedAt(table, frags, j, k)
    {
      BitIsRecord(table, msgLen, frags, j, k);
    }
    if forall k: nat | k < 8 :: Bit(b, k) <==> RecordedAt(table, frags, j, k) {
      SmallPowers();
      BitsDetermine(MaskAfter(table, msgLen, frags)[j], b, 8);
    }
  }

  predicate OctetRecorded(table: seq<byte>, frags: seq<Range>, j: nat) {
    forall k: nat | k < 8 :: RecordedAt(table, frags, j, k)
  }

  /** The completeness test, byte by byte of the bitmask. */
  lemma {:induction false} CompleteBits(table: seq<byte>, msgLen: nat, frags: seq<Range>)
    requires IsEndTable(table) && Within(msgLen, frags) && 0 < msgLen
    ensures var last := (msgLen - 1) / 8;
            IsComplete(table, MaskAfter(table, msgLen, frags), msgLen) <==>
              && (forall k: nat | k < 8 :: Bit(table[msgLen % 8], k) <==> RecordedAt(table, frags, last, k))
              && (forall j: nat | j < last :: OctetRecorded(table, frags, j))
  {
    var mask, last := MaskAfter(table, msgLen, frags), (msgLen - 1) / 8;
    ByteIs(table, msgLen, frags, last, table[msgLen % 8]);
    forall k: nat ensures Bit(0xff, k) <==> k < 8 { FullBits(0xff, k); }
    forall j: nat | j < last
      ensures mask[j] == 0xff <==> OctetRecorded(table, frags, j)
    {
      ByteIs(table, msgLen, frags, j, 0xff);
    }
  }

  lemma {:induction false} NothingRecordedPastTheEnd(table: seq<byte>, msgLen: nat, frags: seq<Range>, i: nat)
    requires Within(msgLen, frags) && i >= msgLen
    ensures !Recorded(table, frags, i)
  {
  }

  lemma {:induction false} LengthBits(table: seq<byte>, msgLen: nat, k: nat)
    requires IsEndTable(table) && 0 < msgLen && k < 8
    requires msgLen % 8 != 0 || table == REPAIRED_END_VALUES
    ensures Bit(table[msgLen % 8], k) <==> 8 * ((msgLen - 1) / 8) + k < msgLen
  {
    EndBits(table, msgLen % 8, k);
    LastOctet(msgLen, k);
    assert END_VALUES[0] != REPAIRED_END_VALUES[0];
  }

  lemma {:induction false} LastOctet(n: nat, k: nat)
    requires 0 < n && k < 8
    ensures 8 * ((n - 1) / 8) + k < n <==> n % 8 == 0 || k < n % 8
  {
    if n % 8 == 0 {
      ModUnique(n - 1, 8, n / 8 - 1, 7);
    } else {
      ModUnique(n - 1, 8, n / 8, n % 8 - 1);
    }
  }

  lemma {:induction false} AllRecordedCompletes(table: seq<byte>, msgLen: nat, frags: seq<Range>)
    requires IsEndTable(table) && Within(msgLen, frags) && 0 < msgLen
    requires msgLen % 8 != 0 || table == REPAIRED_END_VALUES
    requires forall i: nat | i < msgLen :: Recorded(table, frags, i)
    ensures IsComplete(table, MaskAfter(table, msgLen, frags), msgLen)
  {
    var last := (msgLen - 1) / 8;
    forall k: nat | k < 8
      ensures Bit(table[msgLen % 8], k) <==> RecordedAt(table, frags, last, k)
    {
      LengthBits(table, msgLen, k);
      if 8 * last + k >= msgLen { NothingRecordedPastTheEnd(table, msgLen, frags, 8 * last + k); }
    }
    forall j: nat | j < last
      ensures OctetRecorded(table, frags, j)
    {
      assert forall k: nat | k < 8 :: RecordedAt(table, frags, j, k);
    }
    CompleteBits(table, msgLen, frags);
  }

  /** Lengths off a byte boundary, and every length with the repaired table: exactly full records pass. */
  lemma {:induction false} CompleteIffAllRecorded(table: seq<byte>, msgLen: nat, frags: seq<Range>)
    requires IsEndTable(table) && Within(msgLen, frags) && 0 < msgLen
    requires msgLen % 8 != 0 || table == REPAIRED_END_VALUES
    ensures IsComplete(table, MaskAfter(table, msgLen, frags), msgLen) <==>
            forall i: nat | i < msgLen :: Recorded(table, frags, i)
  {
    if IsComplete(table, MaskAfter(table, msgLen, frags), msgLen) {
      CompleteBits(table, msgLen, frags);
      forall i: nat | i < msgLen
        ensures Recorded(table, frags, i)
      {
        LengthBits(table, msgLen, i % 8);
        if i / 8 < (msgLen - 1) / 8 { assert OctetRecorded(table, frags, i / 8); }
        assert RecordedAt(table, frags, i / 8, i % 8);
      }
    } else if forall i: nat | i < msgLen :: Recorded(table, frags, i) {
      AllRecordedCompletes(table, msgLen, frags);
    }
  }

  /** Lengths on a byte boundary with the table of the code: a message passes without its last bytes. */
  lemma {:induction false} CompleteAtByteBoundary(msgLen: nat, frags: seq<Range>)
    requires Within(msgLen, frags) && 0 < msgLen && msgLen % 8 == 0
    ensures IsComplete(END_VALUES, MaskAfter(END_VALUES, msgLen, frags), msgLen) <==>
            forall i: nat | i < msgLen :: Recorded(END_VALUES, frags, i) <==> i < msgLen - 8
  {
    CompleteBits(END_VALUES, msgLen, frags);
    forall k: nat | k < 8
      ensures !Bit(END_VALUES[0], k)
    {
      EndBits(END_VALUES, 0, k);
      assert END_VALUES[0] != REPAIRED_END_VALUES[0];
    }
    var last := (msgLen - 1) / 8;
    ModUnique(msgLen - 1, 8, msgLen / 8 - 1, 7);
    if (forall k: nat | k < 8 :: !RecordedAt(END_VALUES, frags, last, k))
       && (forall j: nat | j < last :: OctetRecorded(END_VALUES, frags, j)) {
      forall i: nat | i < msgLen
        ensures Recorded(END_VALUES, frags, i) <==> i < msgLen - 8
      {
        assert i / 8 < last ==> OctetRecorded(END_VALUES, frags, i / 8);
        assert RecordedAt(END_VALUES, frags, i / 8, i % 8) <==> i / 8 < last;
      }
    }
  }

  /** A message of this length never passes the test before all of it has arrived. */
  ghost predicate SoundFor(table: seq<byte>, msgLen: nat)
    requires |table| == 8 && 0 < msgLen
  {
    forall frags: seq<Range> |
      Within(msgLen, frags) && frags != [] && IsComplete(table, MaskAfter(table, msgLen, frags), msgLen) ::
      forall i: nat | i < msgLen :: Received(frags, i)
  }

  /** The fragments of 8 bytes that stop 8 bytes short of the end. */
  function AllButLastOctet(octets: nat): (r: seq<Range>)
    ensures |r| == octets && forall k | 0 <= k < octets :: r[k] == Range(8 * k, 8)
  {
    seq(octets, k requires 0 <= k < octets => Range(8 * k, 8))
  }

  /** The completeness test is sound exactly when the message does not end on a byte boundary of the
      bitmask, or is a single byte of it long. */
  lemma {:induction false} SoundExactlyOffBoundaries(msgLen: nat)
    requires 0 < msgLen
    ensures SoundFor(END_VALUES, msgLen) <==> msgLen % 8 != 0 || msgLen == 8
    ensures SoundFor(REPAIRED_END_VALUES, msgLen)
  {
    SoundOffBoundaries(REPAIRED_END_VALUES, msgLen);
    if msgLen % 8 != 0 || msgLen == 8 {
      SoundOffBoundaries(END_VALUES, msgLen);
    } else {
      var octets := msgLen / 8 - 1;
      var frags := AllButLastOctet(octets);
      assert frags[0] in frags;
      forall i: nat | i < msgLen
        ensures Recorded(END_VALUES, frags, i) <==> i < msgLen - 8
      {
        if i < msgLen - 8 {
          assert frags[i / 8] in frags && frags[i / 8].Records(END_VALUES, i);
        }
      }
      CompleteAtByteBoundary(msgLen, frags);
      assert !Received(frags, msgLen - 1);
      assert IsComplete(END_VALUES, MaskAfter(END_VALUES, msgLen, frags), msgLen);
    }
  }

  lemma {:induction false} SoundOffBoundaries(table: seq<byte>, msgLen: nat)
    requires IsEndTable(table) && 0 < msgLen
    requires msgLen % 8 != 0 || msgLen == 8 || table == REPAIRED_END_VALUES
    ensures SoundFor(table, msgLen)
  {
    forall frags: seq<Range> |
      Within(msgLen, frags) && frags != [] && IsComplete(table, MaskAfter(table, msgLen, frags), msgLen)
      ensures forall i: nat | i < msgLen :: Received(frags, i)
    {
      if msgLen % 8 != 0 || table == REPAIRED_END_VALUES {
        CompleteIffAllRecorded(table, msgLen, frags);
        forall i: nat | i < msgLen
          ensures Received(frags, i)
        {
          assert Recorded(table, frags, i);
          var f :| f in frags && f.Records(table, i);
          assert f.Holds(i);
        }
      } else {
        // a fragment of an 8-byte message always leaves a bit, and the table wants none
        var f := frags[0];
        assert f.Records(table, f.off);
        assert Recorded(table, frags, f.off);
        CompleteAtByteBoundary(msgLen, frags);
        assert false;
      }
    }
  }

  /** Full coverage passes the test unless a long fragment ends on a multiple of 8. */
  lemma {:induction false} CoverageCompletes(msgLen: nat, frags: seq<Range>)
    requires Within(msgLen, frags) && msgLen % 8 != 0
    requires forall f | f in frags :: !f.LosesTail()
    requires forall i: nat | i < msgLen :: Received(frags, i)
    ensures IsComplete(END_VALUES, MaskAfter(END_VALUES, msgLen, frags), msgLen)
  {
    forall i: nat | i < msgLen
      ensures Recorded(END_VALUES, frags, i)
    {
      assert Received(frags, i);
      var f :| f in frags && f.Holds(i);
      assert f.Records(END_VALUES, i);
    }
    CompleteIffAllRecorded(END_VALUES, msgLen, frags);
  }
}
