/**
 The anti-replay window of the DTLS record layer (d1_pkt.c), for a bitmap of 32 or 64 bits, and what
 it accepts over whole runs with changes of the read epoch.
 */
module ReplayWindow {
  import opened Bits
  import opened SatSub

  const RT_ALERT := 21
  const RT_HANDSHAKE := 22

  predicate IsWidth(w: nat) { w == 32 || w == 64 }

  // ---- the window as numbers ------------------------------------------------------------------

  datatype Window = Window(map_: nat, max: nat)

  const EMPTY := Window(0, 0)

  function Passes(w: Window, width: nat, n: nat): bool {
    var cmp := SatSubOf(n - w.max);
    cmp > 0 || (-cmp < width && !Bit(w.map_, -cmp))
  }

  function Updated(w: Window, width: nat, n: nat): Window {
    var cmp := SatSubOf(n - w.max);
    if cmp > 0 then Window(if cmp < width then Or(Low(Shl(w.map_, cmp), width), 1) else 1, n)
    else if -cmp < width then w.(map_ := Or(w.map_, Shl(1, -cmp)))
    else w
  }

  // ---- the set it stands for ------------------------------------------------------------------

  /** Bit `k` of the map is set exactly when the number `k` below the highest one was accepted. */
  ghost predicate Represents(w: Window, width: nat, seen: set<nat>) {
    && w.max < POW_2_48
    && (forall n | n in seen :: n <= w.max)
    && (if seen == {} then w.max == 0 else w.max in seen)
    && forall k: nat | k < width :: Bit(w.map_, k) <==> k <= w.max && w.max - k in seen
  }

  ghost function Highest(seen: set<nat>): (m: nat)
    ensures seen == {} ==> m == 0
    ensures seen != {} ==> m in seen && forall n | n in seen :: n <= m
  {
    if seen == {} then 0
    else
      var x :| x in seen;
      var m := Highest(seen - {x});
      assert forall n | n in seen :: n == x || n in seen - {x};
      if m > x then m else x
  }

  /** Section 4.1.2.5 of RFC 4347: above everything seen, or inside the window and not seen. */
  ghost predicate Acceptable(seen: set<nat>, width: nat, n: nat) {
    n > Highest(seen) || (Highest(seen) - n < width && n !in seen)
  }

  lemma {:induction false} EmptyRepresentsNothing(width: nat)
    ensures Represents(EMPTY, width, {})
  {
    forall k: nat ensures !Bit(0, k) { BitZero(k); }
  }

  /** The window decides as the set does. */
  lemma {:induction false} PassesIffAcceptable(w: Window, width: nat, seen: set<nat>, n: nat)
    requires IsWidth(width) && Represents(w, width, seen) && n < POW_2_48
    ensures Passes(w, width, n) <==> Acceptable(seen, width, n)
  {
    ExactBelow48Bits(n, w.max);
    assert Highest(seen) == w.max;
    if n <= w.max && w.max - n < width {
      assert Bit(w.map_, w.max - n) <==> w.max - (w.max - n) in seen;
    }
  }

  lemma {:induction false} ShiftedBits(map_: nat, s: nat, width: nat, k: nat)
    requires k < width
    ensures Bit(Or(Low(Shl(map_, s), width), 1), k) <==> k == 0 || (k >= s && Bit(map_, k - s))
  {
    BitOr(Low(Shl(map_, s), width), 1, k);
    BitLow(Shl(map_, s), width, k);
    BitShl(map_, s, k);
    BitOfPow2(0, k);
    assert Shl(1, 0) == 1;
  }

  /** A number above the window moves it; the set grows by the number. */
  lemma {:induction false} MoveKeeps(w: Window, width: nat, seen: set<nat>, n: nat)
    requires IsWidth(width) && Represents(w, width, seen) && w.max < n < POW_2_48
    ensures Represents(Updated(w, width, n), width, seen + {n})
  {
    ExactBelow48Bits(n, w.max);
    var w', d := Updated(w, width, n), n - w.max;
    forall k: nat | k < width
      ensures Bit(w'.map_, k) <==> k <= n && n - k in seen + {n}
    {
      if d < width {
        ShiftedBits(w.map_, d, width, k);
        assert k >= d ==> (Bit(w.map_, k - d) <==> k - d <= w.max && w.max - (k - d) in seen);
      } else {
        BitOfPow2(0, k);
        assert Shl(1, 0) == 1;
      }
    }
  }

  /** A number inside the window marks its bit; the set grows by the number. */
  lemma {:induction false} FillKeeps(w: Window, width: nat, seen: set<nat>, n: nat)
    requires IsWidth(width) && Represents(w, width, seen) && n <= w.max && w.max - n < width
    requires seen != {} || n == 0
    ensures Represents(Updated(w, width, n), width, seen + {n})
  {
    ExactBelow48Bits(n, w.max);
    var w', d := Updated(w, width, n), w.max - n;
    forall k: nat | k < width
      ensures Bit(w'.map_, k) <==> k <= w.max && w.max - k in seen + {n}
    {
      BitOr(w.map_, Shl(1, d), k);
      BitOfPow2(d, k);
    }
  }

  lemma {:induction false} UpdateKeeps(w: Window, width: nat, seen: set<nat>, n: nat)
    requires IsWidth(width) && Represents(w, width, seen) && n < POW_2_48 && Acceptable(seen, width, n)
    ensures Represents(Updated(w, width, n), width, seen + {n})
  {
    assert Highest(seen) == w.max;
    if n > w.max {
      MoveKeeps(w, width, seen, n);
    } else {
      FillKeeps(w, width, seen, n);
    }
  }

  // ---- the record layer -----------------------------------------------------------------------

  /** A record as it comes off the wire; `genuine` is the outcome of decryption and the MAC check. */
  datatype Record = Record(rtype: byte, epoch: nat, seqNo: seq<byte>, length: nat, genuine: bool) {
    predicate Valid() { |seqNo| == 6 && epoch < 0x1_0000 }
  }

  datatype State = State(rEpoch: nat, bitmap: Window, nextBitmap: Window)

  /** The window a record is checked against; `None` drops the record. */
  datatype Choice = Drop | Current | Next

  function GetBitmap(rEpoch: nat, rtype: byte, epoch: nat): Choice {
    if epoch == rEpoch then Current
    else if epoch == rEpoch + 1 && (rtype == RT_HANDSHAKE || rtype == RT_ALERT) then Next
    else Drop
  }

  /** dtls1_get_record and dtls1_process_record for one record: is it handed up, and the state after. */
  function Receive(st: State, width: nat, r: Record): (bool, State)
    requires r.Valid()
  {
    var n := BigEndian(r.seqNo);
    match GetBitmap(st.rEpoch, r.rtype, r.epoch)
    case Drop => (false, st)
    case Next => (false, st)
    case Current =>
      if Passes(st.bitmap, width, n) && r.length != 0 && r.genuine
      then (true, st.(bitmap := Updated(st.bitmap, width, n)))
      else (false, st)
  }

  /** dtls1_reset_seq_numbers for the read side */
  function ResetRead(st: State): State {
    State((st.rEpoch + 1) % 0x1_0000, st.nextBitmap, EMPTY)
  }

  class Bitmap {
    const width: nat
    var map_: nat
    const maxSeqNum: array<byte>

    ghost predicate Valid()
      reads this, maxSeqNum
    {
      IsWidth(width) && maxSeqNum.Length == 8
    }

    ghost function Abs(): Window
      reads this, maxSeqNum
    {
      Window(map_, BigEndian(maxSeqNum[..]))
    }

    constructor (width: nat)
      requires IsWidth(width)
      ensures Valid() && this.width == width && Abs() == EMPTY && fresh(maxSeqNum)
    {
      this.width := width;
      map_ := 0;
      maxSeqNum := new byte[8](_ => 0);
      new;
      AllZeros(maxSeqNum[..]);
    }

    /** dtls1_record_replay_check; a number that passes is kept in the record. */
    method ReplayCheck(seqNo: array<byte>, kept: array<byte>) returns (ok: bool)
      requires Valid() && seqNo.Length == kept.Length == 8 && kept != seqNo && kept != maxSeqNum
      modifies kept
      ensures ok <==> Passes(Abs(), width, BigEndian(seqNo[..]))
      ensures kept[..] == if ok then seqNo[..] else old(kept[..])
    {
      var cmp := SatSub64be(seqNo, maxSeqNum);
      if cmp > 0 {
        forall k | 0 <= k < 8 {
          kept[k] := seqNo[k];
        }
        assert kept[..] == seqNo[..] == old(seqNo[..]);
        assert Abs() == old(Abs());
        return true;
      }
      var shift := -cmp;
      if shift >= width {
        return false;
      }
      if Bit(map_, shift) {
        return false;
      }
      forall k | 0 <= k < 8 {
        kept[k] := seqNo[k];
      }
      assert kept[..] == seqNo[..] == old(seqNo[..]);
      assert Abs() == old(Abs());
      return true;
    }

    /** dtls1_record_bitmap_update */
    method Update(seqNo: array<byte>)
      requires Valid() && seqNo.Length == 8 && seqNo != maxSeqNum
      modifies this, maxSeqNum
      ensures Valid() && Abs() == Updated(old(Abs()), width, BigEndian(old(seqNo[..])))
    {
      var cmp := SatSub64be(seqNo, maxSeqNum);
      if cmp > 0 {
        var shift := cmp;
        map_ := if shift < width then Or(Low(Shl(map_, shift), width), 1) else 1;
        forall k | 0 <= k < 8 {
          maxSeqNum[k] := seqNo[k];
        }
        assert maxSeqNum[..] == old(seqNo[..]);
      } else {
        var shift := -cmp;
        if shift < width {
          map_ := Or(map_, Shl(1, shift));
        }
      }
    }

    /** memcpy of a whole window */
    method CopyFrom(other: Bitmap)
      requires Valid() && other.Valid() && other.width == width && other != this && other.maxSeqNum != maxSeqNum
      modifies this, maxSeqNum
      ensures Valid() && Abs() == old(other.Abs())
    {
      map_ := other.map_;
      forall k | 0 <= k < 8 {
        maxSeqNum[k] := other.maxSeqNum[k];
      }
      assert maxSeqNum[..] == old(other.maxSeqNum[..]);
    }

    method Clear()
      requires Valid()
      modifies this, maxSeqNum
      ensures Valid() && Abs() == EMPTY
    {
      map_ := 0;
      forall k | 0 <= k < 8 {
        maxSeqNum[k] := 0;
      }
      AllZeros(maxSeqNum[..]);
    }
  }

  /** Two leading zero bytes do not count: the sequence number of the record. */
  lemma {:induction false} LeadingZeros(s: seq<byte>, n: seq<byte>)
    requires |n| == 6 && s == [0, 0] + n
    ensures BigEndian(s) == BigEndian(n) < POW_2_48
  {
    assert s == [0] + ([0] + n);
    BigEndianCons(0, [0] + n);
    BigEndianCons(0, n);
    BigEndianBound(n);
    Powers();
  }

  class RecordReader {
    var rEpoch: nat
    const bitmap: Bitmap
    const nextBitmap: Bitmap
    const readSequence: array<byte>
    /** rrec.seq_num */
    const seqNum: array<byte>

    ghost predicate Valid()
      reads this, bitmap, bitmap.maxSeqNum, nextBitmap, nextBitmap.maxSeqNum, readSequence
    {
      && bitmap.Valid() && nextBitmap.Valid() && bitmap != nextBitmap && bitmap.width == nextBitmap.width
      && bitmap.maxSeqNum != nextBitmap.maxSeqNum
      && readSequence != bitmap.maxSeqNum && readSequence != nextBitmap.maxSeqNum
      && readSequence.Length == 8 && readSequence[0] == readSequence[1] == 0
      && seqNum.Length == 8 && seqNum !in {readSequence, bitmap.maxSeqNum, nextBitmap.maxSeqNum}
    }

    ghost function Abs(): State
      requires Valid()
      reads this, bitmap, bitmap.maxSeqNum, nextBitmap, nextBitmap.maxSeqNum, readSequence
    {
      State(rEpoch, bitmap.Abs(), nextBitmap.Abs())
    }

    constructor (width: nat)
      requires IsWidth(width)
      ensures Valid() && bitmap.width == width && Abs() == State(0, EMPTY, EMPTY)
    {
      rEpoch := 0;
      bitmap := new Bitmap(width);
      nextBitmap := new Bitmap(width);
      readSequence := new byte[8](_ => 0);
      seqNum := new byte[8](_ => 0);
    }

    method GetRecord(r: Record) returns (accepted: bool)
      requires Valid() && r.Valid()
      modifies bitmap, bitmap.maxSeqNum, nextBitmap, nextBitmap.maxSeqNum, readSequence, seqNum
      ensures Valid() && (accepted, Abs()) == Receive(old(Abs()), bitmap.width, r)
      ensures accepted ==> seqNum[..] == [0, 0] + r.seqNo
    {
      forall k | 2 <= k < 8 {
        readSequence[k] := r.seqNo[k - 2];
      }
      assert readSequence[..] == [0, 0] + r.seqNo;
      LeadingZeros(readSequence[..], r.seqNo);
      var which := GetBitmap(rEpoch, r.rtype, r.epoch);
      if which == Drop {
        return false;
      }
      var fits := false;
      if which == Current {
        fits := bitmap.ReplayCheck(readSequence, seqNum);
      } else {
        fits := nextBitmap.ReplayCheck(readSequence, seqNum);
      }
      if !fits || r.length == 0 || which == Next {
        return false;
      }
      if !r.genuine {
        return false;
      }
      bitmap.Update(readSequence);
      return true;
    }

    method ResetSeqNumbers()
      requires Valid()
      modifies this, bitmap, bitmap.maxSeqNum, nextBitmap, nextBitmap.maxSeqNum, readSequence
      ensures Valid() && Abs() == ResetRead(old(Abs()))
    {
      rEpoch := (rEpoch + 1) % 0x1_0000;
      bitmap.CopyFrom(nextBitmap);
      nextBitmap.Clear();
      forall k | 0 <= k < 8 {
        readSequence[k] := 0;
      }
    }
  }

  // ---- whole runs -----------------------------------------------------------------------------

  datatype Event = Arrive(r: Record) | ChangeReadCipher

  /** The state after the events, and the (epoch, number) pairs accepted, in order. */
  function Run(width: nat, events: seq<Event>): (State, seq<(nat, nat)>)
    requires forall e | e in events && e.Arrive? :: e.r.Valid()
  {
    if events == [] then (State(0, EMPTY, EMPTY), [])
    else
      var e := events[|events| - 1];
      var (st, acc) := Run(width, events[..|events| - 1]);
      match e
      case ChangeReadCipher => (ResetRead(st), acc)
      case Arrive(r) =>
        var (ok, st') := Receive(st, width, r);
        (st', if ok then acc + [(r.epoch, BigEndian(r.seqNo))] else acc)
  }

  function Changes(events: seq<Event>): nat {
    if events == [] then 0
    else Changes(events[..|events| - 1]) + if events[|events| - 1].ChangeReadCipher? then 1 else 0
  }

  /** The numbers accepted in one epoch. */
  ghost function SeenIn(acc: seq<(nat, nat)>, epoch: nat): set<nat> {
    set k | 0 <= k < |acc| && acc[k].0 == epoch :: acc[k].1
  }

  ghost predicate Distinct(acc: seq<(nat, nat)>) {
    forall i, j | 0 <= i < j < |acc| :: acc[i] != acc[j]
  }

  /** At every reachable state the window stands for the numbers accepted in the current epoch, and no
      number was ever accepted twice in an epoch. */
  ghost predicate RunInv(width: nat, events: seq<Event>)
    requires forall e | e in events && e.Arrive? :: e.r.Valid()
  {
    var (st, acc) := Run(width, events);
    StateInv(width, Changes(events), st, acc)
  }

  ghost predicate StateInv(width: nat, epoch: nat, st: State, acc: seq<(nat, nat)>) {
    var inv :=
      && st.rEpoch == epoch
      && Represents(st.bitmap, width, SeenIn(acc, st.rEpoch))
      && st.nextBitmap == EMPTY
      && (forall k | 0 <= k < |acc| :: acc[k].0 <= st.rEpoch)
      && Distinct(acc);
    inv
  }

  lemma {:induction false} SeenGrows(acc: seq<(nat, nat)>, epoch: nat, n: nat)
    ensures SeenIn(acc + [(epoch, n)], epoch) == SeenIn(acc, epoch) + {n}
  {
    var more := acc + [(epoch, n)];
    assert more[|acc|] == (epoch, n);
    forall m | m in SeenIn(acc, epoch)
      ensures m in SeenIn(more, epoch)
    {
      var k :| 0 <= k < |acc| && acc[k].0 == epoch && acc[k].1 == m;
      assert more[k] == acc[k];
    }
  }

  lemma {:induction false} RecordValue(r: Record)
    requires r.Valid()
    ensures BigEndian(r.seqNo) < POW_2_48
  {
    BigEndianBound(r.seqNo);
    Powers();
  }

  lemma {:induction false} ReceiveKeeps(width: nat, st: State, acc: seq<(nat, nat)>, r: Record)
    requires IsWidth(width) && r.Valid() && Represents(st.bitmap, width, SeenIn(acc, st.rEpoch)) && Distinct(acc)
    ensures var (ok, st') := Receive(st, width, r);
            var n, seen := BigEndian(r.seqNo), SeenIn(acc, st.rEpoch);
            var acc' := if ok then acc + [(r.epoch, n)] else acc;
            && (ok <==> r.epoch == st.rEpoch && r.length != 0 && r.genuine && Acceptable(seen, width, n))
            && (!ok ==> st' == st)
            && st'.rEpoch == st.rEpoch && st'.nextBitmap == st.nextBitmap
            && Represents(st'.bitmap, width, SeenIn(acc', st.rEpoch)) && Distinct(acc')
  {
    RecordValue(r);
    var n, seen := BigEndian(r.seqNo), SeenIn(acc, st.rEpoch);
    PassesIffAcceptable(st.bitmap, width, seen, n);
    if Receive(st, width, r).0 {
      UpdateKeeps(st.bitmap, width, seen, n);
      SeenGrows(acc, st.rEpoch, n);
      NewIsDistinct(acc, st.rEpoch, n, width);
    }
  }

  lemma {:induction false} NewIsDistinct(acc: seq<(nat, nat)>, epoch: nat, n: nat, width: nat)
    requires Distinct(acc) && Acceptable(SeenIn(acc, epoch), width, n)
    ensures Distinct(acc + [(epoch, n)])
  {
    assert n !in SeenIn(acc, epoch);
    var more := acc + [(epoch, n)];
    forall i, j | 0 <= i < j < |more|
      ensures more[i] != more[j]
    {
      if j == |acc| {
        assert acc[i].0 == epoch ==> acc[i].1 in SeenIn(acc, epoch);
      }
    }
  }

  /** The theorem, for fewer than 2^16 changes of the read cipher: the invariant holds after every run. */
  lemma {:induction false} RunKeepsInv(width: nat, events: seq<Event>)
    requires IsWidth(width) && Changes(events) < 0x1_0000
    requires forall e | e in events && e.Arrive? :: e.r.Valid()
    ensures RunInv(width, events)
  {
    if events == [] {
      EmptyRepresentsNothing(width);
      assert SeenIn([], 0) == {};
    } else {
      var before, e := events[..|events| - 1], events[|events| - 1];
      RunKeepsInv(width, before);
      var (st, acc) := Run(width, before);
      match e
      case ChangeReadCipher => ChangeKeeps(width, Changes(before), st, acc);
      case Arrive(r) =>
        assert e in events;
        ArriveKeeps(width, Changes(before), st, acc, r);
    }
  }

  lemma {:induction false} ChangeKeeps(width: nat, epoch: nat, st: State, acc: seq<(nat, nat)>)
    requires IsWidth(width) && StateInv(width, epoch, st, acc) && epoch + 1 < 0x1_0000
    ensures StateInv(width, epoch + 1, ResetRead(st), acc)
  {
    EmptyRepresentsNothing(width);
    assert SeenIn(acc, st.rEpoch + 1) == {};
  }

  lemma {:induction false} ArriveKeeps(width: nat, epoch: nat, st: State, acc: seq<(nat, nat)>, r: Record)
    requires IsWidth(width) && StateInv(width, epoch, st, acc) && r.Valid()
    ensures var (ok, st') := Receive(st, width, r);
      StateInv(width, epoch, st', if ok then acc + [(r.epoch, BigEndian(r.seqNo))] else acc)
  {
    ReceiveKeeps(width, st, acc, r);
  }

  /** What the next record of a run meets: accepted exactly when it is of the current epoch, not empty,
      genuine, and acceptable to the set of numbers accepted so far; a refused record changes nothing. */
  lemma {:induction false} NextRecord(width: nat, events: seq<Event>, r: Record)
    requires IsWidth(width) && Changes(events) < 0x1_0000 && r.Valid()
    requires forall e | e in events && e.Arrive? :: e.r.Valid()
    ensures var (st, acc) := Run(width, events);
            var (ok, st') := Receive(st, width, r);
            && (ok <==> r.epoch == st.rEpoch && r.length != 0 && r.genuine
                        && Acceptable(SeenIn(acc, st.rEpoch), width, BigEndian(r.seqNo)))
            && (!ok ==> st' == st)
  {
    RunKeepsInv(width, events);
    var (st, acc) := Run(width, events);
    ReceiveKeeps(width, st, acc, r);
  }
}
