/**
 The (epoch, sequence number) pairs the DTLS record layer puts on the wire: ordinary sends, changes of
 the write cipher, and retransmissions under the epoch a message was first sent in.
 */
module RecordNumbers {
  import opened Bits
  import opened SatSub

  /** A buffered sent message: its place in the retransmission queue and the write epoch saved with it. */
  datatype Saved = Saved(priority: int, epoch: nat)

  datatype State = State(
    wEpoch: nat, writeSeq: nat, lastWriteSeq: nat, sentMessages: seq<Saved>, emitted: seq<(nat, nat)>)

  const INITIAL := State(0, 0, 0, [], [])

  /** The retransmission queue goes by message number, a ChangeCipherSpec just before its Finished; only
      sixteen bits are kept. */
  function QueuePriority(seqNo: nat, isCcs: bool): nat {
    (seqNo * 2 - if isCcs then 1 else 0) % 0x1_0000
  }

  predicate Earlier(s1: nat, c1: bool, s2: nat, c2: bool) { s1 < s2 || (s1 == s2 && c1 && !c2) }

  /** A message of a handshake whose last one has the number `last`; the first is no ChangeCipherSpec. */
  predicate IsSent(last: nat, s: nat, c: bool) { s <= last && (s > 0 || !c) }

  predicate InOrder(s1: nat, c1: bool, s2: nat, c2: bool) {
    && (QueuePriority(s1, c1) < QueuePriority(s2, c2) <==> Earlier(s1, c1, s2, c2))
    && (QueuePriority(s1, c1) == QueuePriority(s2, c2) <==> s1 == s2 && c1 == c2)
  }

  lemma {:induction false} Uncut(s: nat, c: bool)
    requires IsSent(0x7fff, s, c)
    ensures QueuePriority(s, c) == s * 2 - if c then 1 else 0
  {
    ModUnique(s * 2 - if c then 1 else 0, 0x1_0000, 0, s * 2 - if c then 1 else 0);
  }

  /** The queue holds the messages of a handshake in the order they were sent, each under a priority of its
      own, exactly when their numbers stay below 2^15. */
  lemma {:induction false} PrioritiesKeepSendingOrder(last: nat)
    ensures (forall s1: nat, c1, s2: nat, c2 | IsSent(last, s1, c1) && IsSent(last, s2, c2) :: InOrder(s1, c1, s2, c2))
            <==> last < 0x8000
  {
    if last < 0x8000 {
      forall s1: nat, c1, s2: nat, c2 | IsSent(last, s1, c1) && IsSent(last, s2, c2)
        ensures InOrder(s1, c1, s2, c2)
      {
        Uncut(s1, c1);
        Uncut(s2, c2);
      }
    } else {
      assert QueuePriority(0, false) == 0 == QueuePriority(0x8000, false);
      assert IsSent(last, 0, false) && IsSent(last, 0x8000, false) && !InOrder(0, false, 0x8000, false);
    }
  }

  // ---- the operations on the fields -----------------------------------------------------------

  function WriteRecords(st: State, n: nat): State {
    if n == 0 then st
    else
      OneMore(WriteRecords(st, n - 1))
  }

  function OneMore(s: State): State {
    s.(writeSeq := (s.writeSeq + 1) % POW_2_64, emitted := s.emitted + [(s.wEpoch, s.writeSeq % POW_2_48)])
  }

  /** dtls1_reset_seq_numbers for the write side */
  function ChangeWriteCipher(st: State): State {
    st.(lastWriteSeq := st.writeSeq, wEpoch := (st.wEpoch + 1) % 0x1_0000, writeSeq := 0)
  }

  function BufferMessage(st: State, priority: int): State {
    st.(sentMessages := st.sentMessages + [Saved(priority, st.wEpoch)])
  }

  function ClearBuffer(st: State): State { st.(sentMessages := []) }

  /** dtls1_retransmit_message for a message of `n` records: the saved epoch comes back for the time of
      the write, and the saved number too if that epoch is the one just left. */
  function Retransmit(st: State, m: Saved, n: nat): State {
    if m.epoch == st.wEpoch - 1 then
      var s := WriteRecords(st.(wEpoch := m.epoch, writeSeq := st.lastWriteSeq), n);
      s.(wEpoch := st.wEpoch, lastWriteSeq := s.writeSeq, writeSeq := st.writeSeq)
    else
      WriteRecords(st.(wEpoch := m.epoch), n).(wEpoch := st.wEpoch)
  }

  /** ssl3_record_sequence_update: a big-endian increment with carry, in place. */
  method SequenceUpdate(s: array<byte>)
    requires s.Length == 8
    modifies s
    ensures BigEndian(s[..]) == (BigEndian(old(s[..])) + 1) % POW_2_64
  {
    ghost var was := s[..];
    var i := 7;
    while i >= 0
      invariant -1 <= i <= 7
      invariant forall k | 0 <= k <= i :: s[k] == was[k]
      invariant forall k | i < k < 8 :: s[k] == 0 && was[k] == 255
    {
      s[i] := (s[i] as int + 1) % 256;
      if s[i] != 0 {
        CarryStops(was, s[..], i);
        return;
      }
      i := i - 1;
    }
    CarryRunsOut(was, s[..]);
  }

  /** Replacing `x ff .. ff` by `x+1 00 .. 00` adds one. */
  lemma {:induction false} CarryStops(a: seq<byte>, b: seq<byte>, i: nat)
    requires |a| == |b| && i < |a| && a[..i] == b[..i] && a[i] < 255 && b[i] == a[i] + 1
    requires forall k | i < k < |a| :: b[k] == 0 && a[k] == 255
    ensures BigEndian(b) == BigEndian(a) + 1 && (|a| == 8 ==> BigEndian(b) < POW_2_64)
    decreases |a|
  {
    var n := |a| - 1;
    if i < n {
      assert a[..n][..i] == a[..i] && b[..n][..i] == b[..i];
      CarryStops(a[..n], b[..n], i);
    } else {
      assert a[..n] == b[..n];
    }
    BigEndianBound(b);
    Powers();
  }

  lemma {:induction false} CarryRunsOut(a: seq<byte>, b: seq<byte>)
    requires |a| == |b| == 8 && forall k | 0 <= k < 8 :: a[k] == 255 && b[k] == 0
    ensures BigEndian(a) == POW_2_64 - 1 && BigEndian(b) == 0
  {
    AllOnes(a);
    AllZeros(b);
    Powers();
  }

  lemma {:induction false} AllOnes(a: seq<byte>)
    requires forall k | 0 <= k < |a| :: a[k] == 255
    ensures BigEndian(a) == Pow256(|a|) - 1
  {
    if a != [] {
      AllOnes(a[..|a| - 1]);
    }
  }

  class RecordWriter {
    var wEpoch: nat
    const writeSequence: array<byte>
    const lastWriteSequence: array<byte>
    var sentMessages: seq<Saved>
    var emitted: seq<(nat, nat)>

    ghost predicate Valid()
      reads this
    {
      writeSequence.Length == 8 && lastWriteSequence.Length == 8 && writeSequence != lastWriteSequence
    }

    ghost function Abs(): State
      requires Valid()
      reads this, writeSequence, lastWriteSequence
    {
      State(wEpoch, BigEndian(writeSequence[..]), BigEndian(lastWriteSequence[..]), sentMessages, emitted)
    }

    constructor ()
      ensures Valid() && Abs() == INITIAL
    {
      wEpoch, sentMessages, emitted := 0, [], [];
      writeSequence := new byte[8](_ => 0);
      lastWriteSequence := new byte[8](_ => 0);
      new;
      AllZeros(writeSequence[..]);
      AllZeros(lastWriteSequence[..]);
    }

    /** The numbering part of do_dtls1_write: the low six bytes go on the wire, then the count goes up. */
    method WriteRecord()
      requires Valid()
      modifies this`emitted, writeSequence
      ensures Valid() && Abs() == WriteRecords(old(Abs()), 1)
    {
      Low48(writeSequence[..]);
      assert WriteRecords(Abs(), 0) == Abs();
      emitted := emitted + [(wEpoch, BigEndian(writeSequence[2..]))];
      SequenceUpdate(writeSequence);
    }

    method WriteMessage(n: nat)
      requires Valid()
      modifies this`emitted, writeSequence
      ensures Valid() && Abs() == WriteRecords(old(Abs()), n)
    {
      var i := 0;
      while i < n
        invariant 0 <= i <= n
        invariant Valid() && Abs() == WriteRecords(old(Abs()), i)
      {
        ghost var s := Abs();
        WriteRecord();
        assert Abs() == WriteRecords(s, 1) && WriteRecords(s, 0) == s;
        i := i + 1;
      }
    }

    method ResetSeqNumbers()
      requires Valid()
      modifies this`wEpoch, writeSequence, lastWriteSequence
      ensures Valid() && Abs() == ChangeWriteCipher(old(Abs()))
    {
      Copy(writeSequence, lastWriteSequence);
      wEpoch := (wEpoch + 1) % 0x1_0000;
      forall k | 0 <= k < 8 {
        writeSequence[k] := 0;
      }
      AllZeros(writeSequence[..]);
      assert lastWriteSequence[..] == old(writeSequence[..]);
    }

    method RetransmitMessage(m: Saved, n: nat)
      requires Valid()
      modifies this`wEpoch, this`emitted, writeSequence, lastWriteSequence
      ensures Valid() && Abs() == Retransmit(old(Abs()), m, n)
    {
      var savedEpoch: int := wEpoch;
      var saveWriteSequence := new byte[8];
      wEpoch := m.epoch;
      if m.epoch == savedEpoch - 1 {
        Copy(writeSequence, saveWriteSequence);
        Copy(lastWriteSequence, writeSequence);
      }
      ghost var s := Abs();
      assert m.epoch == savedEpoch - 1 ==> BigEndian(saveWriteSequence[..]) == old(Abs()).writeSeq;
      WriteMessage(n);
      WritingKeepsTheRest(s, n);
      wEpoch := savedEpoch;
      if m.epoch == savedEpoch - 1 {
        Copy(writeSequence, lastWriteSequence);
        Copy(saveWriteSequence, writeSequence);
      }
    }
  }

  method Copy(from: array<byte>, to: array<byte>)
    requires from.Length == to.Length && from != to
    modifies to
    ensures to[..] == old(from[..])
  {
    forall k | 0 <= k < to.Length {
      to[k] := from[k];
    }
  }

  lemma {:induction false} WritingKeepsTheRest(st: State, n: nat)
    ensures var s := WriteRecords(st, n);
            s.wEpoch == st.wEpoch && s.lastWriteSeq == st.lastWriteSeq && s.sentMessages == st.sentMessages
  {
    if n > 0 {
      WritingKeepsTheRest(st, n - 1);
    }
  }

  lemma {:induction false} Low48(s: seq<byte>)
    requires |s| == 8
    ensures BigEndian(s[2..]) == BigEndian(s) % POW_2_48
  {
    SuffixStep(s, 0);
    SuffixStep(s, 1);
    assert s[0..] == s;
    BigEndianBound(s[2..]);
    Powers();
    assert s[1..][1..] == s[2..];
    ModUnique(BigEndian(s), POW_2_48, s[0] as int * 256 + s[1], BigEndian(s[2..]));
  }

  // ---- no number is used twice ----------------------------------------------------------------

  function CountIn(emitted: seq<(nat, nat)>, epoch: nat): (c: nat)
  {
    if emitted == [] then 0
    else CountIn(emitted[..|emitted| - 1], epoch) + if emitted[|emitted| - 1].0 == epoch then 1 else 0
  }

  /** Every pair carries the number of pairs of its epoch before it: 0, 1, 2, ... in each epoch. */
  ghost predicate Numbered(emitted: seq<(nat, nat)>) {
    forall i {:trigger NumberAt(emitted, i)} :: NumberAt(emitted, i)
  }

  ghost predicate NumberAt(emitted: seq<(nat, nat)>, i: int) {
    0 <= i < |emitted| ==> emitted[i].1 == CountIn(emitted[..i], emitted[i].0)
  }

  lemma {:induction false} CountGrows(emitted: seq<(nat, nat)>, i: nat, j: nat, epoch: nat)
    requires i <= j <= |emitted|
    ensures CountIn(emitted[..i], epoch) <= CountIn(emitted[..j], epoch)
    ensures i < j && emitted[i].0 == epoch ==> CountIn(emitted[..i], epoch) < CountIn(emitted[..j], epoch)
    decreases j - i
  {
    if i < j {
      assert emitted[..j][..j - 1] == emitted[..j - 1];
      CountGrows(emitted, i, j - 1, epoch);
    }
  }

  /** A numbered history has no pair twice. */
  lemma {:induction false} NumberedIsDistinct(emitted: seq<(nat, nat)>, i: nat, j: nat)
    requires Numbered(emitted) && i < j < |emitted|
    ensures emitted[i] != emitted[j]
  {
    assert NumberAt(emitted, i) && NumberAt(emitted, j);
    if emitted[i].0 == emitted[j].0 {
      CountGrows(emitted, i, j, emitted[i].0);
    }
  }

  /** The pairs used in an epoch are exactly those below its count. */
  lemma {:induction false} UsedIffBelowCount(emitted: seq<(nat, nat)>, epoch: nat, n: nat)
    requires Numbered(emitted)
    ensures (epoch, n) in emitted <==> n < CountIn(emitted, epoch)
    decreases |emitted|
  {
    if emitted != [] {
      var k := |emitted| - 1;
      var before := emitted[..k];
      assert NumberAt(emitted, k);
      forall i ensures NumberAt(before, i) {
        assert NumberAt(emitted, i);
        if 0 <= i < k {
          assert before[..i] == emitted[..i];
        }
      }
      UsedIffBelowCount(before, epoch, n);
      assert emitted == before + [emitted[k]];
    }
  }

  /** Where the counters stand. */
  ghost predicate Counted(st: State) {
    && Numbered(st.emitted)
    && UpTo(st.emitted, st.wEpoch)
    && st.writeSeq == CountIn(st.emitted, st.wEpoch)
    && (st.wEpoch > 0 ==> st.lastWriteSeq == CountIn(st.emitted, st.wEpoch - 1))
    && (forall m | m in st.sentMessages :: m.epoch <= st.wEpoch)
  }

  /** Buffered messages are of the current write epoch or of the one before. */
  ghost predicate Recent(st: State) {
    forall m | m in st.sentMessages :: st.wEpoch - 1 <= m.epoch
  }

  lemma {:induction false} AppendNumbered(emitted: seq<(nat, nat)>, epoch: nat)
    requires Numbered(emitted)
    ensures var more := emitted + [(epoch, CountIn(emitted, epoch))];
            && Numbered(more)
            && forall e: nat :: CountIn(more, e) == CountIn(emitted, e) + if e == epoch then 1 else 0
  {
    var more := emitted + [(epoch, CountIn(emitted, epoch))];
    assert more[..|emitted|] == emitted;
    forall i ensures NumberAt(more, i) {
      assert NumberAt(emitted, i);
      if 0 <= i < |more| {
        assert more[..i] == emitted[..i];
      }
    }
  }

  ghost predicate UpTo(emitted: seq<(nat, nat)>, epoch: nat) {
    forall p | p in emitted :: p.0 <= epoch
  }

  ghost predicate CountAt(st: State, s: State, n: nat, e: nat) {
    CountIn(s.emitted, e) == CountIn(st.emitted, e) + if e == st.wEpoch then n else 0
  }

  /** `s` is `st` with `n` more numbered records of the epoch it writes in. */
  ghost predicate Written(st: State, s: State, n: nat, top: nat) {
    && Numbered(s.emitted) && s.writeSeq == st.writeSeq + n && UpTo(s.emitted, top) && s.wEpoch == st.wEpoch
    && forall e: nat {:trigger CountAt(st, s, n, e)} :: CountAt(st, s, n, e)
  }

  lemma {:induction false} WriteOneMore(st: State, s: State, n: nat, top: nat)
    requires Written(st, s, n, top) && st.wEpoch <= top
    requires st.writeSeq == CountIn(st.emitted, st.wEpoch) && st.writeSeq + n + 1 < POW_2_48
    ensures Written(st, OneMore(s), n + 1, top)
  {
    assert CountAt(st, s, n, st.wEpoch);
    AppendNumbered(s.emitted, st.wEpoch);
    ModUnique(s.writeSeq, POW_2_48, 0, s.writeSeq);
    ModUnique(s.writeSeq + 1, POW_2_64, 0, s.writeSeq + 1);
    var s', n' := OneMore(s), n + 1;
    forall e: nat ensures CountAt(st, s', n', e) {
      assert CountAt(st, s, n, e);
    }
  }

  lemma {:induction false} WritingCounts(st: State, n: nat, top: nat)
    requires Numbered(st.emitted) && st.writeSeq == CountIn(st.emitted, st.wEpoch) && st.writeSeq + n < POW_2_48
    requires UpTo(st.emitted, top) && st.wEpoch <= top
    ensures Written(st, WriteRecords(st, n), n, top)
  {
    if n > 0 {
      WritingCounts(st, n - 1, top);
      WriteOneMore(st, WriteRecords(st, n - 1), n - 1, top);
    }
  }

  lemma {:induction false} NothingAboveTop(emitted: seq<(nat, nat)>, top: nat, epoch: nat)
    requires UpTo(emitted, top) && epoch > top
    ensures CountIn(emitted, epoch) == 0
  {
    if emitted != [] {
      NothingAboveTop(emitted[..|emitted| - 1], top, epoch);
    }
  }

  // ---- whole runs -----------------------------------------------------------------------------

  datatype Event =
    | Send(records: nat)
    | Buffer(priority: int)
    | Clear
    | ChangeCipher
    | Resend(message: nat, records: nat)

  function Step(st: State, e: Event): State {
    match e
    case Send(n) => WriteRecords(st, n)
    case Buffer(p) => BufferMessage(st, p)
    case Clear => ClearBuffer(st)
    case ChangeCipher => ChangeWriteCipher(st)
    case Resend(k, n) => if k < |st.sentMessages| then Retransmit(st, st.sentMessages[k], n) else st
  }

  function Run(events: seq<Event>): State {
    if events == [] then INITIAL else Step(Run(events[..|events| - 1]), events[|events| - 1])
  }

  /** No counter leaves its field: fewer than 2^48 records in an epoch and fewer than 2^16 epochs. */
  ghost predicate InFields(st: State) {
    st.wEpoch < 0xffff && forall e: nat :: CountIn(st.emitted, e) < POW_2_48
  }

  /** The buffer of sent messages has been cleared of the last epoch when the cipher changes again. */
  ghost predicate ClearedInTime(st: State, e: Event) {
    e.ChangeCipher? ==> forall m | m in st.sentMessages :: m.epoch == st.wEpoch
  }

  ghost predicate GoodStep(events: seq<Event>, k: nat)
    requires k < |events|
  {
    ClearedInTime(Run(events[..k]), events[k]) && InFields(Run(events[..k + 1]))
  }

  ghost predicate Disciplined(events: seq<Event>) {
    forall k | 0 <= k < |events| :: GoodStep(events, k)
  }

  /** The state in which a buffered message is retransmitted. */
  function AsOf(st: State, m: Saved): State {
    if m.epoch == st.wEpoch - 1 then st.(wEpoch := m.epoch, writeSeq := st.lastWriteSeq)
    else st.(wEpoch := m.epoch)
  }

  /** A message is resent that was buffered before the last but one change of the write cipher. */
  predicate OldResend(st: State, e: Event) {
    e.Resend? && e.message < |st.sentMessages| && st.sentMessages[e.message].epoch < st.wEpoch - 1
  }

  lemma {:induction false} RetransmitCounts(st: State, m: Saved, n: nat)
    requires Counted(st) && m in st.sentMessages && m.epoch >= st.wEpoch - 1
    requires InFields(Retransmit(st, m, n)) && InFields(st)
    ensures Counted(Retransmit(st, m, n))
    ensures Retransmit(st, m, n).sentMessages == st.sentMessages && Retransmit(st, m, n).wEpoch == st.wEpoch
  {
    var t := AsOf(st, m);
    WritingKeepsTheRest(t, n);
    assert t.writeSeq == CountIn(t.emitted, t.wEpoch);
    FieldsBound(t, n);
    WritingCounts(t, n, st.wEpoch);
    assert CountAt(t, WriteRecords(t, n), n, st.wEpoch);
    if st.wEpoch > 0 {
      assert CountAt(t, WriteRecords(t, n), n, st.wEpoch - 1);
    }
  }

  /** The records written are counted, so the final count bounds the counter. */
  lemma {:induction false} FieldsBound(st: State, n: nat)
    requires Numbered(st.emitted) && st.writeSeq == CountIn(st.emitted, st.wEpoch) < POW_2_48
    requires CountIn(WriteRecords(st, n).emitted, st.wEpoch) < POW_2_48
    ensures st.writeSeq + n < POW_2_48
  {
    CountOfWritten(st, n);
  }

  lemma {:induction false} CountOfWritten(st: State, n: nat)
    ensures CountIn(WriteRecords(st, n).emitted, st.wEpoch) == CountIn(st.emitted, st.wEpoch) + n
  {
    if n > 0 {
      CountOfWritten(st, n - 1);
      WritingKeepsTheRest(st, n - 1);
      var s, s' := WriteRecords(st, n - 1), WriteRecords(st, n);
      assert s'.emitted[..|s'.emitted| - 1] == s.emitted;
    }
  }

  lemma {:induction false} StepCounts(st: State, e: Event)
    requires Counted(st) && InFields(st) && !OldResend(st, e) && InFields(Step(st, e))
    ensures Counted(Step(st, e))
    ensures Recent(st) && ClearedInTime(st, e) ==> Recent(Step(st, e))
  {
    match e
    case Send(n) =>
      WritingKeepsTheRest(st, n);
      FieldsBound(st, n);
      WritingCounts(st, n, st.wEpoch);
      assert CountAt(st, WriteRecords(st, n), n, st.wEpoch);
      if st.wEpoch > 0 {
        assert CountAt(st, WriteRecords(st, n), n, st.wEpoch - 1);
      }
    case Buffer(p) =>
    case Clear =>
    case ChangeCipher =>
      NothingAboveTop(st.emitted, st.wEpoch, st.wEpoch + 1);
    case Resend(k, n) =>
      if k < |st.sentMessages| {
        RetransmitCounts(st, st.sentMessages[k], n);
      }
  }

  lemma {:induction false} RunCounts(events: seq<Event>)
    requires Disciplined(events)
    ensures Counted(Run(events)) && Recent(Run(events)) && InFields(Run(events))
  {
    if events != [] {
      var n := |events| - 1;
      var before := events[..n];
      forall k | 0 <= k < n
        ensures GoodStep(before, k)
      {
        assert GoodStep(events, k);
        assert before[..k] == events[..k] && before[..k + 1] == events[..k + 1];
      }
      RunCounts(before);
      assert events[..n + 1] == events;
      assert GoodStep(events, n);
      StepCounts(Run(before), events[n]);
    }
  }

  /** Record numbers are never reused: over every disciplined run the pairs on the wire are distinct. */
  lemma {:induction false} NumbersNeverReused(events: seq<Event>, i: nat, j: nat)
    requires Disciplined(events) && i < j < |Run(events).emitted|
    ensures Run(events).emitted[i] != Run(events).emitted[j]
  {
    RunCounts(events);
    NumberedIsDistinct(Run(events).emitted, i, j);
  }

  ghost predicate CalmStep(events: seq<Event>, k: nat)
    requires k < |events|
  {
    !OldResend(Run(events[..k]), events[k]) && InFields(Run(events[..k + 1]))
  }

  /** No old message was resent, whatever was or was not cleared. */
  ghost predicate Calm(events: seq<Event>) {
    forall k | 0 <= k < |events| :: CalmStep(events, k)
  }

  lemma {:induction false} CalmRunCounts(events: seq<Event>)
    requires Calm(events)
    ensures Counted(Run(events)) && InFields(Run(events))
  {
    if events != [] {
      var n := |events| - 1;
      var before := events[..n];
      forall k | 0 <= k < n
        ensures CalmStep(before, k)
      {
        assert CalmStep(events, k);
        assert before[..k] == events[..k] && before[..k + 1] == events[..k + 1];
      }
      CalmRunCounts(before);
      assert events[..n + 1] == events;
      assert CalmStep(events, n);
      StepCounts(Run(before), events[n]);
    }
  }

  ghost predicate Distinct(emitted: seq<(nat, nat)>) {
    forall i, j | 0 <= i < j < |emitted| :: emitted[i] != emitted[j]
  }

  /** The pairs of `n` records written one after another. */
  function Pairs(epoch: nat, from: nat, n: nat): seq<(nat, nat)> {
    seq(n, i requires 0 <= i => (epoch, from + i))
  }

  lemma {:induction false} WritesPairs(st: State, n: nat)
    requires st.writeSeq + n <= POW_2_48
    ensures WriteRecords(st, n) ==
      st.(writeSeq := st.writeSeq + n, emitted := st.emitted + Pairs(st.wEpoch, st.writeSeq, n))
  {
    if n > 0 {
      WritesPairs(st, n - 1);
      var at := st.writeSeq + n - 1;
      ModUnique(at, POW_2_48, 0, at);
      ModUnique(at + 1, POW_2_64, 0, at + 1);
      assert Pairs(st.wEpoch, st.writeSeq, n) == Pairs(st.wEpoch, st.writeSeq, n - 1) + [(st.wEpoch, at)];
    }
  }

  predicate Used(emitted: seq<(nat, nat)>, epoch: nat, from: nat, n: nat) {
    exists at | from <= at < from + n :: (epoch, at) in emitted
  }

  lemma {:induction false} DistinctWith(emitted: seq<(nat, nat)>, epoch: nat, from: nat, n: nat)
    ensures Distinct(emitted + Pairs(epoch, from, n)) <==> Distinct(emitted) && !Used(emitted, epoch, from, n)
  {
    var all, k := emitted + Pairs(epoch, from, n), |emitted|;
    assert forall i | 0 <= i < k :: all[i] == emitted[i];
    if at :| from <= at < from + n && (epoch, at) in emitted {
      var i :| 0 <= i < k && emitted[i] == (epoch, at);
      assert all[i] == all[k + at - from];
    }
    if Distinct(emitted) && !Used(emitted, epoch, from, n) {
      forall i, j | 0 <= i < j < |all|
        ensures all[i] != all[j]
      {
        if i < k <= j {
          assert all[j] == (epoch, from + (j - k));
          assert all[i] == emitted[i] && emitted[i] in emitted;
        }
      }
    }
  }

  /** Nothing written in the epoch reaches `top`. */
  ghost predicate BelowIn(emitted: seq<(nat, nat)>, epoch: int, top: nat) {
    forall p | p in emitted && p.0 == epoch :: p.1 < top
  }

  /** The two counters are past all they were used for, even when old messages made them skip some. */
  ghost predicate Ahead(st: State) {
    && UpTo(st.emitted, st.wEpoch)
    && BelowIn(st.emitted, st.wEpoch, st.writeSeq)
    && BelowIn(st.emitted, st.wEpoch - 1, st.lastWriteSeq)
    && forall m | m in st.sentMessages :: m.epoch <= st.wEpoch
  }

  /** No number of the step leaves its field. */
  predicate Room(st: State, e: Event) {
    match e
    case Send(n) => st.writeSeq + n <= POW_2_48
    case ChangeCipher => st.wEpoch < 0xffff
    case Resend(k, n) => k < |st.sentMessages| ==> AsOf(st, st.sentMessages[k]).writeSeq + n <= POW_2_48
    case _ => true
  }

  /** The current counter takes a message of an old epoch over numbers that epoch has used. */
  predicate Collides(st: State, e: Event) {
    OldResend(st, e) && Used(st.emitted, st.sentMessages[e.message].epoch, st.writeSeq, e.records)
  }

  /** What sending or resending puts on the wire. */
  lemma {:induction false} StepWrites(st: State, e: Event) returns (epoch: nat, from: nat, n: nat)
    requires Ahead(st) && Room(st, e)
    ensures Step(st, e).emitted == st.emitted + Pairs(epoch, from, n)
    ensures Ahead(Step(st, e))
    ensures Used(st.emitted, epoch, from, n) <==> Collides(st, e)
  {
    epoch, from, n := st.wEpoch, st.writeSeq, 0;
    match e
    case Send(k) =>
      n := k;
      WritesPairs(st, n);
    case Buffer(p) =>
    case Clear =>
    case ChangeCipher =>
      ModUnique(st.wEpoch + 1, 0x1_0000, 0, st.wEpoch + 1);
    case Resend(k, k') =>
      if k < |st.sentMessages| {
        epoch, from, n := ResendWrites(st, k, k');
      }
  }

  lemma {:induction false} ResendWrites(st: State, k: nat, n: nat) returns (epoch: nat, from: nat, n': nat)
    requires Ahead(st) && Room(st, Resend(k, n)) && k < |st.sentMessages|
    ensures n' == n && Step(st, Resend(k, n)).emitted == st.emitted + Pairs(epoch, from, n)
    ensures Ahead(Step(st, Resend(k, n)))
    ensures Used(st.emitted, epoch, from, n) <==> Collides(st, Resend(k, n))
  {
    var m := st.sentMessages[k];
    assert m in st.sentMessages;
    var t := AsOf(st, m);
    epoch, from, n' := t.wEpoch, t.writeSeq, n;
    WritesPairs(t, n);
  }

  predicate RoomAt(events: seq<Event>, k: nat)
    requires k < |events|
  {
    Room(Run(events[..k]), events[k])
  }

  predicate CollidesAt(events: seq<Event>, k: nat)
    requires k < |events|
  {
    Collides(Run(events[..k]), events[k])
  }

  /** Over every run whose numbers stay in their fields: a pair is used twice exactly when some message older
      than the last epoch, for which neither branch restores a counter, is resent over used numbers. */
  lemma {:induction false} DistinctIff(events: seq<Event>)
    requires forall k | 0 <= k < |events| :: RoomAt(events, k)
    ensures Ahead(Run(events))
    ensures Distinct(Run(events).emitted) <==> forall k | 0 <= k < |events| :: !CollidesAt(events, k)
  {
    if events != [] {
      var n := |events| - 1;
      var before := events[..n];
      forall k | 0 <= k < n
        ensures RoomAt(before, k) && (CollidesAt(before, k) <==> CollidesAt(events, k))
      {
        assert RoomAt(events, k);
        assert before[..k] == events[..k];
      }
      DistinctIff(before);
      assert RoomAt(events, n);
      var st := Run(before);
      var epoch, from, records := StepWrites(st, events[n]);
      DistinctWith(st.emitted, epoch, from, records);
      assert CollidesAt(events, n) <==> Collides(st, events[n]);
    }
  }

  /** The first time an old message is resent, its numbers collide exactly when its epoch has used more of
      them than the current one. */
  lemma {:induction false} FirstOldResendCollidesIff(events: seq<Event>, e: Event)
    requires Calm(events) && OldResend(Run(events), e) && e.records > 0
    ensures var st := Run(events);
            Collides(st, e) <==> st.writeSeq < CountIn(st.emitted, st.sentMessages[e.message].epoch)
  {
    CalmRunCounts(events);
    var st := Run(events);
    var epoch := st.sentMessages[e.message].epoch;
    forall at: nat
      ensures (epoch, at) in st.emitted <==> at < CountIn(st.emitted, epoch)
    {
      UsedIffBelowCount(st.emitted, epoch, at);
    }
    assert (epoch, st.writeSeq) in st.emitted <==> st.writeSeq < CountIn(st.emitted, epoch);
  }

  /** What messages older than the last epoch have added since `old`, with no change of the cipher: numbers
      below the counter. */
  ghost predicate SinceThen(old_: State, st: State) {
    && st.wEpoch == old_.wEpoch && old_.writeSeq <= st.writeSeq
    && (forall m | m in st.sentMessages :: m.epoch <= st.wEpoch)
    && (forall p | p in old_.emitted :: p in st.emitted)
    && forall p | p in st.emitted && p.0 < st.wEpoch - 1 :: p in old_.emitted || p.1 < st.writeSeq
  }

  lemma {:induction false} StaysSinceThen(old_: State, st: State, e: Event)
    requires SinceThen(old_, st) && Room(st, e) && !e.ChangeCipher?
    ensures SinceThen(old_, Step(st, e))
  {
    match e
    case Send(n) => WritesPairs(st, n);
    case Buffer(p) =>
    case Clear =>
    case ChangeCipher => assert false;
    case Resend(k, n) =>
      if k < |st.sentMessages| {
        WritesPairs(AsOf(st, st.sentMessages[k]), n);
      }
  }

  predicate QuietAt(base: seq<Event>, more: seq<Event>, k: nat)
    requires k < |more|
  {
    !more[k].ChangeCipher? && Room(Run(base + more[..k]), more[k])
  }

  lemma {:induction false} RunOneMore(base: seq<Event>, more: seq<Event>)
    requires more != []
    ensures var n := |more| - 1; Run(base + more) == Step(Run(base + more[..n]), more[n])
  {
    assert (base + more)[..|base + more| - 1] == base + more[..|more| - 1];
  }

  lemma {:induction false} RunsSinceThen(base: seq<Event>, more: seq<Event>)
    requires Counted(Run(base)) && forall k | 0 <= k < |more| :: QuietAt(base, more, k)
    ensures SinceThen(Run(base), Run(base + more))
  {
    if more == [] {
      assert base + [] == base;
    } else {
      var n := |more| - 1;
      forall k | 0 <= k < n
        ensures QuietAt(base, more[..n], k)
      {
        assert QuietAt(base, more, k) && more[..n][..k] == more[..k];
      }
      RunsSinceThen(base, more[..n]);
      assert QuietAt(base, more, n);
      RunOneMore(base, more);
      StaysSinceThen(Run(base), Run(base + more[..n]), more[n]);
    }
  }

  /** Until the cipher changes again, counters tell for every old message that is resent, not just the first:
      its numbers collide exactly when the current one is below the count its epoch had. */
  lemma {:induction false} OldResendCollidesIff(base: seq<Event>, more: seq<Event>, e: Event)
    requires Calm(base) && forall k | 0 <= k < |more| :: QuietAt(base, more, k)
    requires OldResend(Run(base + more), e) && e.records > 0
    ensures var st := Run(base + more);
            Collides(st, e) <==> st.writeSeq < CountIn(Run(base).emitted, st.sentMessages[e.message].epoch)
  {
    CalmRunCounts(base);
    RunsSinceThen(base, more);
    var old_, st := Run(base), Run(base + more);
    var epoch := st.sentMessages[e.message].epoch;
    forall at: nat
      ensures (epoch, at) in old_.emitted <==> at < CountIn(old_.emitted, epoch)
    {
      UsedIffBelowCount(old_.emitted, epoch, at);
    }
    assert (epoch, st.writeSeq) in old_.emitted <==> st.writeSeq < CountIn(old_.emitted, epoch);
  }

  // ---- after that no counter tells ------------------------------------------------------------

  /** The two have the same counters: of the state, and in every epoch the same count of numbers used and the
      same highest one. */
  ghost predicate SameCounters(s: State, t: State) {
    && s.(emitted := []) == t.(emitted := [])
    && (forall epoch: nat :: CountIn(s.emitted, epoch) == CountIn(t.emitted, epoch))
    && forall epoch: nat, top: nat :: BelowIn(s.emitted, epoch, top) <==> BelowIn(t.emitted, epoch, top)
  }

  /** A message of epoch 0 is resent twice in epoch 2, after `a` records and again after `b` more. */
  function Story(a: nat, b: nat): seq<Event> {
    [Buffer(0), ChangeCipher, ChangeCipher, Send(a), Resend(0, 1), Send(b), Resend(0, 1), ChangeCipher, Send(3)]
  }

  function StoryPairs(a: nat, b: nat): seq<(nat, nat)> {
    Pairs(2, 0, a) + Pairs(0, a, 1) + Pairs(2, a + 1, b) + Pairs(0, a + b + 1, 1) + Pairs(3, 0, 3)
  }

  function Steps(st: State, events: seq<Event>): State
    decreases |events|
  {
    if events == [] then st else Steps(Step(st, events[0]), events[1..])
  }

  lemma {:induction false} RunIsSteps(before: seq<Event>, events: seq<Event>)
    ensures Run(before + events) == Steps(Run(before), events)
    decreases |events|
  {
    if events == [] {
      assert before + [] == before;
    } else {
      assert (before + [events[0]])[..|before|] == before;
      assert before + [events[0]] + events[1..] == before + events;
      RunIsSteps(before + [events[0]], events[1..]);
    }
  }

  lemma {:induction false} OneStep(st: State, e: Event, rest: seq<Event>)
    ensures Steps(st, [e] + rest) == Steps(Step(st, e), rest)
  {
    assert ([e] + rest)[1..] == rest;
  }

  /** Some records, the old message, and where the counter then is. */
  lemma {:induction false} SendAndResend(st: State, a: nat, rest: seq<Event>)
    requires st.wEpoch == 2 && st.sentMessages == [Saved(0, 0)] && st.writeSeq + a + 1 <= POW_2_48
    ensures Steps(st, [Send(a)] + ([Resend(0, 1)] + rest)) == Steps(
      st.(writeSeq := st.writeSeq + a + 1,
          emitted := st.emitted + Pairs(2, st.writeSeq, a) + Pairs(0, st.writeSeq + a, 1)), rest)
  {
    WritesPairs(st, a);
    var s := Step(st, Send(a));
    WritesPairs(s.(wEpoch := 0), 1);
    OneStep(st, Send(a), [Resend(0, 1)] + rest);
    OneStep(s, Resend(0, 1), rest);
  }

  lemma {:induction false} StoryBegins(first: seq<Event>)
    ensures Steps(INITIAL, [Buffer(0)] + ([ChangeCipher] + ([ChangeCipher] + first)))
         == Steps(State(2, 0, 0, [Saved(0, 0)], []), first)
  {
    var s := INITIAL.(sentMessages := [Saved(0, 0)]);
    assert Step(INITIAL, Buffer(0)) == s;
    assert Step(s, ChangeCipher) == s.(wEpoch := 1);
    assert Step(s.(wEpoch := 1), ChangeCipher) == State(2, 0, 0, [Saved(0, 0)], []);
    OneStep(INITIAL, Buffer(0), [ChangeCipher] + ([ChangeCipher] + first));
    OneStep(s, ChangeCipher, [ChangeCipher] + first);
    OneStep(s.(wEpoch := 1), ChangeCipher, first);
  }

  lemma {:induction false} StoryEnds(st: State)
    requires st.wEpoch == 2
    ensures Steps(st, [ChangeCipher] + ([Send(3)] + []))
         == st.(wEpoch := 3, writeSeq := 3, lastWriteSeq := st.writeSeq, emitted := st.emitted + Pairs(3, 0, 3))
  {
    var s := Step(st, ChangeCipher);
    OneStep(st, ChangeCipher, [Send(3)] + []);
    WritesPairs(s, 3);
    OneStep(s, Send(3), []);
  }

  lemma {:induction false} StoryState(a: nat, b: nat)
    requires a + b == 4
    ensures Run(Story(a, b)) == State(3, 3, 6, [Saved(0, 0)], StoryPairs(a, b))
  {
    var last := [ChangeCipher] + ([Send(3)] + []);
    var second := [Send(b)] + ([Resend(0, 1)] + last);
    var first := [Send(a)] + ([Resend(0, 1)] + second);
    var one := State(2, a + 1, 0, [Saved(0, 0)], [] + Pairs(2, 0, a) + Pairs(0, a, 1));
    assert Run(Story(a, b)) == Steps(INITIAL, [Buffer(0)] + ([ChangeCipher] + ([ChangeCipher] + first))) by {
      RunIsSteps([], Story(a, b));
      assert [] + Story(a, b) == Story(a, b) == [Buffer(0)] + ([ChangeCipher] + ([ChangeCipher] + first));
    }
    StoryBegins(first);
    SendAndResend(State(2, 0, 0, [Saved(0, 0)], []), a, second);
    SendAndResend(one, b, last);
    StoryEnds(one.(writeSeq := 6, emitted := one.emitted + Pairs(2, a + 1, b) + Pairs(0, a + b + 1, 1)));
    assert [] + Pairs(2, 0, a) == Pairs(2, 0, a);
  }

  lemma {:induction false} CountAppend(a: seq<(nat, nat)>, b: seq<(nat, nat)>, epoch: nat)
    ensures CountIn(a + b, epoch) == CountIn(a, epoch) + CountIn(b, epoch)
    decreases |b|
  {
    if b == [] {
      assert a + b == a;
    } else {
      var n := |b| - 1;
      assert (a + b)[..|a + b| - 1] == a + b[..n];
      CountAppend(a, b[..n], epoch);
    }
  }

  lemma {:induction false} CountPairs(e: nat, from: nat, n: nat, epoch: nat)
    ensures CountIn(Pairs(e, from, n), epoch) == if e == epoch then n else 0
  {
    if n > 0 {
      assert Pairs(e, from, n)[..n - 1] == Pairs(e, from, n - 1);
      CountPairs(e, from, n - 1, epoch);
    }
  }

  lemma {:induction false} StoryCount(a: nat, b: nat, epoch: nat)
    ensures CountIn(StoryPairs(a, b), epoch)
         == if epoch == 0 then 2 else if epoch == 2 then a + b else if epoch == 3 then 3 else 0
  {
    var p1, p2, p3 := Pairs(2, 0, a), Pairs(0, a, 1), Pairs(2, a + 1, b);
    var p4, p5 := Pairs(0, a + b + 1, 1), Pairs(3, 0, 3);
    CountAppend(p1 + p2 + p3 + p4, p5, epoch);
    CountAppend(p1 + p2 + p3, p4, epoch);
    CountAppend(p1 + p2, p3, epoch);
    CountAppend(p1, p2, epoch);
    CountPairs(2, 0, a, epoch);
    CountPairs(0, a, 1, epoch);
    CountPairs(2, a + 1, b, epoch);
    CountPairs(0, a + b + 1, 1, epoch);
    CountPairs(3, 0, 3, epoch);
  }

  lemma {:induction false} PairsHold(e: nat, from: nat, n: nat, p: (nat, nat))
    ensures p in Pairs(e, from, n) <==> p.0 == e && from <= p.1 < from + n
  {
    if p.0 == e && from <= p.1 < from + n {
      assert Pairs(e, from, n)[p.1 - from] == p;
    }
  }

  lemma {:induction false} StoryHolds(a: nat, b: nat, p: (nat, nat))
    requires a + b == 4
    ensures p in StoryPairs(a, b) <==>
            || (p.0 == 0 && (p.1 == a || p.1 == 5)) || (p.0 == 2 && p.1 < 5 && p.1 != a) || (p.0 == 3 && p.1 < 3)
  {
    PairsHold(2, 0, a, p);
    PairsHold(0, a, 1, p);
    PairsHold(2, a + 1, b, p);
    PairsHold(0, a + b + 1, 1, p);
    PairsHold(3, 0, 3, p);
  }

  lemma {:induction false} StoryTop(a: nat, b: nat, epoch: nat, top: nat)
    requires a + b == 4 && b > 0
    ensures BelowIn(StoryPairs(a, b), epoch, top)
            <==> (epoch == 0 ==> 5 < top) && (epoch == 2 ==> 4 < top) && (epoch == 3 ==> 2 < top)
  {
    forall p ensures p in StoryPairs(a, b) <==>
      || (p.0 == 0 && (p.1 == a || p.1 == 5)) || (p.0 == 2 && p.1 < 5 && p.1 != a) || (p.0 == 3 && p.1 < 3) {
      StoryHolds(a, b, p);
    }
    assert (0, 5) in StoryPairs(a, b) && (2, 4) in StoryPairs(a, b) && (3, 2) in StoryPairs(a, b);
  }

  /** Once the cipher has changed after an old message was resent no counter tells any more: two runs with the
      same counters, of which the next record of the same message is a new one in the first and collides
      in the second. */
  lemma {:induction false} CountersDoNotTell()
    ensures var s, t := Run(Story(1, 3)), Run(Story(3, 1));
            SameCounters(s, t) && !Collides(s, Resend(0, 1)) && Collides(t, Resend(0, 1))
  {
    var s, t := Run(Story(1, 3)), Run(Story(3, 1));
    StoryState(1, 3);
    StoryState(3, 1);
    forall epoch: nat ensures CountIn(s.emitted, epoch) == CountIn(t.emitted, epoch) {
      StoryCount(1, 3, epoch);
      StoryCount(3, 1, epoch);
    }
    forall epoch: nat, top: nat ensures BelowIn(s.emitted, epoch, top) <==> BelowIn(t.emitted, epoch, top) {
      StoryTop(1, 3, epoch, top);
      StoryTop(3, 1, epoch, top);
    }
    StoryHolds(1, 3, (0, 3));
    StoryHolds(3, 1, (0, 3));
  }

  /** Retransmitting one record of a buffered message reuses a pair exactly when the message is older
      than the last epoch, so that neither branch restores its counter, and that counter is ahead. */
  lemma {:induction false} RetransmitReusesIff(st: State, m: Saved)
    requires Counted(st) && InFields(st) && m in st.sentMessages
    ensures var s := Retransmit(st, m, 1);
            && |s.emitted| == |st.emitted| + 1
            && (s.emitted[|st.emitted|] in st.emitted <==>
                m.epoch < st.wEpoch - 1 && st.writeSeq < CountIn(st.emitted, m.epoch))
  {
    var t := AsOf(st, m);
    assert WriteRecords(t, 0) == t;
    assert t.writeSeq < POW_2_48 by {
      assert CountIn(st.emitted, st.wEpoch) < POW_2_48;
      assert m.epoch == st.wEpoch - 1 ==> CountIn(st.emitted, m.epoch) < POW_2_48;
    }
    var s := Retransmit(st, m, 1);
    assert s.emitted == st.emitted + [(m.epoch, t.writeSeq)];
    UsedIffBelowCount(st.emitted, m.epoch, t.writeSeq);
  }

  /** Such a run exists: a message buffered across two cipher changes is resent under a used number. */
  lemma {:induction false} UndisciplinedRunReuses()
    ensures var run := Run([Buffer(0), Send(1), ChangeCipher, ChangeCipher, Resend(0, 1)]);
            run.emitted == [(0, 0), (0, 0)]
  {
    var e := [Buffer(0), Send(1), ChangeCipher, ChangeCipher, Resend(0, 1)];
    var s1 := BufferMessage(INITIAL, 0);
    assert e[..5][..4] == e[..4] && e[..4][..3] == e[..3] && e[..3][..2] == e[..2] && e[..2][..1] == e[..1];
    assert e[..1][..0] == [] && e[..5] == e;
    assert Run(e[..1]) == s1;
    assert WriteRecords(s1, 0) == s1;
    var s2 := s1.(writeSeq := 1, emitted := [(0, 0)]);
    assert Run(e[..2]) == s2;
    var s4 := s2.(wEpoch := 2, writeSeq := 0, lastWriteSeq := 0);
    assert Run(e[..3]) == s2.(wEpoch := 1, writeSeq := 0, lastWriteSeq := 1);
    assert Run(e[..4]) == s4;
    assert WriteRecords(s4.(wEpoch := 0), 0) == s4.(wEpoch := 0);
  }
}
