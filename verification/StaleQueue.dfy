/**
 When the queue of buffered handshake messages stops (d1_both.c), for the rest of a handshake or for good.
 The reader only looks at the head of the queue, never removes an entry whose number it has gone past, and
 keeps the queue when the numbers start again with the next handshake.
 */
module StaleQueue {
  import opened Bits
  import opened Options
  import opened Reassembly
  import opened Fragmentation
  import opened Transcript

  // ---- what every run keeps, whatever arrives -------------------------------------------------

  ghost predicate NoMarkFrom(mask: seq<byte>, n: nat) {
    forall i: nat | n <= i < 8 * |mask| :: !Marked(mask, i)
  }

  ghost predicate FormedEntry(e: Entry) {
    && e.hdr.InRange()
    && match e.reassembly
       case None => |e.fragment| == e.hdr.fragLen && e.hdr.fragOff + e.hdr.fragLen <= e.hdr.msgLen
       case Some(mask) =>
         && e.hdr == e.hdr.Whole() && 2 <= e.hdr.msgLen == |e.fragment|
         && |mask| == BitmaskSize(e.hdr.msgLen) && NoMarkFrom(mask, e.hdr.msgLen)
  }

  ghost predicate FormedQueue(q: seq<Entry>) {
    Sorted(q) && forall e | e in q :: FormedEntry(e)
  }

  ghost predicate Formed(st: State) { st.readSeq < 0x1_0000 && FormedQueue(st.buffered) }

  lemma {:induction false} MarkStaysBelow(mask: seq<byte>, f: Range, n: nat)
    requires f.off + f.len <= n && f.off + f.len <= 8 * |mask| && NoMarkFrom(mask, n)
    ensures NoMarkFrom(Mark(END_VALUES, mask, f.off, f.off + f.len), n)
  {
    var r := Mark(END_VALUES, mask, f.off, f.off + f.len);
    forall i: nat | n <= i < 8 * |r|
      ensures !Marked(r, i)
    {
      MarkMarks(END_VALUES, mask, f, i);
    }
  }

  lemma {:induction false} AddedIsFormed(e: Entry, hdr: Header, payload: seq<byte>)
    requires FormedEntry(e) && CanAdd(e, hdr) && |payload| == hdr.fragLen
    ensures FormedEntry(AddFragment(e, hdr, payload))
  {
    MarkStaysBelow(e.reassembly.value, Range(hdr.fragOff, hdr.fragLen), e.hdr.msgLen);
  }

  lemma {:induction false} NewIsFormed(hdr: Header, memory: nat -> byte)
    requires hdr.InRange() && 2 <= hdr.msgLen
    ensures FormedEntry(NewEntry(hdr, memory))
  {
    var mask := NewEntry(hdr, memory).reassembly.value;
    forall i: nat | hdr.msgLen <= i < 8 * |mask|
      ensures !Marked(mask, i)
    {
      BitZero(i % 8);
    }
  }

  lemma {:induction false} InsertFormed(q: seq<Entry>, e: Entry)
    requires FormedQueue(q) && FormedEntry(e)
    ensures FormedQueue(Insert(q, e))
  {
    InsertSorted(q, e);
  }

  lemma {:induction false} ReplaceFormed(q: seq<Entry>, k: nat, e: Entry)
    requires FormedQueue(q) && k < |q| && FormedEntry(e) && e.hdr == q[k].hdr
    ensures FormedQueue(q[k := e])
  {
    UpdateSorted(q, k, e);
  }

  lemma {:induction false} ReassembleFormed(
    st: State, hdr: Header, payload: seq<byte>, maxLen: nat, memory: nat -> byte)
    requires Formed(st) && hdr.InRange() && |payload| == hdr.fragLen && 2 <= hdr.msgLen
    ensures Formed(Reassemble(st, hdr, payload, maxLen, memory).1)
  {
    var k := Find(st.buffered, hdr.seqNo);
    var e := if k < |st.buffered| then st.buffered[k] else NewEntry(hdr, memory);
    assert FormedEntry(e) by {
      if k < |st.buffered| {
        assert e in st.buffered;
      } else {
        NewIsFormed(hdr, memory);
      }
    }
    if Fits(hdr, maxLen) && e.reassembly.Some? && CanAdd(e, hdr) {
      AddedIsFormed(e, hdr, payload);
      var e' := AddFragment(e, hdr, payload);
      if k < |st.buffered| {
        ReplaceFormed(st.buffered, k, e');
      } else {
        InsertFormed(st.buffered, e');
      }
    }
  }

  lemma {:induction false} DecodedInRange(raw: seq<byte>)
    requires |raw| >= HM_HEADER_LENGTH
    ensures DecodeHeader(raw).InRange()
  {
  }

  /** One record, whatever it holds. */
  lemma {:induction false} ProcessFormed(st: State, p: Packet, limits: Limits)
    requires Formed(st)
    ensures Formed(Process(st, p, limits).1)
  {
    if |p.raw| >= HM_HEADER_LENGTH && |p.raw| == HM_HEADER_LENGTH + DecodeHeader(p.raw).fragLen {
      var hdr, payload := DecodeHeader(p.raw), p.raw[HM_HEADER_LENGTH..];
      DecodedInRange(p.raw);
      if 0 < hdr.fragLen < hdr.msgLen {
        ReassembleFormed(st, hdr, payload, limits.maxLen, p.memory);
      } else if hdr.fragOff + hdr.fragLen <= hdr.msgLen {
        InsertFormed(st.buffered, Entry(hdr, payload, None));
      }
    }
  }

  lemma {:induction false} RetrieveFormed(st: State, max: nat)
    requires Formed(st)
    ensures Formed(Retrieve(st, max).1)
  {
    if st.buffered != [] {
      var rest := st.buffered[1..];
      assert forall e | e in rest :: e in st.buffered;
      assert Sorted(rest);
    }
  }

  lemma {:induction false} GetMessageFormed(st: State, net: seq<Packet>, limits: Limits)
    requires Formed(st)
    ensures Formed(GetMessageOf(st, net, limits).st)
    decreases |net|
  {
    var s := Retrieve(st, limits.max).1;
    RetrieveFormed(st, limits.max);
    if net != [] {
      var s' := Process(s, net[0], limits).1;
      ProcessFormed(s, net[0], limits);
      GetMessageFormed(s', net[1..], limits);
      ThreeWays(st, net, limits);
    }
  }

  /** Whatever the network brings and however many handshakes there are, the queue stays sorted, every
      bitmask is as long as its message needs, and no bit past the end of the message is ever set. */
  lemma {:induction false} SessionFormed(st: State, events: seq<Event>)
    requires Formed(st)
    ensures Formed(Session(st, events))
  {
    if events != [] {
      var before := events[..|events| - 1];
      SessionFormed(st, before);
      match events[|events| - 1]
      case Ask(net, limits) => GetMessageFormed(Session(st, before), net, limits);
      case NewHandshake =>
    }
  }

  lemma {:induction false} InitialFormed(server: bool)
    ensures Formed(Initial(server))
  {
  }

  // ---- a queue that is blocked ----------------------------------------------------------------

  /** The head of the queue has a number that the reader has gone past. */
  predicate Stale(st: State) { st.buffered != [] && st.buffered[0].hdr.seqNo < st.readSeq }

  /** Every octet of the bitmask has its top bit set, which no entry of the table of end values has. */
  predicate Topped(mask: seq<byte>) { forall j | 0 <= j < |mask| :: Bit(mask[j], 7) }

  /** The head is stale, or is awaited and can never pass the completeness test. */
  predicate Blocked(st: State) {
    Stale(st) || (st.buffered != [] && st.buffered[0].hdr.seqNo == st.readSeq && Hopeless(st.buffered[0]))
  }

  predicate Hopeless(e: Entry) { e.reassembly.Some? && Topped(e.reassembly.value) }

  lemma {:induction false} ToppedNeverCompletes(mask: seq<byte>, msgLen: nat)
    requires Topped(mask) && 0 < msgLen && |mask| == BitmaskSize(msgLen)
    ensures !IsComplete(END_VALUES, mask, msgLen)
  {
    assert Bit(mask[(msgLen - 1) / 8], 7);
    EndBits(END_VALUES, msgLen % 8, 7);
    assert END_VALUES[0] != REPAIRED_END_VALUES[0];
  }

  lemma {:induction false} MarkKeepsTops(mask: seq<byte>, f: Range)
    requires Topped(mask) && f.off + f.len <= 8 * |mask|
    ensures Topped(Mark(END_VALUES, mask, f.off, f.off + f.len))
  {
    var r := Mark(END_VALUES, mask, f.off, f.off + f.len);
    forall j | 0 <= j < |r|
      ensures Bit(r[j], 7)
    {
      MarkMarks(END_VALUES, mask, f, 8 * j + 7);
      assert Marked(mask, 8 * j + 7);
      assert Marked(r, 8 * j + 7);
    }
  }

  /** No fragment, not even one that gives another length, completes such an entry. */
  lemma {:induction false} HopelessStays(e: Entry, hdr: Header, payload: seq<byte>)
    requires Hopeless(e) && CanAdd(e, hdr) && |payload| == hdr.fragLen
    ensures Hopeless(AddFragment(e, hdr, payload))
  {
    var mask := Mark(END_VALUES, e.reassembly.value, hdr.fragOff, hdr.fragOff + hdr.fragLen);
    MarkKeepsTops(e.reassembly.value, Range(hdr.fragOff, hdr.fragLen));
    ToppedNeverCompletes(mask[..BitmaskSize(hdr.msgLen)], hdr.msgLen);
  }

  /** What one record may do to a queue whose head is not ahead of the reader. */
  predicate HeadStays(st: State, o: Outcome, s: State) {
    var stays :=
      if o == Delivered then
        && s.buffered == st.buffered && s.readSeq == (st.readSeq + 1) % 0x1_0000
        && |s.delivered| == |st.delivered| + 1
      else
        && s.readSeq == st.readSeq && s.delivered == st.delivered && st.buffered != [] && s.buffered != []
        && s.buffered[0].hdr == st.buffered[0].hdr
        && (Hopeless(st.buffered[0]) ==> Hopeless(s.buffered[0]));
    stays
  }

  /** The head of the queue after its entry for a fragment became `e`. */
  lemma {:induction false} UpdatedHead(q: seq<Entry>, k: nat, e: Entry, r: seq<Entry>)
    requires q != [] && q[0].hdr.seqNo <= e.hdr.seqNo && k <= |q|
    requires r == if k < |q| then q[k := e] else Insert(q, e)
    requires k == |q| ==> q[0].hdr.seqNo != e.hdr.seqNo
    ensures r != [] && r[0] == if k == 0 then e else q[0]
  {
  }

  lemma {:induction false} ReassembleHead(
    st: State, hdr: Header, payload: seq<byte>, maxLen: nat, memory: nat -> byte)
    requires |payload| == hdr.fragLen && 0 < hdr.msgLen
    requires st.buffered != [] && st.buffered[0].hdr.seqNo <= hdr.seqNo
    ensures var (o, s) := Reassemble(st, hdr, payload, maxLen, memory);
      o != Delivered && HeadStays(st, o, s)
  {
    var q := st.buffered;
    var k := Find(q, hdr.seqNo);
    var e := if k < |q| then q[k] else NewEntry(hdr, memory);
    if Fits(hdr, maxLen) && e.reassembly.Some? && CanAdd(e, hdr) {
      var e' := AddFragment(e, hdr, payload);
      if Hopeless(e) {
        HopelessStays(e, hdr, payload);
      }
      assert k == |q| ==> q[0] in q;
      UpdatedHead(q, k, e', if k < |q| then q[k := e'] else Insert(q, e'));
    }
  }

  lemma {:induction false} OutOfSeqHead(
    st: State, hdr: Header, payload: seq<byte>, maxLen: nat, memory: nat -> byte)
    requires |payload| == hdr.fragLen && st.buffered != [] && st.buffered[0].hdr.seqNo <= st.readSeq
    ensures var (o, s) := OutOfSeq(st, hdr, payload, maxLen, memory);
      o != Delivered && HeadStays(st, o, s)
  {
    if 0 < hdr.fragLen < hdr.msgLen && st.readSeq < hdr.seqNo {
      ReassembleHead(st, hdr, payload, maxLen, memory);
    }
  }

  lemma {:induction false} HandleHead(
    st: State, hdr: Header, payload: seq<byte>, limits: Limits, memory: nat -> byte)
    requires |payload| == hdr.fragLen && st.buffered != [] && st.buffered[0].hdr.seqNo <= st.readSeq
    ensures var (o, s) := Handle(st, hdr, payload, limits, memory);
      HeadStays(st, o, s)
  {
    if hdr.seqNo != st.readSeq {
      OutOfSeqHead(st, hdr, payload, limits.maxLen, memory);
    } else if 0 < hdr.fragLen < hdr.msgLen {
      ReassembleHead(st, hdr, payload, limits.maxLen, memory);
    }
  }

  lemma {:induction false} ProcessHead(st: State, p: Packet, limits: Limits)
    requires st.buffered != [] && st.buffered[0].hdr.seqNo <= st.readSeq
    ensures var (o, s) := Process(st, p, limits); HeadStays(st, o, s)
  {
    if |p.raw| >= HM_HEADER_LENGTH && |p.raw| == HM_HEADER_LENGTH + DecodeHeader(p.raw).fragLen {
      HandleHead(st, DecodeHeader(p.raw), p.raw[HM_HEADER_LENGTH..], limits, p.memory);
    }
  }

  /** What one record, or one call, may do to a blocked queue. */
  predicate StaysBlocked(st: State, o: Outcome, s: State) {
    var stays :=
      if o == Delivered then
        && s.readSeq == (st.readSeq + 1) % 0x1_0000 && |s.delivered| == |st.delivered| + 1
        && (st.readSeq + 1 < 0x1_0000 ==> Blocked(s))
      else s.readSeq == st.readSeq && s.delivered == st.delivered && Blocked(s);
    stays
  }

  /** One record leaves a blocked queue blocked, as long as the awaited number does not wrap around. */
  lemma {:induction false} ProcessStaysBlocked(st: State, p: Packet, limits: Limits)
    requires Blocked(st) && st.readSeq < 0x1_0000
    ensures var (o, s) := Process(st, p, limits); StaysBlocked(st, o, s)
  {
    var (o, s) := Process(st, p, limits);
    ProcessHead(st, p, limits);
    HeadStaysBlocked(st, o, s);
  }

  lemma {:induction false} HeadStaysBlocked(st: State, o: Outcome, s: State)
    requires Blocked(st) && HeadStays(st, o, s) && st.readSeq < 0x1_0000
    ensures StaysBlocked(st, o, s)
  {
  }

  /** The call hands up a message out of the queue. */
  predicate FromQueue(st: State, net: seq<Packet>, limits: Limits)
    decreases |net|
  {
    var o := Retrieve(st, limits.max).0;
    || o == Delivered
    || (o == Retry && net != [] &&
        var (o', s) := Process(st, net[0], limits);
        o' == Retry && FromQueue(s, net[1..], limits))
  }

  /** What a call may do to a blocked queue. */
  ghost predicate KeptBlocked(st: State, net: seq<Packet>, got: Got) {
    StaysBlocked(st, got.outcome, got.st) && (got.outcome == Delivered ==> exists p | p in net :: InOnePiece(p))
  }

  /** A record that brings a message as a whole, or none of it. */
  predicate InOnePiece(p: Packet) {
    |p.raw| >= HM_HEADER_LENGTH && !(0 < DecodeHeader(p.raw).fragLen < DecodeHeader(p.raw).msgLen)
  }

  lemma {:induction false} DirectIsWhole(st: State, p: Packet, limits: Limits)
    requires Process(st, p, limits).0 == Delivered
    ensures InOnePiece(p)
  {
  }

  lemma {:induction false} CallStaysBlocked(st: State, net: seq<Packet>, limits: Limits)
    requires Blocked(st) && st.readSeq < 0x1_0000
    ensures !FromQueue(st, net, limits) && KeptBlocked(st, net, GetMessageOf(st, net, limits))
    decreases |net|
  {
    assert Retrieve(st, limits.max) == (Retry, st);
    if net != [] {
      var (o, s) := Process(st, net[0], limits);
      ProcessStaysBlocked(st, net[0], limits);
      if o == Retry {
        CallStaysBlocked(s, net[1..], limits);
      } else if o == Delivered {
        DirectIsWhole(st, net[0], limits);
        assert net[0] in net;
      }
    }
  }

  /** How many messages a session within one handshake hands up. */
  function HandedUp(st: State, calls: seq<Event>): int { |Session(st, calls).delivered| - |st.delivered| }

  predicate OneHandshake(calls: seq<Event>) { forall k | 0 <= k < |calls| :: calls[k].Ask? }

  /** What the call did to the number of messages handed up, and whether the queue is still blocked. */
  predicate Counts(st: State, after: State) {
    var more := |after.delivered| - |st.delivered|;
    more >= 0 && (st.readSeq + more < 0x1_0000 ==> Blocked(after) && after.readSeq == st.readSeq + more)
  }

  lemma {:induction false} CallCounts(st: State, net: seq<Packet>, limits: Limits)
    requires Blocked(st) && st.readSeq < 0x1_0000
    ensures Counts(st, GetMessageOf(st, net, limits).st)
  {
    CallStaysBlocked(st, net, limits);
    KeptCounts(st, net, GetMessageOf(st, net, limits));
  }

  lemma {:induction false} KeptCounts(st: State, net: seq<Packet>, got: Got)
    requires KeptBlocked(st, net, got)
    ensures Counts(st, got.st)
  {
  }

  lemma {:induction false} SessionStaysBlocked(st: State, calls: seq<Event>)
    requires Blocked(st) && st.readSeq < 0x1_0000 && OneHandshake(calls)
    ensures Counts(st, Session(st, calls))
  {
    if calls != [] {
      var before, last := Session(st, calls[..|calls| - 1]), calls[|calls| - 1];
      SessionStaysBlocked(st, calls[..|calls| - 1]);
      NeverForgets(before, last.net, last.limits);
      if st.readSeq + |before.delivered| - |st.delivered| < 0x1_0000 {
        CallCounts(before, last.net, last.limits);
      }
    }
  }

  lemma {:induction false} NeverForgets(st: State, net: seq<Packet>, limits: Limits)
    ensures st.delivered <= GetMessageOf(st, net, limits).st.delivered
    decreases |net|
  {
    var s := Retrieve(st, limits.max).1;
    assert st.delivered <= s.delivered;
    if net != [] {
      var s' := Process(s, net[0], limits).1;
      ProcessForgetsNothing(s, net[0], limits);
      NeverForgets(s', net[1..], limits);
      ThreeWays(st, net, limits);
    }
  }

  lemma {:induction false} ProcessForgetsNothing(st: State, p: Packet, limits: Limits)
    ensures st.delivered <= Process(st, p, limits).1.delivered
  {
  }

  // ---- and one that is not --------------------------------------------------------------------

  const LIMITS := Limits(0x100_0000, 0x100_0000)

  /** The one-byte fragment at `off` of a message of `msgLen` bytes. */
  function PieceHeader(t: byte, msgLen: nat, seqNo: nat, off: nat): Header { Header(t, msgLen, seqNo, off, 1) }

  function Piece(t: byte, msgLen: nat, seqNo: nat, off: nat): Packet {
    Packet(EncodeHeader(PieceHeader(t, msgLen, seqNo, off)) + [0], _ => 0)
  }

  function Pieces(t: byte, msgLen: nat, seqNo: nat, off: nat): seq<Packet>
    requires off <= msgLen
    decreases msgLen - off
  {
    if off == msgLen then [] else [Piece(t, msgLen, seqNo, off)] + Pieces(t, msgLen, seqNo, off + 1)
  }

  lemma {:induction false} PieceIsReassembled(st: State, t: byte, msgLen: nat, off: nat)
    requires 2 <= msgLen < 0x100_0000 && off < msgLen && st.readSeq < 0x1_0000
    ensures var p := Piece(t, msgLen, st.readSeq, off);
      Process(st, p, LIMITS) ==
      Reassemble(st, PieceHeader(t, msgLen, st.readSeq, off), [0], LIMITS.maxLen, p.memory)
  {
    var hdr := PieceHeader(t, msgLen, st.readSeq, off);
    HeaderRoundTrip(hdr, [0]);
    assert (EncodeHeader(hdr) + [0])[HM_HEADER_LENGTH..] == [0];
  }

  ghost predicate AllMarked(mask: seq<byte>, n: nat) {
    forall i: nat | i < n && i < 8 * |mask| :: Marked(mask, i)
  }

  /** The first `off` bytes are marked; filling up to `n` makes the entry pass the test for `n` bytes. */
  ghost predicate Fillable(e: Entry, n: nat, off: nat) {
    match e.reassembly
    case None => false
    case Some(mask) =>
      && FormedEntry(e) && off <= n && 2 <= n <= e.hdr.msgLen && n % 8 != 0
      && AllMarked(mask, off)
      && forall i: nat | n <= i < 8 * BitmaskSize(n) && i < 8 * |mask| :: !Marked(mask, i)
  }

  /** Exactly the bits below `n` set is what the test for `n` bytes wants. */
  lemma {:induction false} ExactlyMarkedCompletes(mask: seq<byte>, n: nat)
    requires 0 < n && n % 8 != 0 && |mask| == BitmaskSize(n)
    requires AllMarked(mask, n) && NoMarkFrom(mask, n)
    ensures IsComplete(END_VALUES, mask, n)
  {
    SmallPowers();
    var last := (n - 1) / 8;
    forall k: nat | k < 8
      ensures Bit(mask[last], k) <==> Bit(END_VALUES[n % 8], k)
    {
      EndBits(END_VALUES, n % 8, k);
      assert Marked(mask, 8 * last + k) <==> Bit(mask[last], k);
    }
    BitsDetermine(mask[last], END_VALUES[n % 8], 8);
    forall j | 0 <= j < last
      ensures mask[j] == 0xff
    {
      forall k: nat | k < 8
        ensures Bit(mask[j], k) <==> Bit(0xff, k)
      {
        FullBits(0xff, k);
        assert Marked(mask, 8 * j + k);
      }
      BitsDetermine(mask[j], 0xff, 8);
    }
  }

  lemma {:induction false} MarkOne(mask: seq<byte>, off: nat, i: nat)
    requires off < 8 * |mask| && i < 8 * |mask|
    ensures Marked(Mark(END_VALUES, mask, off, off + 1), i) <==> Marked(mask, i) || i == off
  {
    MarkMarks(END_VALUES, mask, Range(off, 1), i);
  }

  lemma {:induction false} FillStep(e: Entry, t: byte, seqNo: nat, n: nat, off: nat)
    requires Fillable(e, n, off) && off < n
    ensures var hdr := PieceHeader(t, n, seqNo, off);
      && CanAdd(e, hdr)
      && var e' := AddFragment(e, hdr, [0]);
         e'.reassembly.None? || (off + 1 < n && Fillable(e', n, off + 1))
  {
    var hdr, mask := PieceHeader(t, n, seqNo, off), e.reassembly.value;
    var e' := AddFragment(e, hdr, [0]);
    var m' := Mark(END_VALUES, mask, off, off + 1);
    forall i: nat | i < 8 * |mask|
      ensures Marked(m', i) <==> Marked(mask, i) || i == off
    {
      MarkOne(mask, off, i);
    }
    if off + 1 == n {
      var part := m'[..BitmaskSize(n)];
      assert forall i: nat | i < 8 * |part| :: Marked(part, i) <==> Marked(m', i);
      ExactlyMarkedCompletes(part, n);
    } else if e'.reassembly.Some? {
      AddedIsFormed(e, hdr, [0]);
    }
  }

  /** A call with large limits: whether it takes from the queue, and what it comes to. */
  datatype Attempt = Attempt(fromQueue: bool, got: Got)

  function AttemptOf(st: State, net: seq<Packet>): Attempt {
    Attempt(FromQueue(st, net, LIMITS), GetMessageOf(st, net, LIMITS))
  }

  /** It hands up the message at the head of the queue, under the type it was queued with. */
  ghost predicate Took(st: State, call: Attempt) {
    var s := call.got.st;
    var took :=
      && call.fromQueue && call.got.outcome == Delivered && st.buffered != []
      && s.readSeq == (st.readSeq + 1) % 0x1_0000 && |s.delivered| == |st.delivered| + 1
      && s.delivered[|st.delivered|].mtype == st.buffered[0].hdr.mtype;
    took
  }

  ghost predicate AwaitsHead(st: State) {
    match st
    case State(_, readSeq, q, _, _, _) => Formed(st) && q != [] && q[0].hdr.seqNo == readSeq
  }

  /** An awaited head that is complete is handed up by a call with large enough limits. */
  lemma {:induction false} CompleteHeadIsTaken(st: State, net: seq<Packet>)
    requires AwaitsHead(st) && st.buffered[0].reassembly.None?
    ensures Took(st, AttemptOf(st, net))
  {
    assert st.buffered[0] in st.buffered;
    assert FormedEntry(st.buffered[0]);
  }

  lemma {:induction false} PieceReplacesHead(st: State, t: byte, n: nat, off: nat)
    requires AwaitsHead(st) && Fillable(st.buffered[0], n, off) && off < n
    ensures CanAdd(st.buffered[0], PieceHeader(t, n, st.readSeq, off))
    ensures var e' := AddFragment(st.buffered[0], PieceHeader(t, n, st.readSeq, off), [0]);
      Process(st, Piece(t, n, st.readSeq, off), LIMITS) == (Retry, st.(buffered := st.buffered[0 := e']))
  {
    FillStep(st.buffered[0], t, st.readSeq, n, off);
    assert st.buffered[0] in st.buffered;
    PieceIsReassembled(st, t, n, off);
    assert Find(st.buffered, st.readSeq) == 0;
  }

  lemma {:induction false} FillingHandsUp(st: State, t: byte, n: nat, seqNo: nat, off: nat)
    returns (net: seq<Packet>)
    requires AwaitsHead(st) && Fillable(st.buffered[0], n, off) && off < n && seqNo == st.readSeq
    ensures net == Pieces(t, n, seqNo, off) && Took(st, AttemptOf(st, net))
    decreases n - off, 0
  {
    var p := Piece(t, n, seqNo, off);
    var s := HeadReplaced(st, t, n, off);
    var rest := RestHandsUp(s, t, n, seqNo, off + 1);
    net := [p] + rest;
    PiecesStep(t, n, seqNo, off);
    TookEarlier(st, s, p, rest);
  }

  /** The head is complete by now, or the fragments go on filling it. */
  lemma {:induction false} RestHandsUp(st: State, t: byte, n: nat, seqNo: nat, off: nat) returns (rest: seq<Packet>)
    requires AwaitsHead(st) && off <= n && seqNo == st.readSeq
    requires st.buffered[0].reassembly.None? || (off < n && Fillable(st.buffered[0], n, off))
    ensures rest == Pieces(t, n, seqNo, off) && Took(st, AttemptOf(st, rest))
    decreases n - off, 1
  {
    if st.buffered[0].reassembly.None? {
      rest := Pieces(t, n, seqNo, off);
      CompleteHeadIsTaken(st, rest);
    } else {
      rest := FillingHandsUp(st, t, n, seqNo, off);
    }
  }

  lemma {:induction false} PiecesStep(t: byte, msgLen: nat, seqNo: nat, off: nat)
    requires off < msgLen
    ensures Pieces(t, msgLen, seqNo, off) == [Piece(t, msgLen, seqNo, off)] + Pieces(t, msgLen, seqNo, off + 1)
  {
  }

  lemma {:induction false} TookEarlier(st: State, s: State, p: Packet, rest: seq<Packet>)
    requires Moves(st, p, s) && Took(s, AttemptOf(s, rest))
    ensures Took(st, AttemptOf(st, [p] + rest))
  {
    AfterRetry(st, s, p, rest);
  }

  lemma {:induction false} HeadReplaced(st: State, t: byte, n: nat, off: nat) returns (s: State)
    requires AwaitsHead(st) && Fillable(st.buffered[0], n, off) && off < n
    ensures AwaitsHead(s) && s.readSeq == st.readSeq && Moves(st, Piece(t, n, st.readSeq, off), s)
    ensures s.buffered[0].reassembly.None? || (off + 1 < n && Fillable(s.buffered[0], n, off + 1))
  {
    PieceReplacesHead(st, t, n, off);
    FillStep(st.buffered[0], t, st.readSeq, n, off);
    ProcessFormed(st, Piece(t, n, st.readSeq, off), LIMITS);
    s := Process(st, Piece(t, n, st.readSeq, off), LIMITS).1;
  }

  /** The record leads from one state to the other, which has handed up no more and has the same message at
      the head. */
  ghost predicate Moves(st: State, p: Packet, s: State) {
    var moves :=
      && Process(st, p, LIMITS) == (Retry, s) && st.readSeq == s.readSeq && st.delivered == s.delivered
      && st.buffered != [] && s.buffered != []
      && s.buffered[0].hdr == st.buffered[0].hdr && st.buffered[0].reassembly.Some?;
    moves
  }

  lemma {:induction false} AfterRetry(st: State, s: State, p: Packet, rest: seq<Packet>)
    requires Moves(st, p, s)
    ensures AttemptOf(st, [p] + rest) == AttemptOf(s, rest)
    ensures Took(s, AttemptOf(s, rest)) ==> Took(st, AttemptOf(s, rest))
  {
    assert Retrieve(st, LIMITS.max) == (Retry, st);
    assert ([p] + rest)[1..] == rest;
    assert GetMessageOf(st, [p] + rest, LIMITS) == GetMessageOf(s, rest, LIMITS);
    assert FromQueue(st, [p] + rest, LIMITS) == FromQueue(s, rest, LIMITS);
  }

  /** An entry with an octet whose top bit is not set can be filled. */
  lemma {:induction false} HopefulIsFillable(e: Entry) returns (n: nat)
    requires FormedEntry(e) && e.reassembly.Some? && !Hopeless(e)
    ensures Fillable(e, n, 0) && 0 < n < 0x100_0000
  {
    var mask := e.reassembly.value;
    var j :| 0 <= j < |mask| && !Bit(mask[j], 7);
    assert !Marked(mask, 8 * j + 7);
    n := if 8 * j + 7 <= e.hdr.msgLen then 8 * j + 7 else e.hdr.msgLen;
    assert n % 8 != 0 && BitmaskSize(n) == j + 1;
    forall i: nat | n <= i < 8 * BitmaskSize(n) && i < 8 * |mask|
      ensures !Marked(mask, i)
    {
    }
  }

  /** What completes an awaited head that is not hopeless: nothing, or fragments of a shorter message. */
  ghost predicate Completes(net: seq<Packet>, t: byte, n: nat, seqNo: nat) {
    2 <= n < 0x100_0000 && n % 8 != 0 && (net == [] || net == Pieces(t, n, seqNo, 0))
  }

  lemma {:induction false} HopefulHeadIsTaken(st: State, t: byte) returns (n: nat, net: seq<Packet>)
    requires AwaitsHead(st) && !Hopeless(st.buffered[0])
    ensures Took(st, AttemptOf(st, net))
    ensures Completes(net, t, n, st.readSeq)
  {
    if st.buffered[0].reassembly.None? {
      n, net := 2, [];
      CompleteHeadIsTaken(st, net);
    } else {
      assert st.buffered[0] in st.buffered;
      n := HopefulIsFillable(st.buffered[0]);
      net := FillingHandsUp(st, t, n, st.readSeq, 0);
    }
  }

  /** A first fragment of the awaited message goes to the front of a queue of later ones. */
  lemma {:induction false} PieceBecomesHead(st: State)
    requires Formed(st) && (st.buffered == [] || st.buffered[0].hdr.seqNo > st.readSeq)
    ensures var (o, s) := Process(st, Piece(1, 2, st.readSeq, 0), LIMITS);
      && o == Retry && s.readSeq == st.readSeq && s.buffered != []
      && s.buffered[0].hdr.seqNo == s.readSeq && s.buffered[0].hdr.msgLen == 2
  {
    var hdr, q := PieceHeader(1, 2, st.readSeq, 0), st.buffered;
    PieceIsReassembled(st, 1, 2, 0);
    var k := Find(q, st.readSeq);
    var e := NewEntry(hdr, Piece(1, 2, st.readSeq, 0).memory);
    assert CanAdd(e, hdr);
    assert Insert(q, AddFragment(e, hdr, [0]))[0] == AddFragment(e, hdr, [0]);
  }

  lemma {:induction false} ShortIsHopeful(e: Entry)
    requires FormedEntry(e) && e.hdr.msgLen == 2
    ensures !Hopeless(e)
  {
    if e.reassembly.Some? {
      assert !Marked(e.reassembly.value, 7);
      assert !Bit(e.reassembly.value[0], 7);
    }
  }

  lemma {:induction false} UnblockedHandsUp(st: State) returns (net: seq<Packet>)
    requires Formed(st) && !Blocked(st)
    ensures FromQueue(st, net, LIMITS)
  {
    if st.buffered != [] && st.buffered[0].hdr.seqNo == st.readSeq {
      var _, more := HopefulHeadIsTaken(st, 1);
      net := more;
    } else {
      var p := Piece(1, 2, st.readSeq, 0);
      PieceBecomesHead(st);
      ProcessFormed(st, p, LIMITS);
      var s := Process(st, p, LIMITS).1;
      assert s.buffered[0] in s.buffered;
      ShortIsHopeful(s.buffered[0]);
      var _, more := HopefulHeadIsTaken(s, 1);
      net := [p] + more;
      assert net[1..] == more;
    }
  }

  // ---- the results ----------------------------------------------------------------------------

  /** After some calls of the same handshake, and before the awaited number wraps around, one more call
      takes a message out of the queue. */
  predicate TakesFromQueue(st: State, calls: seq<Event>, net: seq<Packet>, limits: Limits) {
    OneHandshake(calls) && st.readSeq + HandedUp(st, calls) < 0x1_0000 && FromQueue(Session(st, calls), net, limits)
  }

  /** A queue is blocked exactly when nothing that can arrive makes the reader take from it again in the
      handshake that is going on. */
  lemma {:induction false} BlockedIff(st: State)
    requires Formed(st)
    ensures Blocked(st) <==> forall calls: seq<Event>, net, limits :: !TakesFromQueue(st, calls, net, limits)
  {
    if Blocked(st) {
      forall calls: seq<Event>, net, limits
        ensures !TakesFromQueue(st, calls, net, limits)
      {
        if OneHandshake(calls) && st.readSeq + HandedUp(st, calls) < 0x1_0000 {
          SessionStaysBlocked(st, calls);
          CallStaysBlocked(Session(st, calls), net, limits);
        }
      }
    } else {
      var net := UnblockedHandsUp(st);
      assert TakesFromQueue(st, [], net, LIMITS);
    }
  }

  /** The head is the first message of a handshake, and can never pass the completeness test. */
  predicate Dead(st: State) {
    st.buffered != [] && st.buffered[0].hdr.seqNo == 0 && Hopeless(st.buffered[0])
  }

  /** The next handshake takes up the queue again unless it is dead. */
  lemma {:induction false} NewHandshakeBlocksIff(st: State)
    ensures Blocked(Restart(st)) <==> Dead(st)
  {
  }

  lemma {:induction false} ProcessStaysDead(st: State, p: Packet, limits: Limits)
    requires Dead(st)
    ensures Dead(Process(st, p, limits).1)
  {
    ProcessHead(st, p, limits);
  }

  lemma {:induction false} CallStaysDead(st: State, net: seq<Packet>, limits: Limits)
    requires Dead(st)
    ensures !FromQueue(st, net, limits) && Dead(GetMessageOf(st, net, limits).st)
    decreases |net|
  {
    assert Retrieve(st, limits.max) == (Retry, st);
    if net != [] {
      ProcessStaysDead(st, net[0], limits);
      CallStaysDead(Process(st, net[0], limits).1, net[1..], limits);
    }
  }

  lemma {:induction false} SessionStaysDead(st: State, events: seq<Event>)
    requires Dead(st)
    ensures Dead(Session(st, events))
  {
    if events != [] {
      var before := events[..|events| - 1];
      SessionStaysDead(st, before);
      match events[|events| - 1]
      case Ask(net, limits) => CallStaysDead(Session(st, before), net, limits);
      case NewHandshake =>
    }
  }

  predicate EverTakes(st: State, events: seq<Event>, net: seq<Packet>, limits: Limits) {
    FromQueue(Session(st, events), net, limits)
  }

  /** The queue is dead exactly when nothing makes the reader take from it again, over all the handshakes the
      connection may still see and any number of messages. */
  lemma {:induction false} DeadIff(st: State)
    requires Formed(st)
    ensures Dead(st) <==> forall events: seq<Event>, net, limits :: !EverTakes(st, events, net, limits)
  {
    if Dead(st) {
      forall events: seq<Event>, net, limits
        ensures !EverTakes(st, events, net, limits)
      {
        SessionStaysDead(st, events);
        CallStaysDead(Session(st, events), net, limits);
      }
    } else {
      NewHandshakeBlocksIff(st);
      var net := UnblockedHandsUp(Restart(st));
      assert [NewHandshake][..0] == [];
      assert Session(st, [NewHandshake]) == Restart(st);
      assert EverTakes(st, [NewHandshake], net, LIMITS);
    }
  }

  /** A record makes the head stale exactly when it brings the awaited message itself, in one piece, while
      fragments of that message are at the head of the queue. */
  lemma {:induction false} BecomesStaleIff(st: State, p: Packet, limits: Limits)
    requires Formed(st) && !Stale(st) && st.readSeq + 1 < 0x1_0000
    ensures var (o, s) := Process(st, p, limits);
      Stale(s) <==> o == Delivered && st.buffered != [] && st.buffered[0].hdr.seqNo == st.readSeq
  {
    if Process(st, p, limits).0 == Delivered {
      DirectKeepsQueue(st, p, limits);
    } else {
      NothingGoesStale(st, p, limits);
    }
  }

  lemma {:induction false} DirectKeepsQueue(st: State, p: Packet, limits: Limits)
    requires Process(st, p, limits).0 == Delivered
    ensures var s := Process(st, p, limits).1;
      s.buffered == st.buffered && s.readSeq == (st.readSeq + 1) % 0x1_0000
  {
  }

  lemma {:induction false} NothingGoesStale(st: State, p: Packet, limits: Limits)
    requires !Stale(st) && Process(st, p, limits).0 != Delivered
    ensures !Stale(Process(st, p, limits).1)
  {
    if |p.raw| >= HM_HEADER_LENGTH && |p.raw| == HM_HEADER_LENGTH + DecodeHeader(p.raw).fragLen {
      NewHeadIsAhead(st, DecodeHeader(p.raw), p.raw[HM_HEADER_LENGTH..], limits, p.memory);
    }
  }

  /** A record that is not the awaited message puts nothing at the head that the reader has gone past. */
  lemma {:induction false} NewHeadIsAhead(
    st: State, hdr: Header, payload: seq<byte>, limits: Limits, memory: nat -> byte)
    requires !Stale(st) && |payload| == hdr.fragLen && Handle(st, hdr, payload, limits, memory).0 != Delivered
    ensures !Stale(Handle(st, hdr, payload, limits, memory).1)
  {
    var s := Handle(st, hdr, payload, limits, memory).1;
    if s.buffered != [] && st.readSeq <= hdr.seqNo {
      assert s.buffered[0] in s.buffered;
    }
  }

  /** The ordinary way there: a part of a message, and then the whole of it sent again. The message is handed
      up, and from then on no message that comes in parts, or ahead of its turn, will be. */
  lemma {:induction false} ResentWholeBlocks(m: Message, f: Range, st: State, net: seq<Packet>, limits: Limits)
    requires PartThenWhole(m, f, st, net, limits)
    ensures CanAdd(NewEntry(FragmentHeader(m, f), net[0].memory), FragmentHeader(m, f))
    ensures LeavesPart(st, m, WithFragment(NewEntry(FragmentHeader(m, f), net[0].memory), m, f),
                       GetMessageOf(st, net, limits))
  {
    var e := PartAbsorbs(m, f, st, net, limits);
    var st' := st.(buffered := [e]);
    Absorbed(st, net, m, f, limits, NewEntry(FragmentHeader(m, f), net[0].memory));
    WholeIsHandedUp(st', e, m, net[1..], limits);
    SameLeaves(st, st', m, e, GetMessageOf(st', net[1..], limits));
  }

  /** A part of the awaited message 0, and then the whole of it, come to an empty queue. */
  predicate PartThenWhole(m: Message, f: Range, st: State, net: seq<Packet>, limits: Limits) {
    match m
    case Message(_, body) =>
      && st.readSeq == 0 && st.buffered == [] && (st.server || m.mtype != HELLO_REQUEST)
      && |body| < 0x100_0000 && |body| % 8 != 0 && |body| <= limits.max && |body| <= limits.maxLen
      && |net| == 2 && 0 < f.len < |body|
      && IsFragmentPacket(net[0], m, f) && IsFragmentPacket(net[1], m, Range(0, |body|))
  }

  lemma {:induction false} PartAbsorbs(m: Message, f: Range, st: State, net: seq<Packet>, limits: Limits)
    returns (e: Entry)
    requires PartThenWhole(m, f, st, net, limits)
    ensures CanAdd(NewEntry(FragmentHeader(m, f), net[0].memory), FragmentHeader(m, f))
    ensures e == WithFragment(NewEntry(FragmentHeader(m, f), net[0].memory), m, f)
    ensures Absorbs(st, net, m, f, limits, NewEntry(FragmentHeader(m, f), net[0].memory))
    ensures WholeComes(st.(buffered := [e]), e, m, net[1..], limits)
  {
    PartIsNotComplete(m, f, net[0].memory);
    e := WithFragment(NewEntry(FragmentHeader(m, f), net[0].memory), m, f);
  }

  lemma {:induction false} SameLeaves(st: State, st': State, m: Message, e: Entry, got: Got)
    requires LeavesPart(st', m, e, got) && st'.delivered == st.delivered && st'.server == st.server
    ensures LeavesPart(st, m, e, got)
  {
  }

  /** The message was handed up, and the entry for a part of it blocks the queue. */
  predicate LeavesPart(st: State, m: Message, e: Entry, got: Got) {
    match got
    case Got(o, s, _) =>
      && o == Delivered && s.delivered == st.delivered + [m] && s.server == st.server
      && s.buffered == [e] && Blocked(s)
  }

  lemma {:induction false} PartIsNotComplete(m: Message, f: Range, memory: nat -> byte)
    requires 0 < f.len < |m.body| && f.off + f.len <= |m.body| && |m.body| % 8 != 0
    ensures var e := NewEntry(FragmentHeader(m, f), memory);
      CanAdd(e, FragmentHeader(m, f)) && WithFragment(e, m, f).reassembly.Some?
  {
    var n, hdr, data := |m.body|, FragmentHeader(m, f), m.body[f.off..f.off + f.len];
    var e := NewEntry(hdr, memory);
    NewMask(hdr, memory, []);
    assert [] + [f] == [f];
    AddedMask(e, hdr, data, [], [f]);
    OneIsNotComplete(n, f, [f]);
  }

  lemma {:induction false} OneIsNotComplete(n: nat, f: Range, frags: seq<Range>)
    requires 0 < f.len < n && f.off + f.len <= n && n % 8 != 0 && frags == [f]
    ensures !IsComplete(END_VALUES, MaskAfter(END_VALUES, n, frags), n)
  {
    CompleteIffAllRecorded(END_VALUES, n, frags);
    assert !Recorded(END_VALUES, frags, if f.off > 0 then 0 else n - 1);
  }

  /** The whole of message 0 comes while an entry for a part of it is queued. */
  predicate WholeComes(st: State, e: Entry, m: Message, net: seq<Packet>, limits: Limits) {
    match m
    case Message(_, body) =>
      && st.readSeq == 0 && st.buffered == [e] && e.reassembly.Some? && e.hdr.seqNo == 0
      && (st.server || m.mtype != HELLO_REQUEST) && 0 < |body| < 0x100_0000 && |body| <= limits.max
      && |net| == 1 && IsFragmentPacket(net[0], m, Range(0, |body|))
  }

  lemma {:induction false} WholeIsHandedUp(st: State, e: Entry, m: Message, net: seq<Packet>, limits: Limits)
    requires WholeComes(st, e, m, net, limits)
    ensures LeavesPart(st, m, e, GetMessageOf(st, net, limits))
  {
    var hdr, p := HeaderOf(m, 0), net[0];
    HeaderRoundTrip(hdr, m.body);
    assert m.body[0..|m.body|] == m.body;
    assert p.raw == EncodeHeader(hdr) + m.body;
    assert p.raw[HM_HEADER_LENGTH..] == m.body;
    var buf := Splice(Grow(st.initBuf, hdr.msgLen), 0, m.body);
    assert buf[..hdr.msgLen] == m.body;
    assert Process(st, p, limits) == (Delivered, Deliver(st, hdr, buf));
  }
}
