/**
 What the queue of buffered messages does to the next handshake of the same connection: the numbers begin
 again at 0 (d1_srvr.c, d1_clnt.c), and the queue is kept.
 */
module Renegotiation {
  import opened Bits
  import opened Options
  import opened Reassembly
  import opened Fragmentation
  import opened Transcript
  import opened StaleQueue

  /** In a handshake that begins with `st`, whatever its messages and whatever honest records come, the
      reader stays faithful and inside its buffers. */
  ghost predicate KeepsFaith(st: State) {
    forall msgs: seq<Message>, calls: seq<Event> :: FaithAt(st, msgs, calls)
  }

  ghost predicate FaithAt(st: State, msgs: seq<Message>, calls: seq<Event>) {
    WellFormed(st.server, msgs) && HonestCalls(msgs, calls)
    ==> Faithful(msgs, Session(st, calls)) && LastInBounds(st, calls)
  }

  /** Calls within one handshake, over records of its messages. */
  ghost predicate HonestCalls(msgs: seq<Message>, calls: seq<Event>) {
    OneHandshake(calls) && AllHonest([msgs], calls)
  }

  lemma {:induction false} NoNewHandshake(calls: seq<Event>)
    requires OneHandshake(calls)
    ensures Handshakes(calls) == 0
  {
    if calls != [] {
      NoNewHandshake(calls[..|calls| - 1]);
    }
  }

  // ---- an empty queue -------------------------------------------------------------------------

  lemma {:induction false} EmptyKeepsFaith(st: State)
    requires st.buffered == []
    ensures KeepsFaith(Restart(st))
  {
    forall msgs: seq<Message>, calls: seq<Event>
      ensures FaithAt(Restart(st), msgs, calls)
    {
      if WellFormed(st.server, msgs) && HonestCalls(msgs, calls) {
        RestartAgrees(msgs, st);
        NoNewHandshake(calls);
        SessionAgrees(st.server, [msgs], Restart(st), calls);
        AgreesIsFaithful(st.server, msgs, Session(Restart(st), calls));
      }
    }
  }

  // ---- one that is not ------------------------------------------------------------------------

  /** An empty message, and the record that brings it. */
  const EMPTY_MESSAGE := Message(1, [])

  function EmptyPacket(i: nat): Packet { Packet(EncodeHeader(HeaderOf(EMPTY_MESSAGE, i)) + [], _ => 0) }

  function EmptyCalls(k: nat): (r: seq<Event>)
    ensures |r| == k
  {
    seq(k, i requires 0 <= i => Ask([EmptyPacket(i)], LIMITS))
  }

  /** The state after `k` empty messages. */
  predicate Walked(st: State, s: State, k: nat) {
    var walked := s.readSeq == k && |s.delivered| == k && s.buffered == st.buffered && s.server == st.server;
    walked
  }

  lemma {:induction false} EmptyIsDelivered(st: State, s: State, k: nat)
    requires Walked(st, s, k) && k < 0xffff && st.buffered != [] && k < st.buffered[0].hdr.seqNo
    ensures Walked(st, GetMessageOf(s, [EmptyPacket(k)], LIMITS).st, k + 1)
  {
    var hdr := HeaderOf(EMPTY_MESSAGE, k);
    HeaderRoundTrip(hdr, []);
    assert (EncodeHeader(hdr) + [])[HM_HEADER_LENGTH..] == [];
    assert Retrieve(s, LIMITS.max) == (Retry, s);
  }

  lemma {:induction false} Walk(st: State, k: nat)
    requires st.readSeq == 0 && st.delivered == [] && st.buffered != []
    requires k <= st.buffered[0].hdr.seqNo < 0xffff
    ensures Walked(st, Session(st, EmptyCalls(k)), k)
  {
    if k > 0 {
      Walk(st, k - 1);
      assert EmptyCalls(k)[..k - 1] == EmptyCalls(k - 1);
      EmptyIsDelivered(st, Session(st, EmptyCalls(k - 1)), k - 1);
    }
  }

  /** `n` empty messages and then one that is not. */
  function Messages(n: nat, last: Message): seq<Message> { seq(n, _ => EMPTY_MESSAGE) + [last] }

  lemma {:induction false} EmptyIsHonest(n: nat, last: Message, k: nat)
    requires k < n
    ensures Honest(Messages(n, last), EmptyPacket(k))
  {
    var msgs := Messages(n, last);
    assert CarriesFragment(msgs, k, Range(0, 0), EmptyPacket(k).raw);
  }

  /** A message of zeros, of which one-byte pieces are honest fragments. */
  function Zeros(t: byte, len: nat): Message { Message(t, seq(len, _ => 0)) }

  lemma {:induction false} PieceIsHonest(n: nat, t: byte, len: nat, off: nat)
    requires off < len && len % 8 != 0 && 1 < len
    ensures Honest(Messages(n, Zeros(t, len)), Piece(t, len, n, off))
  {
    var msgs := Messages(n, Zeros(t, len));
    assert msgs[n] == Zeros(t, len);
    assert msgs[n].body[off..off + 1] == [0];
    assert CarriesFragment(msgs, n, Range(off, 1), Piece(t, len, n, off).raw);
  }

  lemma {:induction false} PiecesAreHonest(n: nat, t: byte, len: nat, off: nat)
    requires off <= len && len % 8 != 0 && 1 < len
    ensures forall p | p in Pieces(t, len, n, off) :: Honest(Messages(n, Zeros(t, len)), p)
    decreases len - off
  {
    if off < len {
      PieceIsHonest(n, t, len, off);
      PiecesAreHonest(n, t, len, off + 1);
    }
  }

  /** The empty messages, and one call more. */
  function WalkAnd(n: nat, net: seq<Packet>): (r: seq<Event>)
    ensures |r| == n + 1 && r[n] == Ask(net, LIMITS)
    ensures forall k | 0 <= k < n :: r[k] == Ask([EmptyPacket(k)], LIMITS)
  {
    EmptyCalls(n) + [Ask(net, LIMITS)]
  }

  lemma {:induction false} WalkIsHonestAt(n: nat, last: Message, net: seq<Packet>, k: nat)
    requires k <= n && forall p | p in net :: Honest(Messages(n, last), p)
    ensures HonestAt([Messages(n, last)], WalkAnd(n, net), k)
  {
    NoNewHandshake(WalkAnd(n, net)[..k]);
    if k < n {
      EmptyIsHonest(n, last, k);
    }
  }

  lemma {:induction false} WalkIsHonest(n: nat, last: Message, net: seq<Packet>)
    requires forall p | p in net :: Honest(Messages(n, last), p)
    ensures HonestCalls(Messages(n, last), WalkAnd(n, net))
  {
    forall k | 0 <= k < |WalkAnd(n, net)|
      ensures HonestAt([Messages(n, last)], WalkAnd(n, net), k)
    {
      WalkIsHonestAt(n, last, net, k);
    }
  }

  /** The last call of the walk starts where the queue is looked at. */
  lemma {:induction false} WalkEnds(st: State, net: seq<Packet>) returns (s: State)
    requires Formed(st) && st.readSeq == 0 && st.delivered == [] && st.buffered != []
    requires st.buffered[0].hdr.seqNo < 0xffff
    ensures var n := st.buffered[0].hdr.seqNo;
      && AwaitsHead(s) && s == Session(st, EmptyCalls(n)) && Walked(st, s, n)
      && Session(st, WalkAnd(n, net)) == GetMessageOf(s, net, LIMITS).st
      && WalkAnd(n, net)[..n] == EmptyCalls(n)
  {
    var n := st.buffered[0].hdr.seqNo;
    s := Session(st, EmptyCalls(n));
    Walk(st, n);
    assert WalkAnd(n, net)[..n] == EmptyCalls(n);
  }

  lemma {:induction false} MessagesWellFormed(server: bool, n: nat, last: Message)
    requires n < 0xffff && |last.body| < 0x100_0000 && last.mtype != HELLO_REQUEST
    ensures WellFormed(server, Messages(n, last))
  {
    forall m | m in Messages(n, last)
      ensures m == EMPTY_MESSAGE || m == last
    {
    }
  }

  function OtherType(t: byte): byte { if t == 1 then 2 else 1 }

  /** An entry that can be completed is handed up in the place of another message. */
  lemma {:induction false} LeftoverIsHandedUp(st: State) returns (msgs: seq<Message>, calls: seq<Event>)
    requires Formed(st) && st.readSeq == 0 && st.delivered == [] && st.buffered != []
    requires st.buffered[0].hdr.seqNo < 0xffff && !Hopeless(st.buffered[0])
    ensures !FaithAt(st, msgs, calls)
  {
    var n, t := st.buffered[0].hdr.seqNo, OtherType(st.buffered[0].hdr.mtype);
    var s := WalkEnds(st, []);
    var len, net := HopefulHeadIsTaken(s, t);
    s := WalkEnds(st, net);
    msgs, calls := Messages(n, Zeros(t, len)), WalkAnd(n, net);
    PiecesAreHonest(n, t, len, 0);
    WalkIsHonest(n, Zeros(t, len), net);
    MessagesWellFormed(st.server, n, Zeros(t, len));
    NotFaithful(s, AttemptOf(s, net), n, Zeros(t, len));
    Unfaithful(st, msgs, calls);
  }

  lemma {:induction false} Unfaithful(st: State, msgs: seq<Message>, calls: seq<Event>)
    requires WellFormed(st.server, msgs) && HonestCalls(msgs, calls)
    requires !Faithful(msgs, Session(st, calls)) || !LastInBounds(st, calls)
    ensures !FaithAt(st, msgs, calls)
  {
  }

  lemma {:induction false} NotFaithful(st: State, a: Attempt, n: nat, last: Message)
    requires st.readSeq == n < 0xffff && |st.delivered| == n && Took(st, a)
    requires st.buffered[0].hdr.mtype != last.mtype
    ensures !Faithful(Messages(n, last), a.got.st)
  {
    assert Messages(n, last)[n] == last;
  }

  /** Only a message of eight bytes can be in parts that never pass the test. */
  lemma {:induction false} HopelessIsOctet(msgs: seq<Message>, e: Entry)
    requires GoodEntry(msgs, e) && FormedEntry(e) && Hopeless(e)
    ensures |e.reassembly.value| == 1
  {
    var mask, n := e.reassembly.value, |msgs[e.hdr.seqNo].body|;
    var j := |mask| - 1;
    assert Bit(mask[j], 7);
    assert Marked(mask, 8 * j + 7);
    assert n % 8 != 0 ==> 8 * j + 7 >= n;
  }

  /** One that never passes is overrun by a longer message. */
  lemma {:induction false} LeftoverIsOverrun(st: State) returns (msgs: seq<Message>, calls: seq<Event>)
    requires Formed(st) && st.readSeq == 0 && st.delivered == [] && st.buffered != []
    requires st.buffered[0].hdr.seqNo < 0xffff
    requires st.buffered[0].reassembly.Some? && |st.buffered[0].reassembly.value| == 1
    ensures !FaithAt(st, msgs, calls)
  {
    var n, last := st.buffered[0].hdr.seqNo, Zeros(1, 17);
    msgs, calls := Messages(n, last), WalkAnd(n, LongPiece(n));
    PieceIsHonest(n, 1, 17, 0);
    WalkIsHonest(n, last, LongPiece(n));
    MessagesWellFormed(st.server, n, last);
    LongPieceEnds(st, n);
    Unfaithful(st, msgs, calls);
  }

  function LongPiece(n: nat): seq<Packet> { [Piece(1, 17, n, 0)] }

  lemma {:induction false} LongPieceEnds(st: State, n: nat)
    requires Formed(st) && st.readSeq == 0 && st.delivered == [] && st.buffered != []
    requires st.buffered[0].reassembly.Some? && |st.buffered[0].reassembly.value| == 1
    requires n == st.buffered[0].hdr.seqNo < 0xffff
    ensures !LastInBounds(st, WalkAnd(n, LongPiece(n)))
  {
    var s := WalkEnds(st, LongPiece(n));
    LongPieceOverruns(s);
    LastOutcome(st, WalkAnd(n, LongPiece(n)), LongPiece(n), LIMITS);
  }

  lemma {:induction false} LastOutcome(st: State, calls: seq<Event>, net: seq<Packet>, limits: Limits)
    requires calls != [] && calls[|calls| - 1] == Ask(net, limits)
    requires GetMessageOf(Session(st, calls[..|calls| - 1]), net, limits).outcome == Overrun
    ensures !LastInBounds(st, calls)
  {
  }

  lemma {:induction false} LongPieceOverruns(s: State)
    requires AwaitsHead(s) && s.buffered[0].reassembly.Some? && |s.buffered[0].reassembly.value| == 1
    ensures GetMessageOf(s, LongPiece(s.readSeq), LIMITS).outcome == Overrun
  {
    PieceIsReassembled(s, 1, 17, 0);
    assert Find(s.buffered, s.readSeq) == 0;
    assert Process(s, Piece(1, 17, s.readSeq, 0), LIMITS).0 == Overrun;
  }

  /** From every state in agreement with the handshake so far: the next one is read faithfully, whatever its
      messages are and whatever honest records come, exactly when nothing is queued as it starts. */
  lemma {:induction false} NewHandshakeIff(server: bool, msgs: seq<Message>, st: State)
    requires WellFormed(server, msgs) && Agrees(server, msgs, st) && Formed(st)
    ensures KeepsFaith(Restart(st)) <==> st.buffered == []
  {
    if st.buffered == [] {
      EmptyKeepsFaith(st);
    } else {
      var e := st.buffered[0];
      assert e in st.buffered;
      if Hopeless(e) {
        HopelessIsOctet(msgs, e);
        var msgs', calls := LeftoverIsOverrun(Restart(st));
      } else {
        var msgs', calls := LeftoverIsHandedUp(Restart(st));
      }
    }
  }

  /** A handshake whose messages have all been handed up leaves nothing in the queue exactly when its head is
      not stale. */
  lemma {:induction false} EndsEmptyIff(server: bool, msgs: seq<Message>, st: State)
    requires Agrees(server, msgs, st) && st.readSeq == |msgs|
    ensures st.buffered == [] <==> !Stale(st)
  {
    if st.buffered != [] {
      assert st.buffered[0] in st.buffered;
    }
  }

  // ---- two handshakes mixed -------------------------------------------------------------------

  function Mixed(m1: Message, m2: Message, c: nat): Message
    requires c <= |m1.body| == |m2.body|
  {
    Message(m1.mtype, m1.body[..c] + m2.body[c..])
  }

  /** A part, the whole, a new handshake, and the other part of a message of the same type and length. */
  predicate Mixes(m1: Message, m2: Message, c: nat, p1: Packet, p2: Packet, p3: Packet) {
    && m1.mtype == m2.mtype && 0 < c < |m1.body| == |m2.body| < 0x100_0000
    && |m1.body| % 8 != 0 && (c <= 8 || c % 8 != 0)
    && IsFragmentPacket(p1, m1, Range(0, c)) && IsFragmentPacket(p2, m1, Range(0, |m1.body|))
    && IsFragmentPacket(p3, m2, Range(c, |m2.body| - c))
  }

  /** Both parts together are complete. */
  lemma {:induction false} TwoParts(n: nat, c: nat, both: seq<Range>)
    requires 0 < c < n && n % 8 != 0 && (c <= 8 || c % 8 != 0)
    requires |both| == 2 && both[0] == Range(0, c) && both[1] == Range(c, n - c)
    ensures Within(n, both) && IsComplete(END_VALUES, MaskAfter(END_VALUES, n, both), n)
  {
    forall i: nat | i < n
      ensures Received(both, i)
    {
      assert both[0].Holds(i) || both[1].Holds(i);
    }
    CoverageCompletes(n, both);
  }

  lemma {:induction false} FirstPartIsQueued(m: Message, c: nat, memory: nat -> byte) returns (e: Entry)
    requires 0 < c < |m.body| && |m.body| % 8 != 0
    ensures var e0, f := NewEntry(FragmentHeader(m, Range(0, c)), memory), Range(0, c);
      && CanAdd(e0, FragmentHeader(m, f)) && e == WithFragment(e0, m, f)
      && e.hdr == HeaderOf(m, 0) && |e.fragment| == |m.body| && e.fragment[..c] == m.body[..c]
      && e.reassembly == Some(MaskAfter(END_VALUES, |m.body|, [f]))
  {
    var f := Range(0, c);
    var e0 := NewEntry(FragmentHeader(m, f), memory);
    PartIsNotComplete(m, f, memory);
    e := WithFragment(e0, m, f);
    NewMask(FragmentHeader(m, f), memory, []);
    assert [] + [f] == [f];
    AddedMask(e0, FragmentHeader(m, f), m.body[0..c], [], [f]);
    assert e.fragment[..c] == m.body[..c];
  }

  /** The entry that the first handshake leaves is completed by the second. */
  lemma {:induction false} SecondPartCompletes(m1: Message, m2: Message, c: nat, e: Entry)
    requires m1.mtype == m2.mtype && 0 < c < |m1.body| == |m2.body| && |m1.body| % 8 != 0 && (c <= 8 || c % 8 != 0)
    requires e.hdr == HeaderOf(m1, 0) && |e.fragment| == |m1.body| && e.fragment[..c] == m1.body[..c]
    requires e.reassembly == Some(MaskAfter(END_VALUES, |m1.body|, [Range(0, c)]))
    ensures var f := Range(c, |m2.body| - c);
      && CanAdd(e, FragmentHeader(m2, f))
      && WithFragment(e, m2, f) == Entry(HeaderOf(m1, 0), Mixed(m1, m2, c).body, None)
  {
    var n, f := |m1.body|, Range(c, |m2.body| - c);
    var both := [Range(0, c)] + [f];
    AddedMask(e, FragmentHeader(m2, f), m2.body[c..n], [Range(0, c)], both);
    SplicedIsMixed(m1, m2, c, e.fragment);
    TwoParts(n, c, both);
  }

  lemma {:induction false} SplicedIsMixed(m1: Message, m2: Message, c: nat, buf: seq<byte>)
    requires c <= |m1.body| == |m2.body| == |buf| && buf[..c] == m1.body[..c]
    ensures Splice(buf, c, m2.body[c..|m2.body|]) == Mixed(m1, m2, c).body
  {
    assert Splice(buf, c, m2.body[c..|m2.body|]) == buf[..c] + m2.body[c..];
  }

  lemma {:induction false} ThreeEvents(st: State, a: Event, b: Event, c: Event)
    ensures Session(st, [a, b, c]) == After(After(After(st, a), b), c)
  {
    assert [a, b, c][..2] == [a, b] && [a, b][..1] == [a] && [a][..0] == [];
    assert Session(st, [a]) == After(st, a);
    assert Session(st, [a, b]) == After(After(st, a), b);
  }

  /** The other part comes to the entry that the handshake before has left. */
  predicate OtherPartComes(
    st: State, m1: Message, m2: Message, c: nat, e: Entry, net: seq<Packet>, limits: Limits)
  {
    match m1
    case Message(t, body) =>
      && st.readSeq == 0 && st.delivered == [] && st.buffered == [e] && e.hdr == HeaderOf(m1, 0)
      && t == m2.mtype && 0 < c < |body| == |m2.body| < 0x100_0000
      && |body| <= limits.max && |body| <= limits.maxLen
      && var f := Range(c, |m2.body| - c);
         && |net| == 1 && IsFragmentPacket(net[0], m2, f) && CanAdd(e, FragmentHeader(m2, f))
         && WithFragment(e, m2, f) == Entry(HeaderOf(m1, 0), Mixed(m1, m2, c).body, None)
  }

  lemma {:induction false} OtherPartAbsorbs(
    st: State, m1: Message, m2: Message, c: nat, e: Entry, net: seq<Packet>, limits: Limits)
    requires OtherPartComes(st, m1, m2, c, e, net, limits)
    ensures Absorbs(st, net, m2, Range(c, |m2.body| - c), limits, e)
  {
  }

  /** ... in the next handshake. */
  lemma {:induction false} OtherPartIsTaken(
    st: State, m1: Message, m2: Message, c: nat, e: Entry, net: seq<Packet>, limits: Limits)
    requires OtherPartComes(st, m1, m2, c, e, net, limits)
    ensures c <= |m1.body| == |m2.body|
    ensures GetMessageOf(st, net, limits).st.delivered == [Mixed(m1, m2, c)]
  {
    var f := Range(c, |m2.body| - c);
    OtherPartAbsorbs(st, m1, m2, c, e, net, limits);
    Absorbed(st, net, m2, f, limits, e);
    var e' := WithFragment(e, m2, f);
    PassingEntryIsHandedUp(st.(buffered := [e']), e', m2, net[1..], limits);
  }

  /** The queue that one handshake leaves behind mixes its message with that of the next: the first bytes of
      the one and the last bytes of the other are handed up and hashed as one message. */
  lemma {:induction false} HandshakesMix(
    server: bool, m1: Message, m2: Message, c: nat, p1: Packet, p2: Packet, p3: Packet, limits: Limits)
    requires Mixes(m1, m2, c, p1, p2, p3) && (server || m1.mtype != HELLO_REQUEST)
    requires |m1.body| <= limits.max && |m1.body| <= limits.maxLen
    ensures var events := [Ask([p1, p2], limits), NewHandshake, Ask([p3], limits)];
      Session(Initial(server), events).delivered == [Mixed(m1, m2, c)]
  {
    var st := Initial(server);
    ThreeEvents(st, Ask([p1, p2], limits), NewHandshake, Ask([p3], limits));
    ResentWholeBlocks(m1, Range(0, c), st, [p1, p2], limits);
    var e := FirstPartIsQueued(m1, c, p1.memory);
    SecondPartCompletes(m1, m2, c, e);
    OtherPartIsTaken(Restart(GetMessageOf(st, [p1, p2], limits).st), m1, m2, c, e, [p3], limits);
  }
}
