/**
 The reader of DTLS handshake messages (d1_both.c): reassembly, the queue of future messages, and
 the bytes that go into the Finished hash.
 */
module Transcript {
  import opened Bits
  import opened Options
  import opened Reassembly
  import opened Fragmentation

  datatype Message = Message(mtype: byte, body: seq<byte>)

  const HELLO_REQUEST: byte := 0
  const FINISHED: byte := 20

  /** The header message number `i` has when it is sent in one fragment. */
  function HeaderOf(m: Message, i: nat): Header { Header(m.mtype, |m.body|, i, 0, |m.body|) }

  /** What hashing the messages, each as if sent in one fragment, feeds into the hash. */
  function TranscriptOf(msgs: seq<Message>): seq<byte> {
    if msgs == [] then []
    else
      var n := |msgs| - 1;
      TranscriptOf(msgs[..n]) + (EncodeHeader(HeaderOf(msgs[n], n)) + msgs[n].body)
  }

  // ---- the queue of buffered messages ---------------------------------------------------------

  /** A buffered message; `reassembly` is its bitmask until it is complete. */
  datatype Entry = Entry(hdr: Header, fragment: seq<byte>, reassembly: Option<seq<byte>>)

  /** Position of the entry with this sequence number, or the length of the queue. */
  function Find(q: seq<Entry>, seqNo: nat): (k: nat)
    ensures k <= |q|
    ensures k < |q| ==> q[k].hdr.seqNo == seqNo
    ensures k == |q| ==> forall e | e in q :: e.hdr.seqNo != seqNo
  {
    if q == [] then 0 else if q[0].hdr.seqNo == seqNo then 0 else 1 + Find(q[1..], seqNo)
  }

  /** Insertion into the sorted queue; an entry whose number is there already is not inserted. */
  function Insert(q: seq<Entry>, e: Entry): (r: seq<Entry>)
    ensures forall x | x in r :: x in q || x == e
    ensures forall x | x in q :: x in r
  {
    if q == [] || q[0].hdr.seqNo > e.hdr.seqNo then [e] + q
    else if q[0].hdr.seqNo == e.hdr.seqNo then q
    else [q[0]] + Insert(q[1..], e)
  }

  predicate Sorted(q: seq<Entry>) {
    forall i, j | 0 <= i < j < |q| :: q[i].hdr.seqNo < q[j].hdr.seqNo
  }

  lemma {:induction false} InsertSorted(q: seq<Entry>, e: Entry)
    requires Sorted(q)
    ensures Sorted(Insert(q, e))
  {
    if q != [] && q[0].hdr.seqNo < e.hdr.seqNo {
      InsertSorted(q[1..], e);
      var r := Insert(q[1..], e);
      forall k | 0 <= k < |r|
        ensures q[0].hdr.seqNo < r[k].hdr.seqNo
      {
        assert r[k] in r;
      }
    }
  }

  // ---- one record -----------------------------------------------------------------------------

  /** A record that holds one fragment, and what freshly allocated memory holds when it arrives. */
  datatype Packet = Packet(raw: seq<byte>, memory: nat -> byte)

  datatype Limits = Limits(max: nat, maxLen: nat)

  /** `Overrun` is a write or a read outside a buffer: what C does from there on is not determined. */
  datatype Outcome = Retry | Delivered | Failed | NeedMore | Overrun

  datatype State = State(
    server: bool, readSeq: nat, buffered: seq<Entry>, initBuf: seq<byte>,
    transcript: seq<byte>, delivered: seq<Message>)

  function Grow(buf: seq<byte>, n: nat): (r: seq<byte>)
    ensures |r| >= n
  {
    if |buf| >= n then buf else buf + seq(n - |buf|, _ => 0)
  }

  function Splice(buf: seq<byte>, at: nat, data: seq<byte>): (r: seq<byte>)
    requires at + |data| <= |buf|
    ensures |r| == |buf|
    ensures forall k | 0 <= k < |r| :: r[k] == if at <= k < at + |data| then data[k - at] else buf[k]
  {
    buf[..at] + data + buf[at + |data|..]
  }

  /** The header is made whole, header and body are hashed, and the next number is awaited. */
  function Deliver(st: State, hdr: Header, buf: seq<byte>): State
    requires hdr.msgLen <= |buf|
  {
    var body := buf[..hdr.msgLen];
    st.(readSeq := (st.readSeq + 1) % 0x1_0000, initBuf := buf,
        transcript := st.transcript + (EncodeHeader(hdr.Whole()) + body),
        delivered := st.delivered + [Message(hdr.mtype, body)])
  }

  predicate Fits(hdr: Header, limit: nat) {
    hdr.fragOff + hdr.fragLen <= hdr.msgLen && hdr.fragOff + hdr.fragLen <= limit
  }

  /** dtls1_retrieve_buffered_fragment */
  function Retrieve(st: State, max: nat): (Outcome, State) {
    if st.buffered == [] || st.buffered[0].reassembly.Some? || st.buffered[0].hdr.seqNo != st.readSeq then (Retry, st)
    else
      var e := st.buffered[0];
      var popped := st.(buffered := st.buffered[1..]);
      if Fits(e.hdr, max) && |e.fragment| == e.hdr.fragLen then
        (Delivered, Deliver(popped, e.hdr, Splice(Grow(st.initBuf, e.hdr.msgLen), e.hdr.fragOff, e.fragment)))
      else (Failed, popped)
  }

  /** The entry a fragment is reassembled into when there is none yet. */
  function NewEntry(hdr: Header, memory: nat -> byte): Entry {
    Entry(hdr.Whole(), seq(hdr.msgLen, k requires 0 <= k => memory(k)), Some(seq(BitmaskSize(hdr.msgLen), _ => 0)))
  }

  /** The copy, the marks and the completeness test stay inside the two buffers of the entry. */
  predicate CanAdd(e: Entry, hdr: Header) {
    && 0 < hdr.msgLen && hdr.fragOff + hdr.fragLen <= hdr.msgLen && hdr.fragOff + hdr.fragLen <= |e.fragment|
    && e.reassembly.Some? && BitmaskSize(hdr.msgLen) <= |e.reassembly.value|
  }

  /** A fragment writes byte `i` of the message buffer. */
  predicate Copies(hdr: Header, i: nat) { hdr.fragOff <= i < hdr.fragOff + hdr.fragLen }

  /** A fragment marks octet `j` of the bitmask, or it is the first one the completeness test looks at. */
  predicate Touches(hdr: Header, j: nat)
    requires 0 < hdr.fragOff + hdr.fragLen && 0 < hdr.msgLen
  {
    hdr.fragOff / 8 <= j <= (hdr.fragOff + hdr.fragLen - 1) / 8 || j == (hdr.msgLen - 1) / 8
  }

  /** No byte outside the buffers of an entry is touched exactly when the bytes of the fragment lie in the
      message of the entry, and the length the fragment itself gives needs no longer bitmask. */
  lemma {:induction false} InBoundsIff(e: Entry, hdr: Header)
    requires e.reassembly.Some? && 0 < hdr.fragLen && hdr.fragOff + hdr.fragLen <= hdr.msgLen
    requires |e.fragment| == e.hdr.msgLen && |e.reassembly.value| == BitmaskSize(e.hdr.msgLen)
    ensures CanAdd(e, hdr) <==>
            && (forall i: nat | Copies(hdr, i) :: i < |e.fragment|)
            && (forall j: nat | Touches(hdr, j) :: j < |e.reassembly.value|)
    ensures CanAdd(e, hdr) <==>
            hdr.fragOff + hdr.fragLen <= e.hdr.msgLen && (hdr.msgLen + 7) / 8 <= (e.hdr.msgLen + 7) / 8
  {
    var end := hdr.fragOff + hdr.fragLen;
    assert Copies(hdr, end - 1);
    assert Touches(hdr, (hdr.msgLen - 1) / 8);
  }

  /** Copy the body in, mark it, and drop the bitmask when it is complete. */
  function AddFragment(e: Entry, hdr: Header, payload: seq<byte>): (r: Entry)
    requires CanAdd(e, hdr) && |payload| == hdr.fragLen
    ensures r.hdr == e.hdr
  {
    var mask := Mark(END_VALUES, e.reassembly.value, hdr.fragOff, hdr.fragOff + hdr.fragLen);
    Entry(e.hdr, Splice(e.fragment, hdr.fragOff, payload),
          if IsComplete(END_VALUES, mask[..BitmaskSize(hdr.msgLen)], hdr.msgLen) then None else Some(mask))
  }

  /** A fragment that gives the length of its entry is tested against the whole bitmask. */
  lemma {:induction false} AddWhole(e: Entry, hdr: Header, payload: seq<byte>)
    requires CanAdd(e, hdr) && |payload| == hdr.fragLen && |e.reassembly.value| == BitmaskSize(hdr.msgLen)
    ensures var mask := Mark(END_VALUES, e.reassembly.value, hdr.fragOff, hdr.fragOff + hdr.fragLen);
            AddFragment(e, hdr, payload) == Entry(
              e.hdr, Splice(e.fragment, hdr.fragOff, payload),
              if IsComplete(END_VALUES, mask, hdr.msgLen) then None else Some(mask))
  {
    var mask := Mark(END_VALUES, e.reassembly.value, hdr.fragOff, hdr.fragOff + hdr.fragLen);
    AllOfIt(mask, BitmaskSize(hdr.msgLen));
  }

  lemma {:induction false} AllOfIt(mask: seq<byte>, n: nat)
    requires n == |mask|
    ensures mask[..n] == mask
  {
  }

  /** What becomes of an entry whose bitmask is that of the fragments so far. */
  function Added(e: Entry, off: nat, payload: seq<byte>, n: nat, all: seq<Range>): Entry
    requires off + |payload| <= |e.fragment| && 0 < n && Within(n, all)
  {
    var mask := MaskAfter(END_VALUES, n, all);
    Entry(e.hdr, Splice(e.fragment, off, payload), if IsComplete(END_VALUES, mask, n) then None else Some(mask))
  }

  lemma {:induction false} AddedMask(e: Entry, hdr: Header, payload: seq<byte>, frags: seq<Range>, all: seq<Range>)
    requires CanAdd(e, hdr) && |payload| == hdr.fragLen > 0 && Within(hdr.msgLen, frags)
    requires e.reassembly == Some(MaskAfter(END_VALUES, hdr.msgLen, frags))
    requires all == frags + [Range(hdr.fragOff, hdr.fragLen)]
    ensures Within(hdr.msgLen, all) && AddFragment(e, hdr, payload) == Added(e, hdr.fragOff, payload, hdr.msgLen, all)
  {
    AddWhole(e, hdr, payload);
    LastMark(END_VALUES, hdr.msgLen, frags, Range(hdr.fragOff, hdr.fragLen));
  }

  lemma {:induction false} NewMask(hdr: Header, memory: nat -> byte, none: seq<Range>)
    requires none == []
    ensures NewEntry(hdr, memory).reassembly == Some(MaskAfter(END_VALUES, hdr.msgLen, none))
  {
  }

  /** dtls1_reassemble_fragment */
  function Reassemble(st: State, hdr: Header, payload: seq<byte>, maxLen: nat, memory: nat -> byte): (Outcome, State)
    requires |payload| == hdr.fragLen && 0 < hdr.msgLen
  {
    if !Fits(hdr, maxLen) then (Failed, st)
    else
      var k := Find(st.buffered, hdr.seqNo);
      var e := if k < |st.buffered| then st.buffered[k] else NewEntry(hdr, memory);
      if e.reassembly.None? then (Retry, st)
      else if !CanAdd(e, hdr) then (Overrun, st)
      else
        var e' := AddFragment(e, hdr, payload);
        (Retry, st.(buffered := if k < |st.buffered| then st.buffered[k := e'] else Insert(st.buffered, e')))
  }

  /** dtls1_process_out_of_seq_message */
  function OutOfSeq(st: State, hdr: Header, payload: seq<byte>, maxLen: nat, memory: nat -> byte): (Outcome, State)
    requires |payload| == hdr.fragLen
  {
    if hdr.fragOff + hdr.fragLen > hdr.msgLen then (Failed, st)
    else
      var there := Find(st.buffered, hdr.seqNo) < |st.buffered| && hdr.fragLen >= hdr.msgLen;
      if hdr.seqNo <= st.readSeq || hdr.seqNo > st.readSeq + 10 || there ||
         (st.readSeq == 0 && hdr.mtype == FINISHED)
      then (Retry, st)
      else if 0 < hdr.fragLen < hdr.msgLen then Reassemble(st, hdr, payload, maxLen, memory)
      else (Retry, st.(buffered := Insert(st.buffered, Entry(hdr, payload, None))))
  }

  /** dtls1_get_message_fragment, once a record has been read */
  function Process(st: State, p: Packet, limits: Limits): (Outcome, State) {
    if |p.raw| < HM_HEADER_LENGTH || |p.raw| != HM_HEADER_LENGTH + DecodeHeader(p.raw).fragLen then (Failed, st)
    else Handle(st, DecodeHeader(p.raw), p.raw[HM_HEADER_LENGTH..], limits, p.memory)
  }

  function Handle(st: State, hdr: Header, payload: seq<byte>, limits: Limits, memory: nat -> byte): (Outcome, State)
    requires |payload| == hdr.fragLen
  {
    if hdr.seqNo != st.readSeq then OutOfSeq(st, hdr, payload, limits.maxLen, memory)
    else if 0 < hdr.fragLen < hdr.msgLen then Reassemble(st, hdr, payload, limits.maxLen, memory)
    else if !st.server && hdr.mtype == HELLO_REQUEST then
      (if hdr.msgLen == 0 then Retry else Failed, st)
    else if !Fits(hdr, limits.max) then (Failed, st)
    else (Delivered, Deliver(st, hdr, Splice(Grow(st.initBuf, hdr.msgLen), hdr.fragOff, payload)))
  }

  /** What the end of a handshake and the start of the next do: the numbers and the hash begin again, and
      the queue stays as it is. */
  function Restart(st: State): State { st.(readSeq := 0, transcript := [], delivered := []) }

  datatype Got = Got(outcome: Outcome, st: State, rest: seq<Packet>)

  /** dtls1_get_message: buffered messages first, then records, until a message is there. */
  function GetMessageOf(st: State, net: seq<Packet>, limits: Limits): Got
    decreases |net|
  {
    var (o, s) := Retrieve(st, limits.max);
    if o != Retry then Got(o, s, net)
    else if net == [] then Got(NeedMore, s, net)
    else
      var (o', s') := Process(s, net[0], limits);
      if o' != Retry then Got(o', s', net[1..]) else GetMessageOf(s', net[1..], limits)
  }

  class HandshakeReader {
    const server: bool
    var readSeq: nat
    var buffered: seq<Entry>
    var initBuf: seq<byte>
    /** What went into the Finished hash, and what was handed up, since the handshake began. */
    var transcript: seq<byte>
    var delivered: seq<Message>

    function Abs(): State
      reads this
    {
      State(server, readSeq, buffered, initBuf, transcript, delivered)
    }

    constructor (server: bool)
      ensures Abs() == Initial(server)
    {
      this.server := server;
      readSeq, buffered, initBuf, transcript, delivered := 0, [], [], [], [];
    }

    method NextHandshake()
      modifies this
      ensures Abs() == Restart(old(Abs()))
    {
      readSeq, transcript, delivered := 0, [], [];
    }

    method HandUp(hdr: Header, at: nat, data: seq<byte>)
      requires at + |data| <= hdr.msgLen
      modifies this
      ensures Abs() == Deliver(old(Abs()), hdr, Splice(Grow(old(initBuf), hdr.msgLen), at, data))
    {
      initBuf := Splice(Grow(initBuf, hdr.msgLen), at, data);
      var body := initBuf[..hdr.msgLen];
      transcript := transcript + (EncodeHeader(hdr.Whole()) + body);
      delivered := delivered + [Message(hdr.mtype, body)];
      readSeq := (readSeq + 1) % 0x1_0000;
    }

    method RetrieveBufferedFragment(max: nat) returns (o: Outcome)
      modifies this
      ensures (o, Abs()) == Retrieve(old(Abs()), max)
    {
      if buffered == [] || buffered[0].reassembly.Some? || buffered[0].hdr.seqNo != readSeq {
        return Retry;
      }
      var e := buffered[0];
      buffered := buffered[1..];
      if Fits(e.hdr, max) && |e.fragment| == e.hdr.fragLen {
        HandUp(e.hdr, e.hdr.fragOff, e.fragment);
        return Delivered;
      }
      return Failed;
    }

    method ReassembleFragment(hdr: Header, payload: seq<byte>, maxLen: nat, memory: nat -> byte) returns (o: Outcome)
      requires |payload| == hdr.fragLen && 0 < hdr.msgLen
      modifies this
      ensures (o, Abs()) == Reassemble(old(Abs()), hdr, payload, maxLen, memory)
    {
      if !Fits(hdr, maxLen) {
        return Failed;
      }
      var k := Find(buffered, hdr.seqNo);
      var e := if k < |buffered| then buffered[k] else NewEntry(hdr, memory);
      if e.reassembly.None? {
        return Retry;
      }
      if !CanAdd(e, hdr) {
        return Overrun;
      }
      e := AddFragment(e, hdr, payload);
      buffered := if k < |buffered| then buffered[k := e] else Insert(buffered, e);
      return Retry;
    }

    method ProcessOutOfSeqMessage(hdr: Header, payload: seq<byte>, maxLen: nat, memory: nat -> byte)
      returns (o: Outcome)
      requires |payload| == hdr.fragLen
      modifies this
      ensures (o, Abs()) == OutOfSeq(old(Abs()), hdr, payload, maxLen, memory)
    {
      if hdr.fragOff + hdr.fragLen > hdr.msgLen {
        return Failed;
      }
      var there := Find(buffered, hdr.seqNo) < |buffered|;
      if there && hdr.fragLen < hdr.msgLen {
        there := false;
      }
      if hdr.seqNo <= readSeq || hdr.seqNo > readSeq + 10 || there || (readSeq == 0 && hdr.mtype == FINISHED) {
        return Retry;
      }
      if 0 < hdr.fragLen < hdr.msgLen {
        o := ReassembleFragment(hdr, payload, maxLen, memory);
        return;
      }
      buffered := Insert(buffered, Entry(hdr, payload, None));
      return Retry;
    }

    method ProcessRecord(p: Packet, limits: Limits) returns (o: Outcome)
      modifies this
      ensures (o, Abs()) == Process(old(Abs()), p, limits)
    {
      if |p.raw| < HM_HEADER_LENGTH {
        return Failed;
      }
      var hdr, payload := DecodeHeader(p.raw), p.raw[HM_HEADER_LENGTH..];
      if |payload| != hdr.fragLen {
        return Failed;
      }
      if hdr.seqNo != readSeq {
        o := ProcessOutOfSeqMessage(hdr, payload, limits.maxLen, p.memory);
      } else if 0 < hdr.fragLen < hdr.msgLen {
        o := ReassembleFragment(hdr, payload, limits.maxLen, p.memory);
      } else if !server && hdr.mtype == HELLO_REQUEST {
        o := if hdr.msgLen == 0 then Retry else Failed;
      } else if !Fits(hdr, limits.max) {
        o := Failed;
      } else {
        HandUp(hdr, hdr.fragOff, payload);
        o := Delivered;
      }
    }

    method GetMessage(net: seq<Packet>, limits: Limits) returns (o: Outcome, used: nat)
      modifies this
      ensures used <= |net|
      ensures Got(o, Abs(), net[used..]) == GetMessageOf(old(Abs()), net, limits)
    {
      used := 0;
      while true
        invariant used <= |net|
        invariant GetMessageOf(Abs(), net[used..], limits) == GetMessageOf(old(Abs()), net, limits)
        decreases |net| - used
      {
        o := RetrieveBufferedFragment(limits.max);
        if o != Retry {
          return;
        }
        if used == |net| {
          return NeedMore, used;
        }
        o := ProcessRecord(net[used], limits);
        used := used + 1;
        assert net[used - 1..][1..] == net[used..];
        if o != Retry {
          return;
        }
      }
    }
  }

  function Initial(server: bool): State { State(server, 0, [], [], [], []) }

  // ---- honest senders -------------------------------------------------------------------------

  ghost predicate WellFormed(server: bool, msgs: seq<Message>) {
    && |msgs| < 0x1_0000
    && forall m | m in msgs :: |m.body| < 0x100_0000 && (server || m.mtype != HELLO_REQUEST)
  }

  /** `f` is a fragment of message `i` that the writer may send: never empty unless the message is, and
      a proper part only of a message of a length for which the completeness test is sound. */
  predicate FragmentOf(msgs: seq<Message>, i: nat, f: Range) {
    && i < |msgs|
    && f.off + f.len <= |msgs[i].body|
    && (f.len == 0 ==> msgs[i].body == [])
    && (f.len < |msgs[i].body| ==> |msgs[i].body| % 8 != 0 || |msgs[i].body| == 8)
  }

  predicate CarriesFragment(msgs: seq<Message>, i: nat, f: Range, raw: seq<byte>) {
    FragmentOf(msgs, i, f) && raw == Wire(HeaderOf(msgs[i], i), msgs[i].body, 0, f)
  }

  ghost predicate Honest(msgs: seq<Message>, p: Packet) {
    exists i: nat, f: Range :: CarriesFragment(msgs, i, f, p.raw)
  }

  /** Every record of the fragmenting writer is honest, for any transport: a message that is not cut,
      or whose length is off the byte boundaries. */
  lemma {:induction false} WriterIsHonest(
    server: bool, msgs: seq<Message>, i: nat, link: nat -> Link, overhead: nat, k: nat, memory: nat -> byte)
    requires WellFormed(server, msgs) && i < |msgs| && forall j: nat :: link(j).Usable(overhead)
    requires var cuts := Cuts(|msgs[i].body|, 0, true, link, overhead, 0);
             && k < |cuts| && InBody(msgs[i].body, 0, cuts)
             && (|cuts| == 1 || |msgs[i].body| % 8 != 0 || |msgs[i].body| == 8)
    ensures var body := msgs[i].body;
            var cuts := Cuts(|body|, 0, true, link, overhead, 0);
            Honest(msgs, Packet(Wires(HeaderOf(msgs[i], i), body, 0, cuts)[k], memory))
  {
    var h, body := HeaderOf(msgs[i], i), msgs[i].body;
    var cuts := Cuts(|body|, 0, true, link, overhead, 0);
    CutsTile(|body|, 0, true, link, overhead, 0);
    TilesInBodyAll(cuts, 0, |body|);
    WireAt(h, h, body, 0, cuts, k);
    assert CarriesFragment(msgs, i, cuts[k], Wires(h, body, 0, cuts)[k]);
  }

  // ---- the invariant --------------------------------------------------------------------------

  /** The bitmask never claims a byte that the buffer does not have, and is not yet complete. */
  ghost predicate PartialEntry(body: seq<byte>, e: Entry) {
    && e.reassembly.Some? && (|body| % 8 != 0 || |body| == 8) && |e.fragment| == |body|
    && exists frags: seq<Range> :: RecordedBy(body, e, frags)
  }

  /** The bitmask is that of the fragments in `frags`, and the buffer has all their bytes. */
  ghost predicate RecordedBy(body: seq<byte>, e: Entry, frags: seq<Range>)
    requires e.reassembly.Some? && |e.fragment| == |body|
  {
    && Within(|body|, frags)
    && e.reassembly.value == MaskAfter(END_VALUES, |body|, frags)
    && forall i: nat | i < |body| && Received(frags, i) :: e.fragment[i] == body[i]
  }

  ghost predicate GoodEntry(msgs: seq<Message>, e: Entry) {
    && e.hdr.seqNo < |msgs|
    && e.hdr == HeaderOf(msgs[e.hdr.seqNo], e.hdr.seqNo)
    && (e.reassembly.None? ==> e.fragment == msgs[e.hdr.seqNo].body)
    && (e.reassembly.Some? ==> PartialEntry(msgs[e.hdr.seqNo].body, e))
  }

  /** What the reader has hashed and handed up is exactly the messages below the number it awaits. */
  ghost predicate Inv(msgs: seq<Message>, st: State) {
    && st.readSeq <= |msgs|
    && st.delivered == msgs[..st.readSeq]
    && st.transcript == TranscriptOf(msgs[..st.readSeq])
    && Sorted(st.buffered)
    && forall e | e in st.buffered :: GoodEntry(msgs, e)
  }

  ghost predicate Agrees(server: bool, msgs: seq<Message>, st: State) {
    st.server == server && Inv(msgs, st)
  }

  lemma {:induction false} DeliverKeeps(server: bool, msgs: seq<Message>, st: State, buf: seq<byte>)
    requires WellFormed(server, msgs) && Inv(msgs, st) && st.readSeq < |msgs|
    requires |msgs[st.readSeq].body| <= |buf| && buf[..|msgs[st.readSeq].body|] == msgs[st.readSeq].body
    ensures Inv(msgs, Deliver(st, HeaderOf(msgs[st.readSeq], st.readSeq), buf))
  {
    var n := st.readSeq;
    assert msgs[..n + 1] == msgs[..n] + [msgs[n]];
    assert msgs[..n + 1][..n] == msgs[..n];
  }

  lemma {:induction false} RetrieveKeeps(server: bool, msgs: seq<Message>, st: State, max: nat)
    requires WellFormed(server, msgs) && Agrees(server, msgs, st)
    ensures Agrees(server, msgs, Retrieve(st, max).1)
  {
    var (o, s) := Retrieve(st, max);
    if o == Delivered {
      var e := st.buffered[0];
      assert e in st.buffered;
      var buf := Splice(Grow(st.initBuf, e.hdr.msgLen), e.hdr.fragOff, e.fragment);
      assert buf[..e.hdr.msgLen] == e.fragment;
      DeliverKeeps(server, msgs, st.(buffered := st.buffered[1..]), buf);
    }
  }

  lemma {:induction false} SplicedIsRight(body: seq<byte>, frags: seq<Range>, f: Range, buf: seq<byte>)
    requires |buf| == |body| && f.off + f.len <= |body|
    requires forall k: nat | k < |body| && Received(frags, k) :: buf[k] == body[k]
    ensures forall k: nat | k < |body| && Received(frags + [f], k) ::
      Splice(buf, f.off, body[f.off..f.off + f.len])[k] == body[k]
  {
    forall k: nat | k < |body| && Received(frags + [f], k)
      ensures Splice(buf, f.off, body[f.off..f.off + f.len])[k] == body[k]
    {
      if !f.Holds(k) {
        var g :| g in frags + [f] && g.Holds(k);
        assert g in frags;
        assert Received(frags, k);
      }
    }
  }

  /** A fragment that completes a message completes it with the right bytes; one that does not keeps
      the bitmask honest. */
  lemma {:induction false} AddFragmentKeeps(msgs: seq<Message>, i: nat, e: Entry, f: Range)
    requires FragmentOf(msgs, i, f) && 0 < f.len < |msgs[i].body|
    requires GoodEntry(msgs, e) && e.hdr.seqNo == i && e.reassembly.Some?
    ensures var hdr := HeaderOf(msgs[i], i).(fragOff := f.off, fragLen := f.len);
            CanAdd(e, hdr) && GoodEntry(msgs, AddFragment(e, hdr, msgs[i].body[f.off..f.off + f.len]))
  {
    var body := msgs[i].body;
    var hdr := HeaderOf(msgs[i], i).(fragOff := f.off, fragLen := f.len);
    var frags :| RecordedBy(body, e, frags);
    var more, payload := frags + [f], body[f.off..f.off + f.len];
    assert CanAdd(e, hdr);
    AddedMask(e, hdr, payload, frags, more);
    SplicedIsRight(body, frags, f, e.fragment);
    if IsComplete(END_VALUES, MaskAfter(END_VALUES, |body|, more), |body|) {
      AllReceivedIsBody(body, more, Splice(e.fragment, f.off, payload));
    } else {
      StillRecorded(body, AddFragment(e, hdr, payload), more);
    }
  }

  /** A message that passes the test has all its bytes. */
  lemma {:induction false} AllReceivedIsBody(body: seq<byte>, frags: seq<Range>, buf: seq<byte>)
    requires 0 < |body| == |buf| && (|body| % 8 != 0 || |body| == 8) && Within(|body|, frags) && frags != []
    requires IsComplete(END_VALUES, MaskAfter(END_VALUES, |body|, frags), |body|)
    requires forall k: nat | k < |body| && Received(frags, k) :: buf[k] == body[k]
    ensures buf == body
  {
    SoundExactlyOffBoundaries(|body|);
    assert forall k: nat | k < |body| :: Received(frags, k);
  }

  lemma {:induction false} StillRecorded(body: seq<byte>, e: Entry, frags: seq<Range>)
    requires (|body| % 8 != 0 || |body| == 8) && |e.fragment| == |body| && Within(|body|, frags)
    requires e.reassembly == Some(MaskAfter(END_VALUES, |body|, frags))
    requires forall k: nat | k < |body| && Received(frags, k) :: e.fragment[k] == body[k]
    ensures PartialEntry(body, e)
  {
    assert RecordedBy(body, e, frags);
  }

  lemma {:induction false} NewEntryGood(msgs: seq<Message>, i: nat, hdr: Header, memory: nat -> byte)
    requires i < |msgs| && hdr.Whole() == HeaderOf(msgs[i], i) && (|msgs[i].body| % 8 != 0 || |msgs[i].body| == 8)
    ensures GoodEntry(msgs, NewEntry(hdr, memory))
  {
    var e := NewEntry(hdr, memory);
    assert RecordedBy(msgs[i].body, e, []);
  }

  lemma {:induction false} UpdateSorted(q: seq<Entry>, k: nat, e: Entry)
    requires Sorted(q) && k < |q| && e.hdr == q[k].hdr
    ensures Sorted(q[k := e])
  {
  }

  lemma {:induction false} ReassembleKeeps(
    msgs: seq<Message>, st: State, i: nat, f: Range, maxLen: nat, memory: nat -> byte)
    requires Inv(msgs, st) && FragmentOf(msgs, i, f) && 0 < f.len < |msgs[i].body|
    ensures var hdr := HeaderOf(msgs[i], i).(fragOff := f.off, fragLen := f.len);
            var (o, s) := Reassemble(st, hdr, msgs[i].body[f.off..f.off + f.len], maxLen, memory);
            o != Overrun && Inv(msgs, s)
  {
    var hdr := HeaderOf(msgs[i], i).(fragOff := f.off, fragLen := f.len);
    var k := Find(st.buffered, i);
    var e := if k < |st.buffered| then st.buffered[k] else NewEntry(hdr, memory);
    if k < |st.buffered| {
      assert e in st.buffered;
    } else {
      NewEntryGood(msgs, i, hdr, memory);
    }
    if Fits(hdr, maxLen) && e.reassembly.Some? {
      AddFragmentKeeps(msgs, i, e, f);
      var e' := AddFragment(e, hdr, msgs[i].body[f.off..f.off + f.len]);
      if k < |st.buffered| {
        UpdateSorted(st.buffered, k, e');
      } else {
        InsertSorted(st.buffered, e');
      }
    }
  }

  lemma {:induction false} HandleKeeps(
    server: bool, msgs: seq<Message>, st: State, i: nat, f: Range, limits: Limits, memory: nat -> byte)
    requires WellFormed(server, msgs) && Agrees(server, msgs, st) && FragmentOf(msgs, i, f)
    ensures var hdr := HeaderOf(msgs[i], i).(fragOff := f.off, fragLen := f.len);
      var (o, s) := Handle(st, hdr, msgs[i].body[f.off..f.off + f.len], limits, memory);
      o != Overrun && Agrees(server, msgs, s)
  {
    var m := msgs[i];
    assert m in msgs;
    if 0 < f.len < |m.body| {
      PartKeeps(server, msgs, st, i, f, limits, memory);
    } else {
      assert m.body[f.off..f.off + f.len] == m.body;
      WholeKeeps(server, msgs, st, i);
    }
  }

  lemma {:induction false} PartKeeps(
    server: bool, msgs: seq<Message>, st: State, i: nat, f: Range, limits: Limits, memory: nat -> byte)
    requires Agrees(server, msgs, st) && FragmentOf(msgs, i, f) && 0 < f.len < |msgs[i].body|
    ensures var hdr := HeaderOf(msgs[i], i).(fragOff := f.off, fragLen := f.len);
      var (o, s) := Handle(st, hdr, msgs[i].body[f.off..f.off + f.len], limits, memory);
      o != Overrun && Agrees(server, msgs, s)
  {
    ReassembleKeeps(msgs, st, i, f, limits.maxLen, memory);
  }

  lemma {:induction false} ProcessKeeps(server: bool, msgs: seq<Message>, st: State, p: Packet, limits: Limits)
    requires WellFormed(server, msgs) && Agrees(server, msgs, st) && Honest(msgs, p)
    ensures Process(st, p, limits).0 != Overrun && Agrees(server, msgs, Process(st, p, limits).1)
  {
    var i: nat, f: Range :| CarriesFragment(msgs, i, f, p.raw);
    var m := msgs[i];
    assert m in msgs;
    var hdr, payload := HeaderOf(m, i).(fragOff := f.off, fragLen := f.len), m.body[f.off..f.off + f.len];
    HeaderRoundTrip(hdr, payload);
    assert p.raw == EncodeHeader(hdr) + payload;
    assert p.raw[HM_HEADER_LENGTH..] == payload;
    HandleKeeps(server, msgs, st, i, f, limits, p.memory);
  }

  /** A message that comes in one piece, handed up at once or put by. */
  lemma {:induction false} WholeKeeps(server: bool, msgs: seq<Message>, st: State, i: nat)
    requires WellFormed(server, msgs) && Agrees(server, msgs, st) && i < |msgs|
    ensures var hdr, body := HeaderOf(msgs[i], i), msgs[i].body;
      if i == st.readSeq then Inv(msgs, Deliver(st, hdr, Splice(Grow(st.initBuf, hdr.msgLen), 0, body)))
      else Inv(msgs, st.(buffered := Insert(st.buffered, Entry(hdr, body, None))))
  {
    var hdr, body := HeaderOf(msgs[i], i), msgs[i].body;
    if i == st.readSeq {
      var buf := Splice(Grow(st.initBuf, hdr.msgLen), 0, body);
      assert buf[..hdr.msgLen] == body;
      DeliverKeeps(server, msgs, st, buf);
    } else {
      InsertSorted(st.buffered, Entry(hdr, body, None));
    }
  }

  /** The reader agrees with the sender, and nothing outside its buffers was touched. */
  ghost predicate AgreesAfter(server: bool, msgs: seq<Message>, got: Got) {
    match got
    case Got(outcome, st, rest) => outcome != Overrun && Agrees(server, msgs, st)
  }

  lemma {:induction false} GetMessageKeeps(
    server: bool, msgs: seq<Message>, st: State, net: seq<Packet>, limits: Limits)
    requires WellFormed(server, msgs) && Agrees(server, msgs, st)
    requires forall p | p in net :: Honest(msgs, p)
    ensures AgreesAfter(server, msgs, GetMessageOf(st, net, limits))
    decreases |net|
  {
    var (o, s) := Retrieve(st, limits.max);
    assert AgreesAfter(server, msgs, Got(o, s, net)) by { RetrieveKeeps(server, msgs, st, limits.max); }
    if net != [] {
      var (o', s') := Process(s, net[0], limits);
      assert AgreesAfter(server, msgs, Got(o', s', net[1..])) by {
        assert net[0] in net;
        ProcessKeeps(server, msgs, s, net[0], limits);
      }
      GetMessageKeeps(server, msgs, s', net[1..], limits);
      ThreeWays(st, net, limits);
    } else {
      assert GetMessageOf(st, net, limits) == Got(if o != Retry then o else NeedMore, s, net);
    }
  }

  lemma {:induction false} ThreeWays(st: State, net: seq<Packet>, limits: Limits)
    requires net != []
    ensures var (o, s) := Retrieve(st, limits.max);
            var (o', s') := Process(s, net[0], limits);
            var got := GetMessageOf(st, net, limits);
            got == Got(o, s, net) || got == Got(o', s', net[1..]) || got == GetMessageOf(s', net[1..], limits)
  {
  }

  // ---- whole sessions -------------------------------------------------------------------------

  /** One call for a message, with what the network brings while it lasts and the limits in force; or the
      end of a handshake and the start of the next one on the same connection. */
  datatype Event = Ask(net: seq<Packet>, limits: Limits) | NewHandshake

  function After(st: State, e: Event): State {
    match e
    case Ask(net, limits) => GetMessageOf(st, net, limits).st
    case NewHandshake => Restart(st)
  }

  function Session(st: State, events: seq<Event>): State {
    if events == [] then st else After(Session(st, events[..|events| - 1]), events[|events| - 1])
  }

  /** How many new handshakes there were. */
  function Handshakes(events: seq<Event>): nat {
    if events == [] then 0
    else Handshakes(events[..|events| - 1]) + if events[|events| - 1].NewHandshake? then 1 else 0
  }

  /** The last call touched nothing outside the buffers of the queue. */
  predicate LastInBounds(st: State, events: seq<Event>) {
    events == [] || match events[|events| - 1]
      case NewHandshake => true
      case Ask(net, limits) => GetMessageOf(Session(st, events[..|events| - 1]), net, limits).outcome != Overrun
  }

  /** What is handed up and hashed of a handshake is a prefix of what its sender sends and hashes. */
  ghost predicate Faithful(msgs: seq<Message>, st: State) {
    && st.readSeq <= |msgs|
    && st.delivered == msgs[..st.readSeq]
    && st.transcript == TranscriptOf(msgs[..st.readSeq]) <= TranscriptOf(msgs)
  }

  /** The network brings records of the handshake that is going on. */
  ghost predicate HonestAt(msgss: seq<seq<Message>>, events: seq<Event>, k: nat)
    requires k < |events|
  {
    events[k].Ask? ==>
      var h := Handshakes(events[..k]);
      h < |msgss| && forall p | p in events[k].net :: Honest(msgss[h], p)
  }

  /** Nothing is queued when a new handshake starts. */
  predicate EmptyAt(st: State, events: seq<Event>, k: nat)
    requires k < |events|
  {
    events[k].NewHandshake? ==> Session(st, events[..k]).buffered == []
  }

  ghost predicate AllHonest(msgss: seq<seq<Message>>, events: seq<Event>) {
    forall k | 0 <= k < |events| :: HonestAt(msgss, events, k)
  }

  predicate AllEmpty(st: State, events: seq<Event>) {
    forall k | 0 <= k < |events| :: EmptyAt(st, events, k)
  }

  lemma {:induction false} PrefixIsHonest(msgss: seq<seq<Message>>, st: State, events: seq<Event>)
    requires events != []
    ensures AllHonest(msgss, events) ==> AllHonest(msgss, events[..|events| - 1])
    ensures AllEmpty(st, events) ==> AllEmpty(st, events[..|events| - 1])
  {
    var before := events[..|events| - 1];
    forall k | 0 <= k < |before|
      ensures HonestAt(msgss, events, k) ==> HonestAt(msgss, before, k)
      ensures EmptyAt(st, events, k) ==> EmptyAt(st, before, k)
    {
      assert before[..k] == events[..k];
    }
  }

  /** An empty queue is in agreement with any messages once the numbers start again. */
  lemma {:induction false} RestartAgrees(msgs: seq<Message>, st: State)
    requires st.buffered == []
    ensures Agrees(st.server, msgs, Restart(st))
  {
    assert msgs[..0] == [];
  }

  lemma {:induction false} SessionAgrees(server: bool, msgss: seq<seq<Message>>, st: State, events: seq<Event>)
    requires Handshakes(events) < |msgss| && forall msgs | msgs in msgss :: WellFormed(server, msgs)
    requires Agrees(server, msgss[0], st) && AllHonest(msgss, events) && AllEmpty(st, events)
    ensures Agrees(server, msgss[Handshakes(events)], Session(st, events)) && LastInBounds(st, events)
  {
    if events != [] {
      var n := |events| - 1;
      var before := events[..n];
      var s, h := Session(st, before), Handshakes(before);
      PrefixIsHonest(msgss, st, events);
      SessionAgrees(server, msgss, st, before);
      assert HonestAt(msgss, events, n) && EmptyAt(st, events, n);
      match events[n]
      case Ask(net, limits) => GetMessageKeeps(server, msgss[h], s, net, limits);
      case NewHandshake => RestartAgrees(msgss[h + 1], s);
    }
  }

  /** Transcript agreement, over any number of handshakes between which the queue is empty. Whatever the
      network loses, repeats, reorders or re-cuts, the reader has hashed a prefix of what the sender of
      the handshake hashes: each message once, in order, as if never cut. */
  lemma {:induction false} TranscriptAgreement(server: bool, msgss: seq<seq<Message>>, events: seq<Event>)
    requires Handshakes(events) < |msgss| && forall msgs | msgs in msgss :: WellFormed(server, msgs)
    requires AllHonest(msgss, events) && AllEmpty(Initial(server), events)
    ensures var msgs := msgss[Handshakes(events)];
            var s := Session(Initial(server), events);
            Faithful(msgs, s) && Agrees(server, msgs, s) && LastInBounds(Initial(server), events)
  {
    RestartAgrees(msgss[0], Initial(server));
    SessionAgrees(server, msgss, Initial(server), events);
    AgreesIsFaithful(server, msgss[Handshakes(events)], Session(Initial(server), events));
  }

  lemma {:induction false} AgreesIsFaithful(server: bool, msgs: seq<Message>, st: State)
    requires Agrees(server, msgs, st)
    ensures Faithful(msgs, st)
  {
    TranscriptPrefix(msgs, st.readSeq);
  }

  lemma {:induction false} TranscriptPrefix(msgs: seq<Message>, n: nat)
    requires n <= |msgs|
    ensures TranscriptOf(msgs[..n]) <= TranscriptOf(msgs)
    decreases |msgs|
  {
    if n == |msgs| {
      assert msgs[..n] == msgs;
    } else {
      assert msgs[..|msgs| - 1][..n] == msgs[..n];
      TranscriptPrefix(msgs[..|msgs| - 1], n);
    }
  }

  /** The hash of a sender that writes its messages one by one, each from its head. */
  lemma {:induction false} SenderHashes(msgs: seq<Message>, n: nat, call: Call, first: bool, s: Snapshot)
    requires n < |msgs| && call.h == HeaderOf(msgs[n], n) && call.body == msgs[n].body
    requires call.transcript == TranscriptOf(msgs[..n]) && !s.retransmitting
    requires call.Valid() && call.base == 0 && s.initNum == 0
    requires call.cuts == Cuts(|call.body|, 0, first, call.link, call.overhead, 0)
    requires call.SentAgrees(|call.cuts|, s) && call.HashAgrees(|call.cuts|, s)
    ensures s.transcript == TranscriptOf(msgs[..n + 1])
  {
    WholeMessageSent(call, first, s);
    assert msgs[..n + 1][..n] == msgs[..n];
  }

  // ---- the lengths for which agreement fails --------------------------------------------------

  /** The packet of one fragment of message 0. */
  predicate IsFragmentPacket(p: Packet, m: Message, f: Range) {
    f.off + f.len <= |m.body| && p.raw == Wire(HeaderOf(m, 0), m.body, 0, f)
  }

  function FragmentHeader(m: Message, f: Range): Header { HeaderOf(m, 0).(fragOff := f.off, fragLen := f.len) }

  /** A partial fragment of the awaited message 0 is reassembled. */
  lemma {:induction false} PartGoesToReassembly(st: State, p: Packet, m: Message, f: Range, limits: Limits)
    requires IsFragmentPacket(p, m, f) && 0 < f.len < |m.body| < 0x100_0000
    requires |m.body| <= limits.maxLen && st.readSeq == 0
    ensures Process(st, p, limits) ==
            Reassemble(st, FragmentHeader(m, f), m.body[f.off..f.off + f.len], limits.maxLen, p.memory)
  {
    var hdr, payload := FragmentHeader(m, f), m.body[f.off..f.off + f.len];
    HeaderRoundTrip(hdr, payload);
    assert p.raw == EncodeHeader(hdr) + payload;
    assert p.raw[HM_HEADER_LENGTH..] == payload;
  }

  function WithFragment(e: Entry, m: Message, f: Range): Entry
    requires f.off + f.len <= |m.body| && CanAdd(e, FragmentHeader(m, f))
  {
    AddFragment(e, FragmentHeader(m, f), m.body[f.off..f.off + f.len])
  }

  /** The next record is a fragment of message 0, for the only entry of the queue, or the first one. */
  predicate Absorbs(st: State, net: seq<Packet>, m: Message, f: Range, limits: Limits, e: Entry) {
    match m
    case Message(_, body) =>
      && net != [] && IsFragmentPacket(net[0], m, f) && 0 < f.len < |body| < 0x100_0000
      && |body| <= limits.maxLen && st.readSeq == 0
      && e.hdr == HeaderOf(m, 0) && CanAdd(e, FragmentHeader(m, f))
      && if st.buffered == [] then IsNewEntry(e, FragmentHeader(m, f), net[0].memory) else st.buffered == [e]
  }

  predicate IsNewEntry(e: Entry, hdr: Header, memory: nat -> byte) { e == NewEntry(hdr, memory) }

  lemma {:induction false} AbsorbedByRecord(st: State, p: Packet, m: Message, f: Range, limits: Limits, e: Entry)
    requires Absorbs(st, [p], m, f, limits, e)
    ensures f.off + f.len <= |m.body| && CanAdd(e, FragmentHeader(m, f))
    ensures Process(st, p, limits) == (Retry, st.(buffered := [WithFragment(e, m, f)]))
  {
    PartGoesToReassembly(st, p, m, f, limits);
    IntoOnlyEntry(st, FragmentHeader(m, f), m.body[f.off..f.off + f.len], limits.maxLen, p.memory, e);
  }

  lemma {:induction false} IntoOnlyEntry(
    st: State, hdr: Header, payload: seq<byte>, maxLen: nat, memory: nat -> byte, e: Entry)
    requires |payload| == hdr.fragLen && Fits(hdr, maxLen) && CanAdd(e, hdr) && e.hdr.seqNo == hdr.seqNo
    requires if st.buffered == [] then IsNewEntry(e, hdr, memory) else st.buffered == [e]
    ensures Reassemble(st, hdr, payload, maxLen, memory)
         == (Retry, st.(buffered := [AddFragment(e, hdr, payload)]))
  {
    var e' := AddFragment(e, hdr, payload);
    if st.buffered == [] {
      assert Insert([], e') == [e'];
    } else {
      assert Find([e], hdr.seqNo) == 0 && [e][0 := e'] == [e'];
    }
  }

  /** One turn of the loop that reassembles a fragment. */
  lemma {:induction false} Absorbed(st: State, net: seq<Packet>, m: Message, f: Range, limits: Limits, e: Entry)
    requires Absorbs(st, net, m, f, limits, e)
    ensures f.off + f.len <= |m.body| && CanAdd(e, FragmentHeader(m, f))
    ensures GetMessageOf(st, net, limits)
         == GetMessageOf(st.(buffered := [WithFragment(e, m, f)]), net[1..], limits)
  {
    AbsorbedByRecord(st, net[0], m, f, limits, e);
    assert Retrieve(st, limits.max) == (Retry, st);
  }

  /** When a fragment makes the only entry of the queue pass the test, the message is handed up. */
  lemma {:induction false} PassingEntryIsHandedUp(st: State, e: Entry, m: Message, net: seq<Packet>, limits: Limits)
    requires st.readSeq == 0 && st.buffered == [e] && e.reassembly == None && e.hdr == HeaderOf(m, 0)
    requires |e.fragment| == |m.body| <= limits.max
    ensures var got := GetMessageOf(st, net, limits);
            got.outcome == Delivered && got.st.delivered == st.delivered + [Message(m.mtype, e.fragment)]
  {
    var buf := Splice(Grow(st.initBuf, e.hdr.msgLen), e.hdr.fragOff, e.fragment);
    assert buf[..e.hdr.msgLen] == e.fragment;
  }

  /** Two fragments that never carry the last eight bytes of a message of a bad length. */
  function ShortFragments(n: nat): (r: seq<Range>)
    requires n % 8 == 0 && n >= 16
    ensures Within(n, r) && forall i | 0 <= i < |r| :: r[i].len < n
  {
    if n == 16 then [Range(0, 8)] else [Range(0, n - 8), Range(n - 16, 8)]
  }

  lemma {:induction false} ShortFragmentsPass(n: nat)
    requires n % 8 == 0 && n >= 16
    ensures IsComplete(END_VALUES, MaskAfter(END_VALUES, n, ShortFragments(n)), n)
    ensures n > 16 ==> !IsComplete(END_VALUES, MaskAfter(END_VALUES, n, ShortFragments(n)[..1]), n)
    ensures !Received(ShortFragments(n), n - 1)
  {
    ShortFragmentsRecord(n);
    CompleteAtByteBoundary(n, ShortFragments(n));
    if n > 16 {
      FirstIsNotEnough(n);
    }
  }

  lemma {:induction false} FirstIsNotEnough(n: nat)
    requires n % 8 == 0 && n > 16
    ensures !IsComplete(END_VALUES, MaskAfter(END_VALUES, n, ShortFragments(n)[..1]), n)
  {
    var r := ShortFragments(n)[..1];
    assert r == [Range(0, n - 8)];
    CompleteAtByteBoundary(n, r);
    assert !Recorded(END_VALUES, r, n - 9);
  }

  lemma {:induction false} ShortFragmentsRecord(n: nat)
    requires n % 8 == 0 && n >= 16
    ensures forall i: nat | i < n :: Recorded(END_VALUES, ShortFragments(n), i) <==> i < n - 8
  {
    var r := ShortFragments(n);
    forall i: nat | i < n
      ensures Recorded(END_VALUES, r, i) <==> i < n - 8
    {
      if i < n - 8 {
        if n == 16 || i < n - 16 {
          assert r[0] in r && r[0].Records(END_VALUES, i);
        } else {
          assert r[1] in r && r[1].Records(END_VALUES, i);
        }
      }
    }
  }

  ghost predicate TailFromMemory(e: Entry, n: nat, memory: nat -> byte) {
    |e.fragment| == n && n >= 8 && forall i | n - 8 <= i < n :: e.fragment[i] == memory(i)
  }

  /** The entry after the first of the short fragments. */
  lemma {:induction false} FirstShort(m: Message, memory: nat -> byte)
    requires |m.body| % 8 == 0 && 16 <= |m.body|
    ensures var n, f := |m.body|, ShortFragments(|m.body|)[0];
            var e := NewEntry(FragmentHeader(m, f), memory);
            && CanAdd(e, FragmentHeader(m, f))
            && TailFromMemory(WithFragment(e, m, f), n, memory)
            && (n == 16 ==> WithFragment(e, m, f).reassembly == None)
            && (n > 16 ==> WithFragment(e, m, f).reassembly == Some(MaskAfter(END_VALUES, n, [f])))
  {
    var n, r := |m.body|, ShortFragments(|m.body|);
    var f := r[0];
    var e := NewEntry(FragmentHeader(m, f), memory);
    NewMask(FragmentHeader(m, f), memory, []);
    assert [] + [f] == [f];
    AddedMask(e, FragmentHeader(m, f), m.body[f.off..f.off + f.len], [], [f]);
    FirstPassesIff(n, [f]);
  }

  lemma {:induction false} FirstPassesIff(n: nat, first: seq<Range>)
    requires n % 8 == 0 && 16 <= n && first == [ShortFragments(n)[0]]
    ensures Within(n, first) && (IsComplete(END_VALUES, MaskAfter(END_VALUES, n, first), n) <==> n == 16)
  {
    ShortFragmentsPass(n);
    assert ShortFragments(n)[..1] == first;
    assert n == 16 ==> ShortFragments(n) == first;
  }

  /** ... and after the second. */
  lemma {:induction false} SecondShort(m: Message, e: Entry, memory: nat -> byte)
    requires |m.body| % 8 == 0 && 16 < |m.body| && e.hdr == HeaderOf(m, 0) && TailFromMemory(e, |m.body|, memory)
    requires e.reassembly == Some(MaskAfter(END_VALUES, |m.body|, [ShortFragments(|m.body|)[0]]))
    ensures var n, f := |m.body|, ShortFragments(|m.body|)[1];
            && CanAdd(e, FragmentHeader(m, f))
            && TailFromMemory(WithFragment(e, m, f), n, memory)
            && WithFragment(e, m, f).reassembly == None
  {
    var n, r := |m.body|, ShortFragments(|m.body|);
    ShortFragmentsPass(n);
    assert r == [r[0]] + [r[1]];
    AddedMask(e, FragmentHeader(m, r[1]), m.body[r[1].off..r[1].off + r[1].len], [r[0]], r);
  }

  /** A message of `n` bytes was handed up whose last eight bytes are what memory held. */
  ghost predicate HandsUpGarbage(st: State, got: Got, n: nat, memory: nat -> byte)
    requires n >= 8
  {
    && got.outcome == Delivered
    && |got.st.delivered| == |st.delivered| + 1
    && |got.st.delivered[|st.delivered|].body| == n
    && forall i | n - 8 <= i < n :: got.st.delivered[|st.delivered|].body[i] == memory(i)
  }

  lemma {:induction false} GarbageIsHandedUp(
    st: State, e: Entry, m: Message, net: seq<Packet>, limits: Limits, memory: nat -> byte)
    requires st.readSeq == 0 && st.buffered == [e] && PassesWithTail(e, m, limits, memory)
    ensures HandsUpGarbage(st, GetMessageOf(st, net, limits), |m.body|, memory)
  {
    PassingEntryIsHandedUp(st, e, m, net, limits);
  }

  /** The second of the short fragments comes to the entry that the first one has left. */
  predicate SecondComes(m: Message, st: State, e: Entry, net: seq<Packet>, limits: Limits) {
    match m
    case Message(_, body) =>
      && |body| % 8 == 0 && 16 < |body| < 0x100_0000 && |body| <= limits.max && |body| <= limits.maxLen
      && st.readSeq == 0 && st.buffered == [e] && e.hdr == HeaderOf(m, 0)
      && e.reassembly == Some(MaskAfter(END_VALUES, |body|, [ShortFragments(|body|)[0]]))
      && |net| == 1 && IsFragmentPacket(net[0], m, ShortFragments(|body|)[1])
  }

  lemma {:induction false} SecondAbsorbs(
    m: Message, st: State, e: Entry, net: seq<Packet>, limits: Limits, memory: nat -> byte)
    requires SecondComes(m, st, e, net, limits) && TailFromMemory(e, |m.body|, memory)
    ensures var f := ShortFragments(|m.body|)[1];
      && Absorbs(st, net, m, f, limits, e) && CanAdd(e, FragmentHeader(m, f))
      && PassesWithTail(WithFragment(e, m, f), m, limits, memory)
  {
    SecondShort(m, e, memory);
  }

  /** A complete entry for message 0 that ends with what memory held. */
  ghost predicate PassesWithTail(e: Entry, m: Message, limits: Limits, memory: nat -> byte) {
    match e
    case Entry(hdr, _, reassembly) =>
      && reassembly == None && hdr == HeaderOf(m, 0) && 8 <= |m.body| <= limits.max
      && TailFromMemory(e, |m.body|, memory)
  }

  lemma {:induction false} SecondShortPasses(
    m: Message, st: State, e: Entry, net: seq<Packet>, limits: Limits, memory: nat -> byte)
    requires SecondComes(m, st, e, net, limits) && TailFromMemory(e, |m.body|, memory)
    ensures HandsUpGarbage(st, GetMessageOf(st, net, limits), |m.body|, memory)
  {
    var f := ShortFragments(|m.body|)[1];
    SecondAbsorbs(m, st, e, net, limits, memory);
    var e' := WithFragment(e, m, f);
    Absorbed(st, net, m, f, limits, e);
    GarbageIsHandedUp(st.(buffered := [e']), e', m, net[1..], limits, memory);
  }

  /** The short fragments of message 0 come to an empty queue. */
  predicate ShortOnesCome(m: Message, st: State, net: seq<Packet>, limits: Limits) {
    match m
    case Message(_, body) =>
      && |body| % 8 == 0 && 16 <= |body| < 0x100_0000 && |body| <= limits.max && |body| <= limits.maxLen
      && st.readSeq == 0 && st.buffered == []
      && var r := ShortFragments(|body|);
         |net| == |r| && forall i | 0 <= i < |r| :: IsFragmentPacket(net[i], m, r[i])
  }

  lemma {:induction false} FirstAbsorbs(m: Message, st: State, net: seq<Packet>, limits: Limits)
    requires ShortOnesCome(m, st, net, limits)
    ensures var f := ShortFragments(|m.body|)[0];
      var e0 := NewEntry(FragmentHeader(m, f), net[0].memory);
      && Absorbs(st, net, m, f, limits, e0) && CanAdd(e0, FragmentHeader(m, f))
      && var e := WithFragment(e0, m, f);
         if |m.body| == 16 then PassesWithTail(e, m, limits, net[0].memory)
         else SecondComes(m, st.(buffered := [e]), e, net[1..], limits)
              && TailFromMemory(e, |m.body|, net[0].memory)
  {
    var r := ShortFragments(|m.body|);
    assert IsFragmentPacket(net[0], m, r[0]);
    FirstShort(m, net[0].memory);
    if |m.body| > 16 {
      assert net[1..][0] == net[1] && IsFragmentPacket(net[1], m, r[1]);
    }
  }

  /** For every length on a byte boundary but 8 agreement fails: fragments of the message that leave out
      its last eight bytes make the reader hash and hand up whatever memory held in their place. */
  lemma {:induction false} AgreementFailsOnByteBoundaries(m: Message, st: State, net: seq<Packet>, limits: Limits)
    requires ShortOnesCome(m, st, net, limits)
    ensures HandsUpGarbage(st, GetMessageOf(st, net, limits), |m.body|, net[0].memory)
  {
    var f := ShortFragments(|m.body|)[0];
    var e0 := NewEntry(FragmentHeader(m, f), net[0].memory);
    FirstAbsorbs(m, st, net, limits);
    Absorbed(st, net, m, f, limits, e0);
    var e := WithFragment(e0, m, f);
    if |m.body| == 16 {
      GarbageIsHandedUp(st.(buffered := [e]), e, m, net[1..], limits, net[0].memory);
    } else {
      SecondShortPasses(m, st.(buffered := [e]), e, net[1..], limits, net[0].memory);
    }
  }
}
