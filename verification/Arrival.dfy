/**
 What becomes of the records that reach the DTLS reader (d1_both.c): which are put by, which are passed over,
 and that nothing that is put by is lost. Messages of which every fragment comes, in whatever order, are
 handed up.
 */
module Arrival {
  import opened Bits
  import opened Options
  import opened Reassembly
  import opened Fragmentation
  import opened Transcript

  // ---- one record that is not part of a message -----------------------------------------------

  /** A record that holds what its header says, and not a proper part of a message. */
  predicate HoldsAll(raw: seq<byte>) {
    && |raw| >= HM_HEADER_LENGTH
    && var h := DecodeHeader(raw);
       |raw| == HM_HEADER_LENGTH + h.fragLen && (h.fragLen == 0 || h.fragLen >= h.msgLen)
  }

  predicate HasEntry(q: seq<Entry>, i: nat) { exists e | e in q :: e.hdr.seqNo == i }

  /** The numbers that are put by, and the Finished that is taken for a stale one. */
  predicate Expected(st: State, h: Header) {
    st.readSeq + 1 <= h.seqNo <= st.readSeq + 10 && !(st.readSeq == 0 && h.mtype == FINISHED)
  }

  lemma {:induction false} InsertAdds(q: seq<Entry>, e: Entry)
    requires Sorted(q)
    ensures var r := Insert(q, e);
      if HasEntry(q, e.hdr.seqNo) then r == q else |r| == |q| + 1 && forall x :: x in r <==> x in q || x == e
  {
    if q != [] && q[0].hdr.seqNo < e.hdr.seqNo {
      InsertAdds(q[1..], e);
      assert q == [q[0]] + q[1..];
    } else if q != [] && q[0].hdr.seqNo > e.hdr.seqNo {
      assert forall x | x in q :: x.hdr.seqNo >= q[0].hdr.seqNo;
    } else if q != [] {
      assert q[0] in q;
    }
  }

  /** A record that comes out of turn is put by exactly when its number is one of the next ten, no entry has
      it, its bytes lie in its message, and it is not the Finished of a peer that has not begun. Otherwise
      nothing changes. */
  lemma {:induction false} PutByIff(st: State, p: Packet, limits: Limits)
    requires HoldsAll(p.raw) && DecodeHeader(p.raw).seqNo != st.readSeq && Sorted(st.buffered)
    ensures var h, body := DecodeHeader(p.raw), p.raw[HM_HEADER_LENGTH..];
      var fits := h.fragOff + h.fragLen <= h.msgLen;
      var putBy := Expected(st, h) && !HasEntry(st.buffered, h.seqNo) && fits;
      var (o, s) := Process(st, p, limits);
      && o == (if fits then Retry else Failed)
      && s == st.(buffered := s.buffered) && Sorted(s.buffered)
      && |s.buffered| == |st.buffered| + (if putBy then 1 else 0)
      && (!putBy ==> s == st)
      && forall e :: e in s.buffered <==> e in st.buffered || (putBy && e == Entry(h, body, None))
  {
    var h, body := DecodeHeader(p.raw), p.raw[HM_HEADER_LENGTH..];
    InsertAdds(st.buffered, Entry(h, body, None));
    InsertSorted(st.buffered, Entry(h, body, None));
    assert HasEntry(st.buffered, h.seqNo) <==> Find(st.buffered, h.seqNo) < |st.buffered| by {
      FindIff(st.buffered, h.seqNo);
    }
  }

  lemma {:induction false} FindIff(q: seq<Entry>, i: nat)
    ensures Find(q, i) < |q| <==> HasEntry(q, i)
  {
    var k := Find(q, i);
    if k < |q| {
      assert q[k] in q;
    }
  }

  /** Neither a message nor a part of one changes anything where its number is not expected. */
  lemma {:induction false} UnexpectedIsDropped(st: State, p: Packet, limits: Limits)
    requires |p.raw| >= HM_HEADER_LENGTH && DecodeHeader(p.raw).seqNo != st.readSeq
    requires !Expected(st, DecodeHeader(p.raw))
    ensures Process(st, p, limits).1 == st && Process(st, p, limits).0 in {Retry, Failed}
  {
  }

  // ---- the awaited record ---------------------------------------------------------------------

  predicate IsHelloRequest(st: State, h: Header) { !st.server && h.mtype == HELLO_REQUEST }

  /** A client passes over a HelloRequest that is empty, and fails at any other. */
  lemma {:induction false} HelloRequests(st: State, p: Packet, net: seq<Packet>, limits: Limits)
    requires HoldsAll(p.raw) && DecodeHeader(p.raw).seqNo == st.readSeq && IsHelloRequest(st, DecodeHeader(p.raw))
    requires Retrieve(st, limits.max).0 == Retry
    ensures GetMessageOf(st, [p] + net, limits)
         == if DecodeHeader(p.raw).msgLen == 0 then GetMessageOf(st, net, limits) else Got(Failed, st, net)
  {
    assert ([p] + net)[1..] == net;
  }

  /** A message with the header `h` whose bytes from the offset are `data` is handed up and hashed as if it had
      come in one piece. Where there is no byte of it, what the buffer held is handed up. */
  ghost predicate HandsUp(st: State, s: State, h: Header, data: seq<byte>) {
    && s.readSeq == (st.readSeq + 1) % 0x1_0000 && s.server == st.server
    && |s.delivered| == |st.delivered| + 1 && s.delivered[..|st.delivered|] == st.delivered
    && var m := s.delivered[|st.delivered|];
       && m.mtype == h.mtype && |m.body| == h.msgLen
       && s.transcript == st.transcript + EncodeHeader(Header(h.mtype, h.msgLen, h.seqNo, 0, h.msgLen)) + m.body
       && forall k | 0 <= k < h.msgLen ::
            m.body[k] == if h.fragOff <= k < h.fragOff + |data| then data[k - h.fragOff]
                         else if k < |st.initBuf| then st.initBuf[k] else 0
  }

  /** Any other awaited record that is no part is handed up exactly when its bytes lie in its message and
      within the limit. */
  lemma {:induction false} HandedUpIff(st: State, p: Packet, limits: Limits)
    requires HoldsAll(p.raw) && DecodeHeader(p.raw).seqNo == st.readSeq && !IsHelloRequest(st, DecodeHeader(p.raw))
    ensures var h, data := DecodeHeader(p.raw), p.raw[HM_HEADER_LENGTH..];
      var end := h.fragOff + h.fragLen;
      var (o, s) := Process(st, p, limits);
      if end > h.msgLen || end > limits.max then o == Failed && s == st
      else o == Delivered && s.buffered == st.buffered && HandsUp(st, s, h, data)
  {
  }

  /** A buffered message that is awaited and complete leaves the queue, and is handed up exactly when it is
      within the limit. No other entry leaves it. */
  lemma {:induction false} HeadLeavesIff(st: State, max: nat)
    requires forall e | e in st.buffered && e.reassembly == None ::
               |e.fragment| == e.hdr.fragLen && e.hdr.fragOff + e.hdr.fragLen <= e.hdr.msgLen
    ensures var (o, s) := Retrieve(st, max);
      var q := st.buffered;
      if q == [] || q[0].reassembly != None || q[0].hdr.seqNo != st.readSeq then o == Retry && s == st
      else if q[0].hdr.fragOff + q[0].hdr.fragLen > max then o == Failed && s == st.(buffered := q[1..])
      else o == Delivered && s.buffered == q[1..] && HandsUp(st, s, q[0].hdr, q[0].fragment)
  {
    var q := st.buffered;
    assert q != [] ==> q[0] in q;
  }

  /** A part of a message that is awaited or expected is refused exactly when its bytes do not lie in the
      message or the longest message allowed does not hold them; nothing changes then. Otherwise the message
      has an entry afterwards, and no other number has gained or lost one. */
  lemma {:induction false} PartRefusedIff(st: State, p: Packet, limits: Limits)
    requires |p.raw| >= HM_HEADER_LENGTH && |p.raw| == HM_HEADER_LENGTH + DecodeHeader(p.raw).fragLen
    requires !HoldsAll(p.raw) && Sorted(st.buffered)
    requires DecodeHeader(p.raw).seqNo == st.readSeq || Expected(st, DecodeHeader(p.raw))
    ensures var h := DecodeHeader(p.raw);
      var (o, s) := Process(st, p, limits);
      var end := h.fragOff + h.fragLen;
      && (o == Failed <==> end > h.msgLen || end > limits.maxLen)
      && (o == Failed || o == Overrun ==> s == st)
      && (o != Failed && o != Overrun ==>
            o == Retry && s == st.(buffered := s.buffered)
            && forall i: nat :: HasEntry(s.buffered, i) <==> HasEntry(st.buffered, i) || i == h.seqNo)
  {
    var h, q := DecodeHeader(p.raw), st.buffered;
    var s := Process(st, p, limits).1;
    var k := Find(q, h.seqNo);
    FindIff(q, h.seqNo);
    forall e: Entry | e.hdr.seqNo == h.seqNo && !HasEntry(q, h.seqNo) && s.buffered == Insert(q, e), i: nat
      ensures HasEntry(s.buffered, i) <==> HasEntry(q, i) || i == h.seqNo
    {
      InsertAdds(q, e);
      NumbersWith(q, s.buffered, e, i);
    }
    forall e: Entry | k < |q| && e.hdr == q[k].hdr && s.buffered == q[k := e], i: nat
      ensures HasEntry(s.buffered, i) <==> HasEntry(q, i) || i == h.seqNo
    {
      NumbersKept(q, k, e, i);
    }
  }

  lemma {:induction false} NumbersWith(q: seq<Entry>, r: seq<Entry>, e: Entry, i: nat)
    requires forall x :: x in r <==> x in q || x == e
    ensures HasEntry(r, i) <==> HasEntry(q, i) || i == e.hdr.seqNo
  {
    if i == e.hdr.seqNo {
      assert e in r;
    }
  }

  lemma {:induction false} NumbersKept(q: seq<Entry>, k: nat, e: Entry, i: nat)
    requires k < |q| && e.hdr == q[k].hdr
    ensures HasEntry(q[k := e], i) <==> HasEntry(q, i)
    ensures HasEntry(q, e.hdr.seqNo)
  {
    var r := q[k := e];
    assert q[k] in q && r[k] in r;
    if HasEntry(q, i) {
      var x :| x in q && x.hdr.seqNo == i;
      var j :| 0 <= j < |q| && q[j] == x;
      assert r[j] in r;
    }
    if HasEntry(r, i) {
      var x :| x in r && x.hdr.seqNo == i;
      var j :| 0 <= j < |r| && r[j] == x;
      assert q[j] in q;
    }
  }

  // ---- asking until there is no more ----------------------------------------------------------

  /** Records to come and entries that wait; a record may become an entry. */
  function Work(net: seq<Packet>, st: State): nat { 2 * |net| + |st.buffered| }

  lemma {:induction false} InsertGrows(q: seq<Entry>, e: Entry)
    ensures |Insert(q, e)| <= |q| + 1
  {
    if q != [] {
      InsertGrows(q[1..], e);
    }
  }

  lemma {:induction false} ProcessGrows(st: State, p: Packet, limits: Limits)
    ensures |Process(st, p, limits).1.buffered| <= |st.buffered| + 1
  {
    forall e ensures |Insert(st.buffered, e)| <= |st.buffered| + 1 { InsertGrows(st.buffered, e); }
  }

  lemma {:induction false} GetMessageWorks(st: State, net: seq<Packet>, limits: Limits)
    ensures var g := GetMessageOf(st, net, limits);
      Work(g.rest, g.st) <= Work(net, st) && (g.outcome == Delivered ==> Work(g.rest, g.st) < Work(net, st))
    decreases |net|
  {
    var (o, s) := Retrieve(st, limits.max);
    if o == Retry && net != [] {
      ProcessGrows(s, net[0], limits);
      var (o', s') := Process(s, net[0], limits);
      if o' == Retry {
        GetMessageWorks(s', net[1..], limits);
      }
    }
  }

  /** The caller asks for messages until a call hands up none. */
  function AskAll(st: State, net: seq<Packet>, limits: Limits): (Outcome, State)
    decreases Work(net, st)
  {
    GetMessageWorks(st, net, limits);
    var g := GetMessageOf(st, net, limits);
    if g.outcome == Delivered then AskAll(g.st, g.rest, limits) else (g.outcome, g.st)
  }

  /** Asking goes on where a buffered message or a record has been dealt with. */
  lemma {:induction false} AskAllStep(st: State, net: seq<Packet>, limits: Limits)
    ensures var (o, s) := Retrieve(st, limits.max);
      && (o == Delivered ==> AskAll(st, net, limits) == AskAll(s, net, limits))
      && (o == Retry && net == [] ==> AskAll(st, net, limits) == (NeedMore, st))
      && (o == Retry && net != [] ==>
            var (o', s') := Process(s, net[0], limits);
            o' == Delivered || o' == Retry ==> AskAll(st, net, limits) == AskAll(s', net[1..], limits))
  {
  }

  // ---- what is to come ------------------------------------------------------------------------

  /** The fragments of a message, possibly of several ways to cut it: all of it, or proper parts that record
      every byte of a message of a length that the completeness test can pass. */
  ghost predicate Passable(body: seq<byte>, cuts: seq<Range>) {
    IsWhole(body, cuts) || (|body| % 8 != 0 && AreParts(body, cuts) && RecordAll(body, cuts))
  }

  predicate IsWhole(body: seq<byte>, cuts: seq<Range>) { cuts == [Range(0, |body|)] }

  predicate AreParts(body: seq<byte>, cuts: seq<Range>) {
    forall f | f in cuts :: 0 < f.len < |body| && f.off + f.len <= |body|
  }

  ghost predicate RecordAll(body: seq<byte>, cuts: seq<Range>) {
    forall i: nat | i < |body| :: Recorded(END_VALUES, cuts, i)
  }

  /** A fragment of message `i`. */
  datatype Piece = Piece(i: nat, f: Range)

  /** A sender and a reader that get on: the reader's limits hold its messages, and no Finished is among the
      messages up to `top` that can come before the first. */
  datatype Plan = Plan(msgs: seq<Message>, cuts: seq<seq<Range>>, top: nat, limits: Limits) {
    ghost predicate Valid(server: bool) {
      && WellFormed(server, msgs) && |cuts| == |msgs| && top < |msgs|
      && forall i: nat | i < |msgs| ::
           Passable(msgs[i].body, cuts[i]) && |msgs[i].body| <= limits.max && |msgs[i].body| <= limits.maxLen
    }

    predicate Whole(i: nat)
      requires |cuts| == |msgs| && i < |msgs|
    {
      IsWhole(msgs[i].body, cuts[i])
    }

    predicate Has(p: Piece)
      requires |cuts| == |msgs|
    {
      && p.i < |msgs| && p.f in cuts[p.i] && p.f.off + p.f.len <= |msgs[p.i].body|
    }

    /** The record carries the piece. */
    predicate Carries(p: Piece, raw: seq<byte>)
      requires |cuts| == |msgs|
    {
      Has(p) && raw == Wire(HeaderOf(msgs[p.i], p.i), msgs[p.i].body, 0, p.f)
    }

    ghost predicate ToCome(i: nat, pieces: seq<Piece>)
      requires |cuts| == |msgs| && i < |msgs|
    {
      forall f | f in cuts[i] :: Piece(i, f) in pieces
    }

    /** Nothing that the queue lacks of a message is lost: it is yet to come. */
    ghost predicate Owed(e: Entry, frags: seq<Range>, pieces: seq<Piece>)
      requires |cuts| == |msgs| && e.hdr.seqNo < |msgs|
    {
      var n := |msgs[e.hdr.seqNo].body|;
      && 0 < n && Within(n, frags)
      && e.reassembly == Some(MaskAfter(END_VALUES, n, frags))
      && !IsComplete(END_VALUES, MaskAfter(END_VALUES, n, frags), n)
      && forall f | f in cuts[e.hdr.seqNo] :: f in frags || Piece(e.hdr.seqNo, f) in pieces
    }

    ghost predicate Kept(e: Entry, from: nat, pieces: seq<Piece>)
      requires |cuts| == |msgs|
    {
      && from <= e.hdr.seqNo < |msgs|
      && (e.reassembly.Some? ==>
            !Whole(e.hdr.seqNo) && (e.hdr.seqNo <= top ==> exists frags :: Owed(e, frags, pieces)))
    }

    /** Every message from the awaited one to the last that is wanted is in the queue, as far as it has come,
        or is yet to come. */
    ghost predicate Waits(q: seq<Entry>, from: nat, pieces: seq<Piece>)
      requires |cuts| == |msgs| && top < |msgs|
    {
      && (forall e | e in q :: Kept(e, from, pieces))
      && (forall i: nat | from <= i <= top :: HasEntry(q, i) || ToCome(i, pieces))
    }
  }

  // ---- the queue, change by change ------------------------------------------------------------

  /** A piece of another message has no part in what an entry is owed. */
  lemma {:induction false} KeptWithout(plan: Plan, e: Entry, from: nat, p: Piece, rest: seq<Piece>)
    requires |plan.cuts| == |plan.msgs| && plan.Kept(e, from, [p] + rest)
    requires p.i != e.hdr.seqNo || p.i > plan.top || e.reassembly.None?
    ensures plan.Kept(e, from, rest)
  {
    if e.reassembly.Some? && e.hdr.seqNo <= plan.top {
      var frags :| plan.Owed(e, frags, [p] + rest);
      assert plan.Owed(e, frags, rest);
    }
  }

  lemma {:induction false} ToComeWithout(plan: Plan, i: nat, p: Piece, rest: seq<Piece>)
    requires |plan.cuts| == |plan.msgs| && i < |plan.msgs| && plan.ToCome(i, [p] + rest) && p.i != i
    ensures plan.ToCome(i, rest)
  {
  }

  /** A piece that is not wanted, or whose message is complete in the queue. */
  lemma {:induction false} PieceDropped(plan: Plan, q: seq<Entry>, from: nat, p: Piece, rest: seq<Piece>)
    requires |plan.cuts| == |plan.msgs| && plan.top < |plan.msgs| && plan.Waits(q, from, [p] + rest)
    requires p.i < from || p.i > plan.top || HasEntry(q, p.i)
    requires forall e | e in q && e.hdr.seqNo == p.i <= plan.top :: e.reassembly.None?
    ensures plan.Waits(q, from, rest)
  {
    forall e | e in q ensures plan.Kept(e, from, rest) { KeptWithout(plan, e, from, p, rest); }
    forall i: nat | from <= i <= plan.top ensures HasEntry(q, i) || plan.ToCome(i, rest) {
      if !HasEntry(q, i) {
        ToComeWithout(plan, i, p, rest);
      }
    }
  }

  /** An entry put in for a message that had none. */
  lemma {:induction false} EntryPutIn(plan: Plan, q: seq<Entry>, from: nat, p: Piece, rest: seq<Piece>, e: Entry)
    requires |plan.cuts| == |plan.msgs| && plan.top < |plan.msgs| && plan.Waits(q, from, [p] + rest) && Sorted(q)
    requires e.hdr.seqNo == p.i && !HasEntry(q, p.i) && plan.Kept(e, from, rest)
    ensures plan.Waits(Insert(q, e), from, rest)
  {
    InsertAdds(q, e);
    var r := Insert(q, e);
    forall x | x in r ensures plan.Kept(x, from, rest) {
      if x != e {
        KeptWithout(plan, x, from, p, rest);
      }
    }
    forall i: nat | from <= i <= plan.top ensures HasEntry(r, i) || plan.ToCome(i, rest) {
      if i == p.i {
        assert e in r;
      } else if HasEntry(q, i) {
        var x :| x in q && x.hdr.seqNo == i;
        assert x in r;
      } else {
        ToComeWithout(plan, i, p, rest);
      }
    }
  }

  /** An entry that has got one more fragment. */
  lemma {:induction false} EntryReplaced(
    plan: Plan, q: seq<Entry>, from: nat, p: Piece, rest: seq<Piece>, k: nat, e: Entry)
    requires |plan.cuts| == |plan.msgs| && plan.top < |plan.msgs| && plan.Waits(q, from, [p] + rest) && Sorted(q)
    requires k < |q| && q[k].hdr == e.hdr && e.hdr.seqNo == p.i && plan.Kept(e, from, rest)
    ensures plan.Waits(q[k := e], from, rest)
  {
    var r := q[k := e];
    forall x | x in r ensures plan.Kept(x, from, rest) {
      var j :| 0 <= j < |r| && r[j] == x;
      if j != k {
        assert q[j] in q && q[j].hdr.seqNo != p.i;
        KeptWithout(plan, x, from, p, rest);
      }
    }
    forall i: nat | from <= i <= plan.top ensures HasEntry(r, i) || plan.ToCome(i, rest) {
      if HasEntry(q, i) {
        var x :| x in q && x.hdr.seqNo == i;
        var j :| 0 <= j < |q| && q[j] == x;
        assert r[j] in r;
      } else {
        assert r[k] in r;
        assert q[k] in q;
        ToComeWithout(plan, i, p, rest);
      }
    }
  }

  /** The awaited entry leaves the queue. */
  lemma {:induction false} EntryTaken(plan: Plan, q: seq<Entry>, from: nat, pieces: seq<Piece>)
    requires |plan.cuts| == |plan.msgs| && plan.top < |plan.msgs| && plan.Waits(q, from, pieces) && Sorted(q)
    requires q != [] && q[0].hdr.seqNo == from
    ensures plan.Waits(q[1..], from + 1, pieces) && Sorted(q[1..])
  {
    var r := q[1..];
    assert q == [q[0]] + r;
    forall x | x in r ensures plan.Kept(x, from + 1, pieces) {
      assert plan.Kept(x, from, pieces) && x.hdr.seqNo > from;
    }
    forall i: nat | from + 1 <= i <= plan.top ensures HasEntry(r, i) || plan.ToCome(i, pieces) {
      if HasEntry(q, i) {
        var x :| x in q && x.hdr.seqNo == i;
        assert x in r;
      }
    }
  }

  /** The awaited message is handed up without having been in the queue. */
  lemma {:induction false} PieceHandedUp(plan: Plan, q: seq<Entry>, from: nat, p: Piece, rest: seq<Piece>)
    requires |plan.cuts| == |plan.msgs| && plan.top < |plan.msgs| && plan.Waits(q, from, [p] + rest)
    requires p.i == from && !HasEntry(q, from)
    ensures plan.Waits(q, from + 1, rest)
  {
    forall e | e in q ensures plan.Kept(e, from + 1, rest) {
      assert e.hdr.seqNo != from;
      KeptWithout(plan, e, from, p, rest);
    }
    forall i: nat | from + 1 <= i <= plan.top ensures HasEntry(q, i) || plan.ToCome(i, rest) {
      if !HasEntry(q, i) {
        ToComeWithout(plan, i, p, rest);
      }
    }
  }

  // ---- one record -----------------------------------------------------------------------------

  function PieceHeader(plan: Plan, p: Piece): Header
    requires p.i < |plan.msgs|
  {
    HeaderOf(plan.msgs[p.i], p.i).(fragOff := p.f.off, fragLen := p.f.len)
  }

  function PieceBody(plan: Plan, p: Piece): seq<byte>
    requires p.i < |plan.msgs| && p.f.off + p.f.len <= |plan.msgs[p.i].body|
  {
    plan.msgs[p.i].body[p.f.off..p.f.off + p.f.len]
  }

  /** What an honest record is read as. */
  lemma {:induction false} ReadAs(server: bool, plan: Plan, st: State, p: Piece, pkt: Packet)
    requires plan.Valid(server) && plan.Carries(p, pkt.raw)
    ensures FragmentOf(plan.msgs, p.i, p.f) && Honest(plan.msgs, pkt)
    ensures Process(st, pkt, plan.limits)
         == Handle(st, PieceHeader(plan, p), PieceBody(plan, p), plan.limits, pkt.memory)
  {
    var m := plan.msgs[p.i];
    assert m in plan.msgs && Passable(m.body, plan.cuts[p.i]);
    var hdr, payload := PieceHeader(plan, p), PieceBody(plan, p);
    assert CarriesFragment(plan.msgs, p.i, p.f, pkt.raw);
    HeaderRoundTrip(hdr, payload);
    assert pkt.raw == EncodeHeader(hdr) + payload;
    assert pkt.raw[HM_HEADER_LENGTH..] == payload;
  }

  /** The entry of a message in parts after one more of them. */
  lemma {:induction false} PartAdded(
    server: bool, plan: Plan, e: Entry, from: nat, p: Piece, rest: seq<Piece>, frags: seq<Range>)
    requires plan.Valid(server) && plan.Has(p) && !plan.Whole(p.i) && from <= e.hdr.seqNo == p.i
    requires CanAdd(e, PieceHeader(plan, p)) && Within(|plan.msgs[p.i].body|, frags)
    requires e.reassembly == Some(MaskAfter(END_VALUES, |plan.msgs[p.i].body|, frags))
    requires forall f | f in plan.cuts[p.i] :: f in frags || Piece(p.i, f) in [p] + rest
    ensures plan.Kept(AddFragment(e, PieceHeader(plan, p), PieceBody(plan, p)), from, rest)
  {
    var hdr, payload, all := PieceHeader(plan, p), PieceBody(plan, p), frags + [p.f];
    assert Passable(plan.msgs[p.i].body, plan.cuts[p.i]);
    AddedMask(e, hdr, payload, frags, all);
    var e' := AddFragment(e, hdr, payload);
    forall f | f in plan.cuts[p.i] ensures f in all || Piece(p.i, f) in rest {
      assert f in frags || Piece(p.i, f) in [p] + rest;
    }
    if e'.reassembly.Some? {
      assert plan.Owed(e', all, rest);
    }
  }

  /** The reader is in agreement, waits for what is to come, and has no buffered message to hand up. */
  ghost predicate Ready(server: bool, plan: Plan, st: State, pieces: seq<Piece>) {
    && plan.Valid(server) && Agrees(server, plan.msgs, st) && plan.Waits(st.buffered, st.readSeq, pieces)
    && Retrieve(st, plan.limits.max).0 == Retry
  }

  ghost predicate GoesOn(plan: Plan, st: State, o: Outcome, s: State, rest: seq<Piece>)
    requires |plan.cuts| == |plan.msgs| && plan.top < |plan.msgs|
  {
    && (o == Delivered || o == Retry) && st.readSeq <= s.readSeq
    && plan.Waits(s.buffered, s.readSeq, rest)
  }

  lemma {:induction false} PartReassembled(
    server: bool, plan: Plan, st: State, p: Piece, rest: seq<Piece>, memory: nat -> byte)
    requires Ready(server, plan, st, [p] + rest) && plan.Has(p) && !plan.Whole(p.i) && st.readSeq <= p.i
    ensures var (o, s) := Reassemble(
              st, PieceHeader(plan, p), PieceBody(plan, p), plan.limits.maxLen, memory);
            GoesOn(plan, st, o, s, rest)
  {
    var hdr, payload := PieceHeader(plan, p), PieceBody(plan, p);
    assert Passable(plan.msgs[p.i].body, plan.cuts[p.i]);
    var q, k := st.buffered, Find(st.buffered, p.i);
    if k == |q| {
      NewPart(server, plan, st, p, rest, memory);
    } else if q[k].reassembly.None? {
      assert q[k] in q;
      PieceDropped(plan, q, st.readSeq, p, rest);
    } else {
      OldPart(server, plan, st, p, rest, k);
    }
  }

  lemma {:induction false} NewPart(
    server: bool, plan: Plan, st: State, p: Piece, rest: seq<Piece>, memory: nat -> byte)
    requires Ready(server, plan, st, [p] + rest) && plan.Has(p) && !plan.Whole(p.i) && st.readSeq <= p.i
    requires !HasEntry(st.buffered, p.i)
    ensures var e := NewEntry(PieceHeader(plan, p), memory);
      && CanAdd(e, PieceHeader(plan, p))
      && plan.Waits(
           Insert(st.buffered, AddFragment(e, PieceHeader(plan, p), PieceBody(plan, p))), st.readSeq, rest)
  {
    var hdr := PieceHeader(plan, p);
    assert Passable(plan.msgs[p.i].body, plan.cuts[p.i]);
    var e := NewEntry(hdr, memory);
    NewMask(hdr, memory, []);
    if p.i <= plan.top {
      assert plan.ToCome(p.i, [p] + rest);
      PartAdded(server, plan, e, st.readSeq, p, rest, []);
    }
    EntryPutIn(plan, st.buffered, st.readSeq, p, rest, AddFragment(e, hdr, PieceBody(plan, p)));
  }

  lemma {:induction false} OldPart(server: bool, plan: Plan, st: State, p: Piece, rest: seq<Piece>, k: nat)
    requires Ready(server, plan, st, [p] + rest) && plan.Has(p) && !plan.Whole(p.i) && st.readSeq <= p.i
    requires k < |st.buffered| && st.buffered[k].hdr.seqNo == p.i && st.buffered[k].reassembly.Some?
    ensures var e := st.buffered[k];
      && CanAdd(e, PieceHeader(plan, p))
      && plan.Waits(
           st.buffered[k := AddFragment(e, PieceHeader(plan, p), PieceBody(plan, p))], st.readSeq, rest)
  {
    var hdr, e := PieceHeader(plan, p), st.buffered[k];
    assert e in st.buffered;
    assert Passable(plan.msgs[p.i].body, plan.cuts[p.i]);
    AddFragmentKeeps(plan.msgs, p.i, e, p.f);
    if p.i <= plan.top {
      var frags :| plan.Owed(e, frags, [p] + rest);
      PartAdded(server, plan, e, st.readSeq, p, rest, frags);
    }
    EntryReplaced(plan, st.buffered, st.readSeq, p, rest, k, AddFragment(e, hdr, PieceBody(plan, p)));
  }

  /** Where no buffered message can be handed up, the queue has none that the awaited number stands for. */
  lemma {:induction false} NotInQueue(server: bool, plan: Plan, st: State, pieces: seq<Piece>)
    requires Ready(server, plan, st, pieces) && st.readSeq < |plan.msgs|
    ensures forall e | e in st.buffered && e.hdr.seqNo == st.readSeq :: e.reassembly.Some?
  {
    forall e | e in st.buffered && e.hdr.seqNo == st.readSeq ensures e.reassembly.Some? {
      var q := st.buffered;
      var j :| 0 <= j < |q| && q[j] == e;
      assert q[0] in q && plan.Kept(q[0], st.readSeq, pieces);
      assert j == 0;
      assert GoodEntry(plan.msgs, e);
      assert |plan.msgs[st.readSeq].body| <= plan.limits.max;
    }
  }

  /** The messages wanted are within the window, and none that may come before the first is a Finished. */
  ghost predicate InWindow(plan: Plan, st: State)
    requires plan.top < |plan.msgs|
  {
    && plan.top <= st.readSeq + 10
    && (st.readSeq == 0 ==> forall i: nat | 0 < i <= plan.top :: plan.msgs[i].mtype != FINISHED)
  }

  lemma {:induction false} EarlyWhole(
    server: bool, plan: Plan, st: State, p: Piece, rest: seq<Piece>, maxLen: nat, memory: nat -> byte)
    requires Ready(server, plan, st, [p] + rest) && plan.Has(p) && plan.Whole(p.i)
    requires Expected(st, PieceHeader(plan, p))
    ensures var (o, s) := OutOfSeq(st, PieceHeader(plan, p), PieceBody(plan, p), maxLen, memory);
            GoesOn(plan, st, o, s, rest)
  {
    var q, e := st.buffered, Entry(PieceHeader(plan, p), PieceBody(plan, p), None);
    FindIff(q, p.i);
    if HasEntry(q, p.i) {
      PieceDropped(plan, q, st.readSeq, p, rest);
    } else {
      EntryPutIn(plan, q, st.readSeq, p, rest, e);
    }
  }

  lemma {:induction false} AwaitedWhole(
    server: bool, plan: Plan, st: State, p: Piece, rest: seq<Piece>, memory: nat -> byte)
    requires Ready(server, plan, st, [p] + rest) && plan.Has(p) && plan.Whole(p.i) && p.i == st.readSeq
    ensures var (o, s) := Handle(st, PieceHeader(plan, p), PieceBody(plan, p), plan.limits, memory);
            GoesOn(plan, st, o, s, rest)
  {
    var m := plan.msgs[p.i];
    assert m in plan.msgs && |m.body| <= plan.limits.max;
    NotInQueue(server, plan, st, [p] + rest);
    assert !HasEntry(st.buffered, p.i);
    PieceHandedUp(plan, st.buffered, st.readSeq, p, rest);
    AwaitedIsDelivered(server, plan, st, p, memory);
  }

  lemma {:induction false} AwaitedIsDelivered(server: bool, plan: Plan, st: State, p: Piece, memory: nat -> byte)
    requires plan.Valid(server) && st.server == server && plan.Has(p) && plan.Whole(p.i) && p.i == st.readSeq
    ensures var (o, s) := Handle(st, PieceHeader(plan, p), PieceBody(plan, p), plan.limits, memory);
            o == Delivered && s.readSeq == st.readSeq + 1 && s.buffered == st.buffered
  {
    var m := plan.msgs[p.i];
    assert m in plan.msgs && |m.body| <= plan.limits.max;
  }

  lemma {:induction false} NotWanted(server: bool, plan: Plan, st: State, p: Piece, rest: seq<Piece>)
    requires Ready(server, plan, st, [p] + rest) && (p.i < st.readSeq || p.i > plan.top)
    ensures plan.Waits(st.buffered, st.readSeq, rest)
  {
    PieceDropped(plan, st.buffered, st.readSeq, p, rest);
  }

  lemma {:induction false} RecordTaken(server: bool, plan: Plan, st: State, p: Piece, rest: seq<Piece>, pkt: Packet)
    requires Ready(server, plan, st, [p] + rest) && InWindow(plan, st) && plan.Carries(p, pkt.raw)
    ensures var (o, s) := Process(st, pkt, plan.limits);
            GoesOn(plan, st, o, s, rest) && Agrees(server, plan.msgs, s)
  {
    ReadAs(server, plan, st, p, pkt);
    ProcessKeeps(server, plan.msgs, st, pkt, plan.limits);
    assert Passable(plan.msgs[p.i].body, plan.cuts[p.i]);
    if p.i == st.readSeq && plan.Whole(p.i) {
      AwaitedWhole(server, plan, st, p, rest, pkt.memory);
    } else if p.i == st.readSeq {
      PartReassembled(server, plan, st, p, rest, pkt.memory);
    } else if !Expected(st, PieceHeader(plan, p)) {
      NotWanted(server, plan, st, p, rest);
    } else if plan.Whole(p.i) {
      EarlyWhole(server, plan, st, p, rest, plan.limits.maxLen, pkt.memory);
    } else {
      PartReassembled(server, plan, st, p, rest, pkt.memory);
    }
  }

  // ---- whole runs -----------------------------------------------------------------------------

  /** A buffered message that is awaited and complete can be handed up. */
  lemma {:induction false} RetrieveGoesOn(server: bool, plan: Plan, st: State, pieces: seq<Piece>)
    requires plan.Valid(server) && Agrees(server, plan.msgs, st) && plan.Waits(st.buffered, st.readSeq, pieces)
    ensures var (o, s) := Retrieve(st, plan.limits.max);
      && Agrees(server, plan.msgs, s) && (o == Retry || o == Delivered) && (o == Retry ==> s == st)
      && st.readSeq <= s.readSeq && plan.Waits(s.buffered, s.readSeq, pieces)
  {
    RetrieveKeeps(server, plan.msgs, st, plan.limits.max);
    var (o, s) := Retrieve(st, plan.limits.max);
    if o != Retry {
      var e := st.buffered[0];
      assert e in st.buffered && GoodEntry(plan.msgs, e);
      assert |plan.msgs[st.readSeq].body| <= plan.limits.max;
      EntryTaken(plan, st.buffered, st.readSeq, pieces);
    }
  }

  /** When nothing is to come and nothing can be handed up, the messages wanted have been. */
  lemma {:induction false} NothingLeft(server: bool, plan: Plan, st: State)
    requires Ready(server, plan, st, [])
    ensures st.readSeq > plan.top
  {
    if st.readSeq <= plan.top {
      var i := st.readSeq;
      var body, cuts := plan.msgs[i].body, plan.cuts[i];
      assert Passable(body, cuts);
      if plan.ToCome(i, []) {
        SomePiece(body, cuts);
        assert false;
      } else {
        var e :| e in st.buffered && e.hdr.seqNo == i;
        NotInQueue(server, plan, st, []);
        assert plan.Kept(e, i, []);
        var frags :| plan.Owed(e, frags, []);
        AllOwedCompletes(body, cuts, frags);
      }
    }
  }

  lemma {:induction false} SomePiece(body: seq<byte>, cuts: seq<Range>)
    requires Passable(body, cuts)
    ensures exists f :: f in cuts
  {
    if IsWhole(body, cuts) {
      assert Range(0, |body|) in cuts;
    } else {
      assert Recorded(END_VALUES, cuts, 0);
    }
  }

  lemma {:induction false} AllOwedCompletes(body: seq<byte>, cuts: seq<Range>, frags: seq<Range>)
    requires Passable(body, cuts) && !IsWhole(body, cuts) && 0 < |body| && Within(|body|, frags)
    requires forall f | f in cuts :: f in frags
    ensures IsComplete(END_VALUES, MaskAfter(END_VALUES, |body|, frags), |body|)
  {
    forall i: nat | i < |body| ensures Recorded(END_VALUES, frags, i) {
      assert Recorded(END_VALUES, cuts, i);
      var f :| f in cuts && f.Records(END_VALUES, i);
      assert f in frags;
    }
    CompleteIffAllRecorded(END_VALUES, |body|, frags);
  }

  /** The records that come carry these pieces. */
  predicate AllCarried(plan: Plan, pieces: seq<Piece>, net: seq<Packet>)
    requires |plan.cuts| == |plan.msgs|
  {
    |pieces| == |net| && forall j | 0 <= j < |net| :: plan.Carries(pieces[j], net[j].raw)
  }

  lemma {:induction false} AllHandedUp(server: bool, plan: Plan, st: State, pieces: seq<Piece>, net: seq<Packet>)
    requires plan.Valid(server) && Agrees(server, plan.msgs, st) && plan.Waits(st.buffered, st.readSeq, pieces)
    requires InWindow(plan, st) && AllCarried(plan, pieces, net)
    ensures var (o, s) := AskAll(st, net, plan.limits);
            o == NeedMore && Agrees(server, plan.msgs, s) && s.readSeq > plan.top
    decreases Work(net, st)
  {
    AskAllStep(st, net, plan.limits);
    RetrieveGoesOn(server, plan, st, pieces);
    var (o, s) := Retrieve(st, plan.limits.max);
    if o == Delivered {
      AllHandedUp(server, plan, s, pieces, net);
    } else if net == [] {
      NothingLeft(server, plan, st);
    } else {
      var p, rest := pieces[0], pieces[1..];
      assert pieces == [p] + rest;
      RecordTaken(server, plan, st, p, rest, net[0]);
      ProcessGrows(st, net[0], plan.limits);
      AllHandedUp(server, plan, Process(st, net[0], plan.limits).1, rest, net[1..]);
    }
  }

  /** The converse of transcript agreement. From an empty queue, let every fragment of the messages from the
      awaited one up to any of the next ten come, in any order, any number of times and among fragments of
      others: a caller that asks until there is no more is handed up all of them, in order and whole, and has
      them hashed. Each message comes whole, or in parts that record a length off the byte boundaries. */
  lemma {:induction false} AllArrive(server: bool, plan: Plan, st: State, pieces: seq<Piece>, net: seq<Packet>)
    requires plan.Valid(server) && Agrees(server, plan.msgs, st) && st.buffered == []
    requires InWindow(plan, st) && AllCarried(plan, pieces, net)
    requires forall i: nat | st.readSeq <= i <= plan.top :: plan.ToCome(i, pieces)
    ensures var (o, s) := AskAll(st, net, plan.limits);
      && o == NeedMore && plan.top < s.readSeq <= |plan.msgs|
      && s.delivered == plan.msgs[..s.readSeq] && s.transcript == TranscriptOf(plan.msgs[..s.readSeq])
  {
    AllHandedUp(server, plan, st, pieces, net);
  }

  // ---- the fragments of a writer --------------------------------------------------------------

  lemma {:induction false} TilesFollow(cuts: seq<Range>, pos: nat, total: nat, j: nat, k: nat)
    requires Tile(cuts, pos, total) && j < k < |cuts|
    ensures cuts[j].off + cuts[j].len <= cuts[k].off
    decreases j
  {
    if j == 0 {
      TilesInBody(cuts[1..], pos + cuts[0].len, total, k - 1);
    } else {
      TilesFollow(cuts[1..], pos + cuts[0].len, total, j - 1, k - 1);
    }
  }

  lemma {:induction false} TilesCover(cuts: seq<Range>, pos: nat, total: nat, i: nat)
    requires Tile(cuts, pos, total) && pos <= i < total
    ensures exists f :: f in cuts && f.Holds(i)
    decreases |cuts|
  {
    assert cuts[0] in cuts;
    if !cuts[0].Holds(i) {
      TilesCover(cuts[1..], pos + cuts[0].len, total, i);
      var f :| f in cuts[1..] && f.Holds(i);
      assert f in cuts;
    }
  }

  lemma {:induction false} TilesAreParts(body: seq<byte>, cuts: seq<Range>)
    requires Tile(cuts, 0, |body|) && |cuts| > 1
    ensures AreParts(body, cuts)
  {
    forall f | f in cuts ensures 0 < f.len < |body| && f.off + f.len <= |body| {
      var k :| 0 <= k < |cuts| && cuts[k] == f;
      TilesInBody(cuts, 0, |body|, k);
      if k > 0 {
        TilesFollow(cuts, 0, |body|, 0, k);
      }
    }
  }

  /** The last byte of a tile that loses its tail is recorded by no other. */
  lemma {:induction false} LostTail(body: seq<byte>, cuts: seq<Range>, j: nat)
    requires Tile(cuts, 0, |body|) && j < |cuts| && cuts[j].LosesTail()
    ensures !Recorded(END_VALUES, cuts, cuts[j].off + cuts[j].len - 1)
  {
    var i := cuts[j].off + cuts[j].len - 1;
    if Recorded(END_VALUES, cuts, i) {
      var g :| g in cuts && g.Records(END_VALUES, i);
      var k :| 0 <= k < |cuts| && cuts[k] == g;
      if j < k {
        TilesFollow(cuts, 0, |body|, j, k);
      } else if k < j {
        TilesFollow(cuts, 0, |body|, k, j);
      }
      assert false;
    }
  }

  /** The fragments of one way to cut a message can pass exactly when there is but one, or when neither the
      message nor any of the long ones ends on a byte boundary of the bitmask. */
  lemma {:induction false} TilingPassesIff(body: seq<byte>, cuts: seq<Range>)
    requires Tile(cuts, 0, |body|)
    ensures Passable(body, cuts) <==> |cuts| == 1 || (|body| % 8 != 0 && forall f | f in cuts :: !f.LosesTail())
  {
    if |cuts| > 1 {
      TilesAreParts(body, cuts);
      if RecordAll(body, cuts) {
        forall f | f in cuts ensures !f.LosesTail() {
          var k :| 0 <= k < |cuts| && cuts[k] == f;
          if f.LosesTail() {
            LostTail(body, cuts, k);
            assert false;
          }
        }
      } else if forall f | f in cuts :: !f.LosesTail() {
        forall i: nat | i < |body| ensures Recorded(END_VALUES, cuts, i) {
          TilesCover(cuts, 0, |body|, i);
          var f :| f in cuts && f.Holds(i);
          assert f.Records(END_VALUES, i);
        }
        assert RecordAll(body, cuts);
      }
    } else {
      assert cuts == [Range(0, |body|)];
    }
  }
}
