/** Handshake message headers and the fragmenting writer of d1_both.c. */
module Fragmentation {
  import opened Bits
  import opened Fields
  import opened Reassembly

  const HM_HEADER_LENGTH := 12
  const RT_HEADER_LENGTH := 13

  // ---- header codec ---------------------------------------------------------------------------

  datatype Header = Header(mtype: byte, msgLen: nat, seqNo: nat, fragOff: nat, fragLen: nat) {
    predicate InRange() {
      msgLen < 0x100_0000 && seqNo < 0x1_0000 && fragOff < 0x100_0000 && fragLen < 0x100_0000
    }

    /** The header of the same message sent in one fragment: what both sides hash. */
    function Whole(): Header { this.(fragOff := 0, fragLen := msgLen) }
  }

  function EncodeHeader(h: Header): (r: seq<byte>)
    ensures |r| == HM_HEADER_LENGTH
  {
    [h.mtype] + Put3(h.msgLen) + Put2(h.seqNo) + Put3(h.fragOff) + Put3(h.fragLen)
  }

  function DecodeHeader(s: seq<byte>): Header
    requires |s| >= HM_HEADER_LENGTH
  {
    Header(s[0], Get3(s, 1), Get2(s, 4), Get3(s, 6), Get3(s, 9))
  }

  lemma {:induction false} HeaderFields(h: Header, rest: seq<byte>)
    ensures DecodeHeader(EncodeHeader(h) + rest) == Header(
      h.mtype, h.msgLen % 0x100_0000, h.seqNo % 0x1_0000, h.fragOff % 0x100_0000, h.fragLen % 0x100_0000)
  {
    var s := EncodeHeader(h) + rest;
    assert s[1..4] == Put3(h.msgLen) && s[4..6] == Put2(h.seqNo);
    assert s[6..9] == Put3(h.fragOff) && s[9..12] == Put3(h.fragLen);
    Field3(s, 1, h.msgLen);
    Field3(s, 6, h.fragOff);
    Field3(s, 9, h.fragLen);
    Field2(s, 4, h.seqNo);
  }

  /** Where each field is: the type first, then the length of the message, its number, and offset and length of
      the fragment. */
  lemma {:induction false} HeaderLayout(h: Header)
    requires h.InRange()
    ensures var s := EncodeHeader(h);
      && s[0] == h.mtype && BigEndian(s[1..4]) == h.msgLen && BigEndian(s[4..6]) == h.seqNo
      && BigEndian(s[6..9]) == h.fragOff && BigEndian(s[9..12]) == h.fragLen
  {
    var s := EncodeHeader(h);
    assert s[1..4] == Put3(h.msgLen) && s[4..6] == Put2(h.seqNo);
    assert s[6..9] == Put3(h.fragOff);
    LastField([h.mtype] + Put3(h.msgLen) + Put2(h.seqNo) + Put3(h.fragOff), Put3(h.fragLen), s);
    FieldValue(h.msgLen);
    FieldValue(h.seqNo);
    FieldValue(h.fragOff);
    FieldValue(h.fragLen);
  }

  lemma {:induction false} LastField(front: seq<byte>, last: seq<byte>, s: seq<byte>)
    requires s == front + last
    ensures s[|front|..|s|] == last
  {
  }

  /** Parsing undoes printing exactly for headers whose numbers fit their fields. */
  lemma {:induction false} HeaderRoundTrip(h: Header, rest: seq<byte>)
    ensures DecodeHeader(EncodeHeader(h) + rest) == h <==> h.InRange()
    ensures DecodeHeader(EncodeHeader(h) + rest).InRange()
  {
    HeaderFields(h, rest);
    LowPart(h.msgLen, 0x100_0000);
    LowPart(h.seqNo, 0x1_0000);
    LowPart(h.fragOff, 0x100_0000);
    LowPart(h.fragLen, 0x100_0000);
  }

  /** Printing undoes parsing. */
  lemma {:induction false} HeaderReprint(s: seq<byte>)
    requires |s| == HM_HEADER_LENGTH
    ensures EncodeHeader(DecodeHeader(s)) == s
  {
    FieldDigits(s[1], s[2], s[3]);
    FieldDigits(0, s[4], s[5]);
    FieldDigits(s[6], s[7], s[8]);
    FieldDigits(s[9], s[10], s[11]);
    assert Put3(Get3(s, 1)) == [s[1], s[2], s[3]] && Put2(Get2(s, 4)) == [s[4], s[5]];
    assert Put3(Get3(s, 6)) == [s[6], s[7], s[8]] && Put3(Get3(s, 9)) == [s[9], s[10], s[11]];
  }

  // ---- how a message is cut -------------------------------------------------------------------

  /** An unsigned difference of 32 bits, stored in an int. */
  function AsInt(x: int): int { (x + 0x8000_0000) % 0x1_0000_0000 - 0x8000_0000 }

  /** The transport as one turn of the write loop finds it; `flush` is what flushing it returns. */
  datatype Link = Link(mtu: nat, pending: nat, flush: int) {
    function Room(overhead: nat): int { AsInt(mtu - pending - RT_HEADER_LENGTH - overhead) }

    function FlushedRoom(overhead: nat): int { AsInt(mtu - RT_HEADER_LENGTH - overhead) }

    predicate NeedsFlush(overhead: nat) { Room(overhead) <= HM_HEADER_LENGTH }

    function CurrMtu(overhead: nat): int {
      if NeedsFlush(overhead) then FlushedRoom(overhead) else Room(overhead)
    }

    /** There is room for more than a header after a flush; the code takes this for granted. */
    predicate Usable(overhead: nat) { FlushedRoom(overhead) > HM_HEADER_LENGTH }
  }

  /** Body bytes in the next fragment when `remaining` of them are unsent. */
  function PayloadLen(first: bool, remaining: nat, mtu: int): (n: nat)
    requires mtu > HM_HEADER_LENGTH
    ensures n <= remaining && (n == 0 ==> remaining == 0)
    // a fragment fills the link, or takes all there is, or leaves a last one of twelve bytes
    ensures n == remaining || n == mtu - HM_HEADER_LENGTH || (!first && n == remaining - HM_HEADER_LENGTH)
  {
    var wanted := if first then remaining + HM_HEADER_LENGTH else remaining;
    var len := if wanted > mtu then mtu else wanted;
    if !first && len <= HM_HEADER_LENGTH then len else len - HM_HEADER_LENGTH
  }

  /** The fragments, turn by turn, of the bytes of a `total`-byte body from `pos` on. */
  function Cuts(total: nat, pos: nat, first: bool, link: nat -> Link, overhead: nat, i: nat): (r: seq<Range>)
    requires pos <= total && forall k: nat :: link(k).Usable(overhead)
    decreases total - pos
  {
    assert link(i).Usable(overhead);
    var n := PayloadLen(first, total - pos, link(i).CurrMtu(overhead));
    if n == total - pos then [Range(pos, n)]
    else [Range(pos, n)] + Cuts(total, pos + n, false, link, overhead, i + 1)
  }

  /** A fragment on the wire; `base` is subtracted from the offset written into its header. */
  function Wire(h: Header, body: seq<byte>, base: nat, f: Range): (r: seq<byte>)
    requires base <= f.off && f.off + f.len <= |body|
    ensures |r| == HM_HEADER_LENGTH + f.len
  {
    EncodeHeader(h.(fragOff := f.off - base, fragLen := f.len)) + body[f.off..f.off + f.len]
  }

  predicate InBody(body: seq<byte>, base: nat, cuts: seq<Range>) {
    forall f | f in cuts :: base <= f.off && f.off + f.len <= |body|
  }

  function Wires(h: Header, body: seq<byte>, base: nat, cuts: seq<Range>): (r: seq<seq<byte>>)
    requires InBody(body, base, cuts)
    ensures |r| == |cuts|
  {
    if cuts == [] then [] else [Wire(h, body, base, cuts[0])] + Wires(h, body, base, cuts[1..])
  }

  /** One record of the run, whatever fragment fields the header holds at the time. */
  lemma {:induction false} WireAt(h: Header, h': Header, body: seq<byte>, base: nat, cuts: seq<Range>, k: nat)
    requires InBody(body, base, cuts) && k < |cuts| && h'.Whole() == h.Whole()
    ensures base <= cuts[k].off && cuts[k].off + cuts[k].len <= |body|
    ensures Wires(h, body, base, cuts)[k] ==
            EncodeHeader(h'.(fragOff := cuts[k].off - base, fragLen := cuts[k].len))
            + body[cuts[k].off..cuts[k].off + cuts[k].len]
    decreases k
  {
    assert cuts[k] in cuts;
    if k > 0 {
      WireAt(h, h', body, base, cuts[1..], k - 1);
    }
  }

  /** Fragments that follow one another from `pos` to the end, none empty unless the body is. */
  predicate Tile(cuts: seq<Range>, pos: nat, total: nat) {
    && cuts != []
    && cuts[0].off == pos
    && pos + cuts[0].len <= total
    && (pos < total ==> 0 < cuts[0].len)
    && (if |cuts| == 1 then pos + cuts[0].len == total
        else pos + cuts[0].len < total && Tile(cuts[1..], pos + cuts[0].len, total))
  }

  lemma {:induction false} TilesInBody(cuts: seq<Range>, pos: nat, total: nat, k: nat)
    requires Tile(cuts, pos, total) && k < |cuts|
    ensures pos <= cuts[k].off && cuts[k].off + cuts[k].len <= total && (pos < total ==> 0 < cuts[k].len)
    decreases k
  {
    if k > 0 {
      TilesInBody(cuts[1..], pos + cuts[0].len, total, k - 1);
    }
  }

  lemma {:induction false} TilesInBodyAll(cuts: seq<Range>, pos: nat, total: nat)
    requires Tile(cuts, pos, total)
    ensures forall f | f in cuts :: pos <= f.off && f.off + f.len <= total && (pos < total ==> 0 < f.len)
  {
    forall f | f in cuts
      ensures pos <= f.off && f.off + f.len <= total && (pos < total ==> 0 < f.len)
    {
      var k :| 0 <= k < |cuts| && cuts[k] == f;
      TilesInBody(cuts, pos, total, k);
    }
  }

  lemma {:induction false} CutsTile(total: nat, pos: nat, first: bool, link: nat -> Link, overhead: nat, i: nat)
    requires pos <= total && forall k: nat :: link(k).Usable(overhead)
    ensures Tile(Cuts(total, pos, first, link, overhead, i), pos, total)
    decreases total - pos
  {
    assert link(i).Usable(overhead);
    var n := PayloadLen(first, total - pos, link(i).CurrMtu(overhead));
    if n != total - pos {
      CutsTile(total, pos + n, false, link, overhead, i + 1);
      var rest := Cuts(total, pos + n, false, link, overhead, i + 1);
      assert ([Range(pos, n)] + rest)[1..] == rest;
    }
  }

  function Payloads(body: seq<byte>, cuts: seq<Range>): seq<byte>
    requires InBody(body, 0, cuts)
  {
    if cuts == [] then [] else body[cuts[0].off..cuts[0].off + cuts[0].len] + Payloads(body, cuts[1..])
  }

  /** The bodies of the fragments, put end to end, are the body. */
  lemma {:induction false} TilesCarryTheBody(body: seq<byte>, cuts: seq<Range>, pos: nat)
    requires pos <= |body| && Tile(cuts, pos, |body|)
    ensures InBody(body, 0, cuts) && Payloads(body, cuts) == body[pos..]
    decreases |cuts|
  {
    TilesInBodyAll(cuts, pos, |body|);
    if |cuts| > 1 {
      var next := pos + cuts[0].len;
      TilesCarryTheBody(body, cuts[1..], next);
      assert body[pos..] == body[pos..next] + body[next..];
    } else {
      assert cuts[1..] == [];
    }
  }

  /** Every write fits the link, or is one of the small last fragments that get a header added. */
  lemma {:induction false} WritesFitTheLink(
    total: nat, pos: nat, first: bool, link: nat -> Link, overhead: nat, i: nat, k: nat)
    requires pos <= total && forall j: nat :: link(j).Usable(overhead)
    requires k < |Cuts(total, pos, first, link, overhead, i)|
    ensures var size := HM_HEADER_LENGTH + Cuts(total, pos, first, link, overhead, i)[k].len;
            size <= link(i + k).CurrMtu(overhead) || size <= 24
    decreases k
  {
    assert link(i).Usable(overhead);
    var n := PayloadLen(first, total - pos, link(i).CurrMtu(overhead));
    if k > 0 {
      WritesFitTheLink(total, pos + n, false, link, overhead, i + 1, k - 1);
    }
  }

  /** The length of one fragment of the run. */
  lemma {:induction false} CutAt(
    total: nat, pos: nat, first: bool, link: nat -> Link, overhead: nat, i: nat, k: nat)
    requires pos <= total && forall j: nat :: link(j).Usable(overhead)
    requires k < |Cuts(total, pos, first, link, overhead, i)|
    ensures link(i + k).Usable(overhead)
    ensures var f := Cuts(total, pos, first, link, overhead, i)[k];
            f.off <= total && f.len == PayloadLen(first && k == 0, total - f.off, link(i + k).CurrMtu(overhead))
    decreases k
  {
    assert link(i).Usable(overhead);
    var n := PayloadLen(first, total - pos, link(i).CurrMtu(overhead));
    if k > 0 {
      CutAt(total, pos + n, false, link, overhead, i + 1, k - 1);
    }
  }

  /** No difference of the computation leaves an int. */
  predicate Plain(l: Link, overhead: nat) {
    l.mtu < 0x8000_0000 && l.pending + RT_HEADER_LENGTH + overhead <= 0x8000_0000
  }

  lemma {:induction false} SmallDifference(x: int)
    requires -0x8000_0000 <= x < 0x1_8000_0000
    ensures AsInt(x) == if x < 0x8000_0000 then x else x - 0x1_0000_0000
  {
    ModUnique(x + 0x8000_0000, 0x1_0000_0000, if x < 0x8000_0000 then 0 else 1, AsIntLow(x));
  }

  function AsIntLow(x: int): int { if x < 0x8000_0000 then x + 0x8000_0000 else x - 0x8000_0000 }

  /** Told in bytes: 13 of the record header, 12 of the handshake header, and what MAC and blocks add. */
  lemma {:induction false} FlushIff(l: Link, overhead: nat)
    requires Plain(l, overhead)
    ensures l.NeedsFlush(overhead) <==> l.pending + 13 + overhead + 12 >= l.mtu
    ensures l.Usable(overhead) <==> 13 + overhead + 12 < l.mtu
    ensures l.CurrMtu(overhead) ==
      l.mtu - 13 - overhead - if l.pending + 13 + overhead + 12 >= l.mtu then 0 else l.pending
  {
    SmallDifference(l.mtu - l.pending - RT_HEADER_LENGTH - overhead);
    SmallDifference(l.mtu - RT_HEADER_LENGTH - overhead);
  }

  /** What is in the datagram once the fragment is: what was pending if it was not flushed, the two headers,
      the MAC and the blocks, and the data. */
  function DatagramLen(l: Link, overhead: nat, data: nat): nat {
    (if l.pending + 13 + overhead + 12 >= l.mtu then 0 else l.pending) + 13 + overhead + 12 + data
  }

  /** Every datagram is within the MTU, unless it carries the last twelve bytes or less of a message that has
      been cut; and it is full, unless the fragment is the last or leaves twelve bytes for the last. */
  lemma {:induction false} DatagramFits(
    total: nat, pos: nat, first: bool, link: nat -> Link, overhead: nat, i: nat, k: nat)
    requires pos <= total && forall j: nat :: link(j).Usable(overhead)
    requires k < |Cuts(total, pos, first, link, overhead, i)| && Plain(link(i + k), overhead)
    ensures var f := Cuts(total, pos, first, link, overhead, i)[k];
            var bytes := DatagramLen(link(i + k), overhead, f.len);
            && (bytes <= link(i + k).mtu || (f.len <= 12 && f.off + f.len == total && !(first && k == 0)))
            && (bytes == link(i + k).mtu || f.off + f.len == total || f.off + f.len == total - 12)
  {
    CutAt(total, pos, first, link, overhead, i, k);
    FlushIff(link(i + k), overhead);
  }

  // ---- the writer -----------------------------------------------------------------------------

  /** Turn `turn` of the loop is about to send `all[turn]`. */
  ghost predicate Tracks(
    all: seq<Range>, turn: nat, total: nat, pos: nat, first: bool, link: nat -> Link, overhead: nat)
    requires forall k: nat :: link(k).Usable(overhead)
  {
    pos <= total && turn < |all| && all[turn..] == Cuts(total, pos, first, link, overhead, turn)
  }

  lemma {:induction false} CutsStep(
    all: seq<Range>, turn: nat, total: nat, pos: nat, first: bool, link: nat -> Link, overhead: nat)
    requires forall k: nat :: link(k).Usable(overhead)
    requires Tracks(all, turn, total, pos, first, link, overhead)
    ensures link(turn).Usable(overhead)
    ensures var n := PayloadLen(first, total - pos, link(turn).CurrMtu(overhead));
            && all[turn] == Range(pos, n)
            && if n == total - pos then turn + 1 == |all|
               else Tracks(all, turn + 1, total, pos + n, false, link, overhead)
  {
    assert link(turn).Usable(overhead);
    var n := PayloadLen(first, total - pos, link(turn).CurrMtu(overhead));
    assert all[turn] == all[turn..][0];
    if n != total - pos {
      CutsTile(total, pos + n, false, link, overhead, turn + 1);
      assert all[turn..][1..] == all[turn + 1..];
    } else {
      assert |all[turn..]| == 1;
    }
  }

  lemma {:induction false} WiresStep(
    s: seq<seq<byte>>, wires: seq<seq<byte>>, turn: nat, now: seq<seq<byte>>, w: seq<byte>)
    requires turn < |wires| && now == s + wires[..turn] && w == wires[turn]
    ensures now + [w] == s + wires[..turn + 1]
  {
    assert wires[..turn + 1] == wires[..turn] + [w];
  }

  /** What one fragment adds to the Finished hash: the first brings the header of the whole message. */
  function Digested(h: Header, first: bool, data: seq<byte>): seq<byte> {
    if first then EncodeHeader(h.Whole()) + data else data
  }

  lemma {:induction false} SameDigest(h: Header, h': Header, first: bool, first': bool, data: seq<byte>)
    requires h.Whole() == h'.Whole() && first == first'
    ensures Digested(h, first, data) == Digested(h', first', data)
  {
  }

  /** What one call of the writer adds to the Finished hash when it starts at body byte `base`. */
  function Hashed(h: Header, body: seq<byte>, base: nat, upTo: nat): seq<byte>
    requires base <= upTo <= |body|
  {
    EncodeHeader(h.Whole()) + body[base..upTo]
  }

  /** The Finished hash after `turns` turns of a call that started from `t` at body byte `base`. */
  function HashedSoFar(
    t: seq<byte>, retransmitting: bool, h: Header, body: seq<byte>, base: nat, upTo: nat, turns: nat): seq<byte>
    requires base <= upTo <= |body|
  {
    t + if retransmitting || turns == 0 then [] else Hashed(h, body, base, upTo)
  }

  lemma {:induction false} HashedStep(
    t: seq<byte>, retransmitting: bool, h: Header, body: seq<byte>, base: nat, pos: nat, next: nat, turns: nat)
    requires base <= pos <= next <= |body| && (turns == 0 ==> base == pos)
    ensures HashedSoFar(t, retransmitting, h, body, base, next, turns + 1) ==
            if retransmitting then HashedSoFar(t, retransmitting, h, body, base, pos, turns)
            else HashedSoFar(t, retransmitting, h, body, base, pos, turns)
                 + Digested(h, turns == 0, body[pos..next])
  {
    assert body[base..next] == body[base..pos] + body[pos..next];
  }

  /** The parts of a buffer that holds a header followed by `data` and `rest` at `pos`. */
  lemma {:induction false} FrameParts(s: seq<byte>, pos: nat, e: seq<byte>, data: seq<byte>, rest: seq<byte>)
    requires |e| == HM_HEADER_LENGTH && pos + HM_HEADER_LENGTH + |data| + |rest| <= |s|
    requires s[pos..pos + HM_HEADER_LENGTH + |data| + |rest|] == e + (data + rest)
    ensures s[pos..pos + HM_HEADER_LENGTH + |data|] == e + data
    ensures s[pos + HM_HEADER_LENGTH..pos + HM_HEADER_LENGTH + |data| + |rest|] == data + rest
  {
    var w := s[pos..pos + HM_HEADER_LENGTH + |data| + |rest|];
    assert w[..HM_HEADER_LENGTH + |data|] == e + data && w[HM_HEADER_LENGTH..] == data + rest;
  }

  lemma {:induction false} SliceOfSlice(s: seq<byte>, at: nat, data: seq<byte>, rest: seq<byte>)
    requires at + |data| + |rest| <= |s| && s[at..at + |data| + |rest|] == data + rest
    ensures s[at..at + |data|] == data
    ensures s[at + |data|..at + |data| + |rest|] == rest
  {
    var w := s[at..at + |data| + |rest|];
    assert w[..|data|] == data && w[|data|..] == rest;
  }

  lemma {:induction false} PartsOfTail(body: seq<byte>, pos: nat, data: seq<byte>, rest: seq<byte>)
    requires pos <= |body| && body[pos..] == data + rest
    ensures body[pos..pos + |data|] == data && body[pos + |data|..] == rest
  {
    assert body[pos..][..|data|] == data && body[pos..][|data|..] == rest;
  }

  /** The turn that sends `ret` bytes of `body` takes the writer from `s` to `s'`. */
  ghost predicate Turn(body: seq<byte>, fragOff: nat, s: Snapshot, s': Snapshot, ret: nat) {
    var turns :=
      && 0 < s.initNum && s.Pos() + ret <= |body|
      && s'.hdr == s.hdr.(fragOff := fragOff, fragLen := ret) && s'.retransmitting == s.retransmitting
      && s'.sent == s.sent + [EncodeHeader(s'.hdr) + body[s.Pos()..s.Pos() + ret]]
      && s'.transcript == (if s.retransmitting then s.transcript
                           else s.transcript + Digested(s'.hdr, fragOff == 0, body[s.Pos()..s.Pos() + ret]))
      && if ret == |body| - s.Pos() then s'.initOff == 0 && s'.initNum == 0
         else 0 < s'.initNum < s.initNum && s'.initOff > 0 && s'.Pos() == s.Pos() + ret;
    turns
  }

  /** Sending `data` and leaving `rest` takes the writer from `s` to `s'`. */
  ghost predicate Sends(fragOff: nat, data: seq<byte>, rest: seq<byte>, s: Snapshot, s': Snapshot) {
    var sends :=
      && s'.hdr == s.hdr.(fragOff := fragOff, fragLen := |data|) && s'.retransmitting == s.retransmitting
      && s'.sent == s.sent + [EncodeHeader(s'.hdr) + data]
      && s'.transcript == (if s.retransmitting then s.transcript
                           else s.transcript + Digested(s'.hdr, fragOff == 0, data))
      && if rest == [] then s'.initOff == 0 && s'.initNum == 0
         else s'.initOff > HM_HEADER_LENGTH && s'.Pos() == s.Pos() + |data| && s'.initNum == |rest|;
    sends
  }

  /** The same, told of the body. */
  lemma {:induction false} SendsIsTurn(
    body: seq<byte>, fragOff: nat, data: seq<byte>, rest: seq<byte>, s: Snapshot, s': Snapshot)
    requires 0 < s.initNum && s.Pos() <= |body| && body[s.Pos()..] == data + rest && |rest| < s.initNum
    requires Sends(fragOff, data, rest, s, s')
    ensures Turn(body, fragOff, s, s', |data|)
  {
    PartsOfTail(body, s.Pos(), data, rest);
  }

  /** A call of the writer as it starts, and the fragments it will send if no flush fails. */
  datatype Call = Call(
    h: Header, body: seq<byte>, base: nat, link: nat -> Link, overhead: nat,
    sent: seq<seq<byte>>, transcript: seq<byte>, cuts: seq<Range>)
  {
    ghost predicate Valid() {
      && base <= |body|
      && (forall k: nat :: link(k).Usable(overhead))
      && InBody(body, base, cuts)
    }

    ghost function AllWires(): (r: seq<seq<byte>>)
      requires Valid()
      ensures |r| == |cuts|
    {
      Wires(h, body, base, cuts)
    }

    ghost function Offered(s: Snapshot): nat
      requires Valid()
    {
      if s.initNum == 0 then |body| else s.Pos()
    }

    ghost predicate SentAgrees(turn: nat, s: Snapshot)
      requires Valid()
    {
      turn <= |cuts| && s.sent == sent + AllWires()[..turn]
    }

    ghost predicate HashAgrees(turn: nat, s: Snapshot)
      requires Valid()
    {
      && base <= Offered(s) <= |body|
      && s.transcript == HashedSoFar(transcript, s.retransmitting, h, body, base, Offered(s), turn)
    }

    ghost predicate CutsAgree(turn: nat, fragOff: nat, s: Snapshot)
      requires Valid()
    {
      if s.initNum == 0 then s.initOff == 0 && turn == |cuts|
      else
        && base <= s.Pos()
        && fragOff == s.Pos() - base
        && (turn == 0 <==> fragOff == 0)
        && Tracks(cuts, turn, |body|, s.Pos(), s.initOff == 0, link, overhead)
    }

    /** What `turn` turns of the call have done to the fields of the writer. */
    ghost predicate Agrees(turn: nat, fragOff: nat, s: Snapshot)
      requires Valid()
    {
      var agrees :=
        s.hdr.Whole() == h.Whole() && SentAgrees(turn, s) && HashAgrees(turn, s) && CutsAgree(turn, fragOff, s);
      agrees
    }

    /** What a call comes to after `turns` turns: 1 when all fragments are sent, and otherwise what the
        flush that the next one needs returned. */
    ghost predicate EndsWith(r: int, turns: nat, s: Snapshot)
      requires Valid()
    {
      && SentAgrees(turns, s) && HashAgrees(turns, s)
      && if r == 1 then s.initOff == 0 && s.initNum == 0 && turns == |cuts|
         else r == link(turns).flush <= 0 && link(turns).NeedsFlush(overhead) && s.initNum > 0 && turns < |cuts|
    }

    /** A call as it is made agrees with the fields it was made from. */
    lemma {:induction false} StartAgrees(s: Snapshot)
      requires Valid() && s.hdr == h && s.sent == sent && s.transcript == transcript
      requires s.initNum > 0 && s.Pos() == base && cuts != []
      requires cuts == Cuts(|body|, base, s.initOff == 0, link, overhead, 0)
      ensures Agrees(0, 0, s)
    {
      assert cuts[0..] == cuts;
      assert sent + AllWires()[..0] == sent;
    }

    lemma {:induction false} Ends(turn: nat, fragOff: nat, s: Snapshot)
      requires Valid() && Agrees(turn, fragOff, s)
      ensures s.initNum == 0 ==> EndsWith(1, turn, s)
      ensures s.initNum > 0 && link(turn).NeedsFlush(overhead) && link(turn).flush <= 0 ==>
              EndsWith(link(turn).flush, turn, s)
    {
    }

    lemma {:induction false} LinkUsable(k: nat)
      requires Valid()
      ensures link(k).Usable(overhead)
    {
    }

    lemma {:induction false} TurnKeepsSent(turn: nat, fragOff: nat, s: Snapshot, s': Snapshot, ret: nat)
      requires Valid() && Turn(body, fragOff, s, s', ret) && SentAgrees(turn, s) && s.hdr.Whole() == h.Whole()
      requires turn < |cuts| && cuts[turn] == Range(s.Pos(), ret) && base <= s.Pos() && fragOff == s.Pos() - base
      ensures SentAgrees(turn + 1, s')
    {
      var w := EncodeHeader(s'.hdr) + body[s.Pos()..s.Pos() + ret];
      WireAt(h, s.hdr, body, base, cuts, turn);
      assert s'.hdr == s.hdr.(fragOff := cuts[turn].off - base, fragLen := cuts[turn].len);
      WiresStep(sent, AllWires(), turn, s.sent, w);
    }

    lemma {:induction false} TurnKeepsHash(turn: nat, fragOff: nat, s: Snapshot, s': Snapshot, ret: nat)
      requires Valid() && Turn(body, fragOff, s, s', ret) && HashAgrees(turn, s) && s.hdr.Whole() == h.Whole()
      requires base <= s.Pos() && fragOff == s.Pos() - base && (turn == 0 <==> fragOff == 0)
      ensures HashAgrees(turn + 1, s')
    {
      var pos := s.Pos();
      assert Offered(s) == pos && Offered(s') == pos + ret;
      var d := body[pos..pos + ret];
      assert s'.transcript == if s.retransmitting then s.transcript else s.transcript + Digested(h, turn == 0, d) by {
        SameDigest(s'.hdr, h, fragOff == 0, turn == 0, d);
      }
      HashedStep(transcript, s.retransmitting, h, body, base, pos, pos + ret, turn);
    }

    lemma {:induction false} TurnKeepsCuts(turn: nat, fragOff: nat, s: Snapshot, s': Snapshot, ret: nat)
      requires Valid() && Turn(body, fragOff, s, s', ret) && CutsAgree(turn, fragOff, s)
      requires link(turn).Usable(overhead)
      requires ret == PayloadLen(s.initOff == 0, |body| - s.Pos(), link(turn).CurrMtu(overhead))
      ensures CutsAgree(turn + 1, fragOff + ret, s')
      ensures turn < |cuts| && cuts[turn] == Range(s.Pos(), ret) && base <= s.Pos() && fragOff == s.Pos() - base
    {
      CutsStep(cuts, turn, |body|, s.Pos(), s.initOff == 0, link, overhead);
    }

    lemma {:induction false} TurnKeeps(turn: nat, fragOff: nat, s: Snapshot, s': Snapshot, ret: nat)
      requires Valid() && Agrees(turn, fragOff, s) && Turn(body, fragOff, s, s', ret)
      requires link(turn).Usable(overhead)
      requires ret == PayloadLen(s.initOff == 0, |body| - s.Pos(), link(turn).CurrMtu(overhead))
      ensures Agrees(turn + 1, fragOff + ret, s')
    {
      TurnKeepsCuts(turn, fragOff, s, s', ret);
      TurnKeepsSent(turn, fragOff, s, s', ret);
      TurnKeepsHash(turn, fragOff, s, s', ret);
    }
  }

  /** The fields of the writer apart from its buffer. */
  datatype Snapshot = Snap(
    initOff: nat, initNum: nat, hdr: Header, retransmitting: bool, sent: seq<seq<byte>>, transcript: seq<byte>)
  {
    function Pos(): nat { if initOff < HM_HEADER_LENGTH then 0 else initOff - HM_HEADER_LENGTH }
  }

  class HandshakeWriter {
    var initBuf: array<byte>
    var initOff: nat
    var initNum: nat
    var wMsgHdr: Header
    var retransmitting: bool
    /** What went to the record layer, one element a record. */
    var sent: seq<seq<byte>>
    /** What went into the Finished hash. */
    var transcript: seq<byte>

    function Pos(): nat
      reads this
    {
      if initOff < HM_HEADER_LENGTH then 0 else initOff - HM_HEADER_LENGTH
    }

    ghost function Snapshot(): Snapshot
      reads this
    {
      Snap(initOff, initNum, wMsgHdr, retransmitting, sent, transcript)
    }

    ghost predicate HasAt(at: nat, tail: seq<byte>)
      reads this, initBuf
    {
      var has := at + |tail| <= initBuf.Length && initBuf[at..at + |tail|] == tail;
      has
    }

    /** `initBuf` still holds the unsent part of `body`, behind room for a header. */
    ghost predicate Holds(body: seq<byte>)
      reads this, initBuf
    {
      var holds :=
        && |body| == wMsgHdr.msgLen
        && initOff + initNum == HM_HEADER_LENGTH + |body|
        && (initOff == 0 || initOff > HM_HEADER_LENGTH)
        && Pos() <= |body|
        && HasAt(HM_HEADER_LENGTH + Pos(), body[Pos()..]);
      holds
    }

    constructor (buf: array<byte>, h: Header)
      requires HM_HEADER_LENGTH + h.msgLen <= buf.Length
      ensures initBuf == buf && initOff == 0 && initNum == HM_HEADER_LENGTH + h.msgLen && wMsgHdr == h
      ensures sent == [] && transcript == [] && !retransmitting
    {
      initBuf, initOff, initNum, wMsgHdr := buf, 0, HM_HEADER_LENGTH + h.msgLen, h;
      retransmitting, sent, transcript := false, [], [];
    }

    /** Write the header over the 12 bytes before `tail`. */
    method WriteHeader(at: nat, h: Header, ghost tail: seq<byte>)
      requires HasAt(at + HM_HEADER_LENGTH, tail)
      modifies initBuf
      ensures HasAt(at, EncodeHeader(h) + tail)
    {
      var e := EncodeHeader(h);
      forall j | 0 <= j < HM_HEADER_LENGTH {
        initBuf[at + j] := e[j];
      }
      forall j | 0 <= j < |tail|
        ensures initBuf[at + HM_HEADER_LENGTH + j] == tail[j]
      {
        assert tail[j] == old(initBuf[at + HM_HEADER_LENGTH..at + HM_HEADER_LENGTH + |tail|])[j];
      }
    }

    /** Move the window back over room for a header, and write the header there. */
    method PrepareFragment(fragOff: nat, currMtu: int, ghost tail: seq<byte>) returns (len: nat)
      requires 0 < initNum && (initOff == 0 || initOff > HM_HEADER_LENGTH) && currMtu > HM_HEADER_LENGTH
      requires initOff + initNum == HM_HEADER_LENGTH + Pos() + |tail| && HasAt(HM_HEADER_LENGTH + Pos(), tail)
      modifies this`initOff, this`initNum, this`wMsgHdr, initBuf
      ensures initOff == old(Pos()) && initNum == HM_HEADER_LENGTH + |tail|
      ensures len == HM_HEADER_LENGTH + PayloadLen(old(initOff) == 0, |tail|, currMtu)
      ensures wMsgHdr == old(wMsgHdr).(fragOff := fragOff, fragLen := len - HM_HEADER_LENGTH)
      ensures HasAt(initOff, EncodeHeader(wMsgHdr) + tail)
    {
      len := if initNum > currMtu then currMtu else initNum;
      if initOff != 0 {
        initOff := initOff - HM_HEADER_LENGTH;
        initNum := initNum + HM_HEADER_LENGTH;
        if len <= HM_HEADER_LENGTH {
          len := len + HM_HEADER_LENGTH;
        }
      }
      wMsgHdr := wMsgHdr.(fragOff := fragOff, fragLen := len - HM_HEADER_LENGTH);
      WriteHeader(initOff, wMsgHdr, tail);
    }

    /** Hand one fragment to the record layer. */
    method SendFragment(len: nat, ghost data: seq<byte>, ghost rest: seq<byte>)
      requires len == HM_HEADER_LENGTH + |data|
      requires HasAt(initOff, EncodeHeader(wMsgHdr) + (data + rest))
      modifies this`sent
      ensures sent == old(sent) + [EncodeHeader(wMsgHdr) + data]
      ensures HasAt(initOff + HM_HEADER_LENGTH, data + rest)
    {
      FrameParts(initBuf[..], initOff, EncodeHeader(wMsgHdr), data, rest);
      sent := sent + [initBuf[initOff..initOff + len]];
    }

    /** The header is made whole again in the buffer before the first fragment is hashed. */
    method HashFragment(fragOff: nat, len: nat, ghost data: seq<byte>, ghost rest: seq<byte>)
      requires len == HM_HEADER_LENGTH + |data|
      requires HasAt(initOff + HM_HEADER_LENGTH, data + rest)
      modifies this`transcript, initBuf
      ensures transcript == old(transcript) + Digested(wMsgHdr, fragOff == 0, data)
      ensures HasAt(initOff + HM_HEADER_LENGTH, data + rest)
    {
      if fragOff == 0 {
        HashWhole(len, data, rest);
      } else {
        SliceOfSlice(initBuf[..], initOff + HM_HEADER_LENGTH, data, rest);
        transcript := transcript + initBuf[initOff + HM_HEADER_LENGTH..initOff + len];
      }
    }

    /** The header goes back over the bytes before the first fragment, and is hashed with it. */
    method HashWhole(len: nat, ghost data: seq<byte>, ghost rest: seq<byte>)
      requires len == HM_HEADER_LENGTH + |data|
      requires HasAt(initOff + HM_HEADER_LENGTH, data + rest)
      modifies this`transcript, initBuf
      ensures transcript == old(transcript) + (EncodeHeader(wMsgHdr.Whole()) + data)
      ensures HasAt(initOff + HM_HEADER_LENGTH, data + rest)
    {
      ghost var e := EncodeHeader(wMsgHdr.Whole());
      WriteHeader(initOff, wMsgHdr.Whole(), data + rest);
      FrameParts(initBuf[..], initOff, e, data, rest);
      assert initBuf[initOff..initOff + len] == e + data;
      transcript := transcript + initBuf[initOff..initOff + len];
    }

    /** Step over what was sent. */
    method FinishTurn(len: nat, ghost data: seq<byte>, ghost rest: seq<byte>)
      requires len == HM_HEADER_LENGTH + |data| && initNum == len + |rest|
      requires HasAt(initOff + HM_HEADER_LENGTH, data + rest)
      modifies this`initOff, this`initNum
      ensures if rest == [] then initOff == 0 && initNum == 0
              else initOff == old(initOff) + len && initNum == |rest| && HasAt(initOff, rest)
    {
      SliceOfSlice(initBuf[..], initOff + HM_HEADER_LENGTH, data, rest);
      if len == initNum {
        initOff, initNum := 0, 0;
      } else {
        initOff := initOff + len;
        initNum := initNum - len;
      }
    }

    /** One turn of the loop. */
    method WriteFragment(fragOff: nat, currMtu: int, ghost tail: seq<byte>)
      returns (ret: nat, ghost data: seq<byte>, ghost rest: seq<byte>)
      requires 0 < initNum && (initOff == 0 || initOff > HM_HEADER_LENGTH) && currMtu > HM_HEADER_LENGTH
      requires initOff + initNum == HM_HEADER_LENGTH + Pos() + |tail| && HasAt(HM_HEADER_LENGTH + Pos(), tail)
      modifies this, initBuf
      ensures initBuf == old(initBuf) && retransmitting == old(retransmitting)
      ensures ret == PayloadLen(old(initOff) == 0, |tail|, currMtu)
      ensures tail == data + rest && |data| == ret
      ensures Sends(fragOff, data, rest, old(Snapshot()), Snapshot())
      ensures rest != [] ==> HasAt(initOff, rest)
    {
      var len := PrepareFragment(fragOff, currMtu, tail);
      ret := len - HM_HEADER_LENGTH;
      data, rest := tail[..ret], tail[ret..];
      assert tail == data + rest;
      SendFragment(len, data, rest);
      HashAndFinish(fragOff, len, data, rest);
    }

    method HashAndFinish(fragOff: nat, len: nat, ghost data: seq<byte>, ghost rest: seq<byte>)
      requires len == HM_HEADER_LENGTH + |data| && initNum == len + |rest|
      requires HasAt(initOff + HM_HEADER_LENGTH, data + rest)
      modifies this`transcript, this`initOff, this`initNum, initBuf
      ensures transcript == if retransmitting then old(transcript)
                            else old(transcript) + Digested(wMsgHdr, fragOff == 0, data)
      ensures if rest == [] then initOff == 0 && initNum == 0
              else initOff == old(initOff) + len && initNum == |rest| && HasAt(initOff, rest)
    {
      if !retransmitting {
        HashFragment(fragOff, len, data, rest);
      }
      FinishTurn(len, data, rest);
    }

    /** The same turn, told in terms of the whole body. */
    method WriteNext(fragOff: nat, currMtu: int, ghost body: seq<byte>) returns (ret: nat)
      requires Holds(body) && 0 < initNum && currMtu > HM_HEADER_LENGTH
      modifies this, initBuf
      ensures initBuf == old(initBuf) && retransmitting == old(retransmitting)
      ensures ret == PayloadLen(old(initOff) == 0, |body| - old(Pos()), currMtu)
      ensures Turn(body, fragOff, old(Snapshot()), Snapshot(), ret)
      ensures initNum > 0 ==> Holds(body)
    {
      ghost var pos, tail := Pos(), body[Pos()..];
      ghost var data, rest;
      ret, data, rest := WriteFragment(fragOff, currMtu, tail);
      PartsOfTail(body, pos, data, rest);
      SendsIsTurn(body, fragOff, data, rest, old(Snapshot()), Snapshot());
      if initNum > 0 {
        RestIsHeld(body, rest);
      }
    }

    lemma {:induction false} RestIsHeld(body: seq<byte>, rest: seq<byte>)
      requires |body| == wMsgHdr.msgLen && initOff > HM_HEADER_LENGTH && Pos() <= |body|
      requires rest == body[Pos()..] && initNum == |rest| && HasAt(initOff, rest)
      ensures Holds(body)
    {
      assert initOff == HM_HEADER_LENGTH + Pos();
    }

    /** The loop invariant: `call` says what was found at the call, `turn` turns have been taken. */
    ghost predicate Under(call: Call, turn: nat, fragOff: nat)
      requires call.Valid()
      reads this, initBuf
    {
      call.Agrees(turn, fragOff, Snapshot()) && (initNum > 0 ==> Holds(call.body))
    }

    method LoopTurn(fragOff: nat, currMtu: int, ghost call: Call, ghost turn: nat) returns (ret: nat)
      requires call.Valid() && Under(call, turn, fragOff) && 0 < initNum
      requires currMtu == call.link(turn).CurrMtu(call.overhead)
      modifies this, initBuf
      ensures initBuf == old(initBuf) && retransmitting == old(retransmitting)
      ensures initNum == 0 || initNum < old(initNum)
      ensures Under(call, turn + 1, fragOff + ret)
    {
      ghost var before := Snapshot();
      call.LinkUsable(turn);
      ret := WriteNext(fragOff, currMtu, call.body);
      call.TurnKeeps(turn, fragOff, before, Snapshot(), ret);
    }

    /** A call of the writer made now. */
    ghost function NewCall(body: seq<byte>, link: nat -> Link, overhead: nat): Call
      requires Pos() <= |body| && forall k: nat :: link(k).Usable(overhead)
      reads this
    {
      Call(wMsgHdr, body, Pos(), link, overhead, sent, transcript,
           Cuts(|body|, Pos(), initOff == 0, link, overhead, 0))
    }

    /** The whole loop; `turns` counts the fragments sent before a flush failed, or all of them. */
    method DoWrite(link: nat -> Link, overhead: nat, ghost body: seq<byte>) returns (r: int, ghost turns: nat)
      requires Holds(body) && initNum > 0
      requires forall k: nat :: link(k).Usable(overhead)
      modifies this, initBuf
      ensures initBuf == old(initBuf) && retransmitting == old(retransmitting)
      ensures old(NewCall(body, link, overhead)).Valid()
      ensures old(NewCall(body, link, overhead)).EndsWith(r, turns, Snapshot())
      ensures r != 1 ==> Holds(body)
    {
      ghost var call := NewCall(body, link, overhead);
      CutsTile(|body|, Pos(), initOff == 0, link, overhead, 0);
      TilesInBodyAll(call.cuts, Pos(), |body|);
      call.StartAgrees(Snapshot());
      var fragOff, turn := 0, 0;
      while initNum > 0
        invariant initBuf == old(initBuf) && retransmitting == old(retransmitting)
        invariant Under(call, turn, fragOff)
        decreases initNum
      {
        var l := link(turn);
        if l.NeedsFlush(overhead) && l.flush <= 0 {
          call.Ends(turn, fragOff, Snapshot());
          return l.flush, turn;
        }
        assert l.Usable(overhead);
        var ret := LoopTurn(fragOff, l.CurrMtu(overhead), call, turn);
        fragOff := fragOff + ret;
        turn := turn + 1;
      }
      call.Ends(turn, fragOff, Snapshot());
      return 1, turn;
    }
  }

  // ---- what the writer promises ---------------------------------------------------------------

  const PROBABLE_MTU: seq<nat> := [1500 - 28, 512 - 28, 256 - 28]

  /** The MTU the writer settles on when it may ask the transport: too small an answer is replaced. A
      negative one is a large one once it is stored. */
  function SelectMtu(queried: int): nat {
    var mtu := queried % 0x1_0000_0000;
    if mtu < PROBABLE_MTU[2] then PROBABLE_MTU[0] else mtu
  }

  /** An answer of at least 228 bytes is kept, a smaller one is replaced by 1472, and a negative one is taken
      for one of more than 2^31 bytes. */
  lemma {:induction false} SelectedMtu(queried: int)
    requires -0x8000_0000 <= queried < 0x8000_0000
    ensures SelectMtu(queried) ==
      if queried < 0 then queried + 0x1_0000_0000 else if queried < 228 then 1472 else queried
  {
    ModUnique(queried, 0x1_0000_0000, if queried < 0 then -1 else 0,
              if queried < 0 then queried + 0x1_0000_0000 else queried);
    assert PROBABLE_MTU[2] == 228 && PROBABLE_MTU[0] == 1472;
  }

  /** Whatever the digest and block size, a queried MTU leaves room for a header and data exactly when the
      answer was not negative, or so far below zero that taking the overhead off it underflows. */
  lemma {:induction false} QueriedMtuIsUsable(queried: int, pending: nat, flush: int, macSize: nat, blockSize: nat)
    requires macSize <= 64 && blockSize <= 32 && -0x8000_0000 <= queried < 0x8000_0000
    ensures var overhead := macSize + 2 * blockSize;
      Link(SelectMtu(queried), pending, flush).Usable(overhead) <==>
      queried >= 0 || queried + 0x8000_0000 < RT_HEADER_LENGTH + overhead
  {
    var overhead := macSize + 2 * blockSize;
    SelectedMtu(queried);
    SmallDifference(SelectMtu(queried) - RT_HEADER_LENGTH - overhead);
  }

  /** A call that starts at the head of the message and ends well: the records carry the whole body
      in order under contiguous offsets, and the hash grows by the message as one fragment. */
  lemma {:induction false} WholeMessageSent(call: Call, first: bool, s: Snapshot)
    requires call.Valid() && call.base == 0 && s.initNum == 0
    requires call.cuts == Cuts(|call.body|, 0, first, call.link, call.overhead, 0)
    requires call.SentAgrees(|call.cuts|, s) && call.HashAgrees(|call.cuts|, s)
    ensures Tile(call.cuts, 0, |call.body|) && Payloads(call.body, call.cuts) == call.body
    ensures s.sent == call.sent + Wires(call.h, call.body, 0, call.cuts)
    ensures s.transcript == call.transcript + if s.retransmitting then [] else EncodeHeader(call.h.Whole()) + call.body
  {
    CutsTile(|call.body|, 0, first, call.link, call.overhead, 0);
    TilesCarryTheBody(call.body, call.cuts, 0);
    assert call.AllWires()[..|call.cuts|] == call.AllWires();
    assert call.body[0..] == call.body && call.body[0..|call.body|] == call.body;
  }

  /** A message whose first call stopped at body byte `p` after `turns` turns, finished by a second
      call: the hash is that of the message exactly when the first call had sent nothing. */
  lemma {:induction false} ResumedWriteHash(t: seq<byte>, h: Header, body: seq<byte>, p: nat, turns: nat, more: nat)
    requires p <= |body| && 0 < more && (turns == 0 ==> p == 0)
    ensures var stopped := HashedSoFar(t, false, h, body, 0, p, turns);
            var resumed := HashedSoFar(stopped, false, h, body, p, |body|, more);
            resumed == t + (EncodeHeader(h.Whole()) + body) <==> turns == 0
  {
    var stopped := HashedSoFar(t, false, h, body, 0, p, turns);
    var resumed := HashedSoFar(stopped, false, h, body, p, |body|, more);
    if turns == 0 {
      assert body[0..|body|] == body;
    } else {
      assert |resumed| == |t| + 2 * HM_HEADER_LENGTH + |body|;
      assert |t + (EncodeHeader(h.Whole()) + body)| == |t| + HM_HEADER_LENGTH + |body|;
    }
  }

  /** ... and the offsets in the headers of the second call are right exactly when it starts at the head. */
  lemma {:induction false} ResumedWriteOffsets(h: Header, body: seq<byte>, base: nat, f: Range)
    requires base <= f.off && f.off + f.len <= |body| < 0x100_0000 && h.msgLen == |body| && h.seqNo < 0x1_0000
    ensures DecodeHeader(Wire(h, body, base, f)).fragOff == f.off <==> base == 0
  {
    HeaderRoundTrip(h.(fragOff := f.off - base, fragLen := f.len), body[f.off..f.off + f.len]);
  }
}
