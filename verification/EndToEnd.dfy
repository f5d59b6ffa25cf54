/**
 A sender that writes its handshake messages one after another and sends some of them again, a network that
 loses, repeats and reorders the records, and the reader at the other end: what both have put into the
 Finished hash, over any number of handshakes.
 */
module EndToEnd {
  import opened Bits
  import opened Fragmentation
  import opened Transcript

  /** A call of the writer for message `n`, and the fields of the writer after it. */
  datatype Write = Write(n: nat, call: Call, after: Snapshot)

  /** The call sent the message from its head to its end, as a call that returns 1 promises. */
  ghost predicate Finished(msgs: seq<Message>, w: Write) {
    && w.n < |msgs| && w.call.Valid() && w.call.base == 0
    && w.call.h == HeaderOf(msgs[w.n], w.n) && w.call.body == msgs[w.n].body
    && w.call.cuts == Cuts(|w.call.body|, 0, true, w.call.link, w.call.overhead, 0)
    && w.call.EndsWith(1, |w.call.cuts|, w.after)
  }

  /** How many messages were sent for the first time. */
  function Sent(writes: seq<Write>): nat {
    if writes == [] then 0
    else Sent(writes[..|writes| - 1]) + if writes[|writes| - 1].after.retransmitting then 0 else 1
  }

  function SentBefore(writes: seq<Write>, k: nat): seq<seq<byte>>
    requires k <= |writes|
  {
    if k == 0 then [] else writes[k - 1].after.sent
  }

  function HashBefore(writes: seq<Write>, k: nat): seq<byte>
    requires k <= |writes|
  {
    if k == 0 then [] else writes[k - 1].after.transcript
  }

  /** The message went out in one piece, or has a length for which the completeness test is sound. */
  predicate SafelyCut(c: Call) { |c.cuts| == 1 || |c.body| % 8 != 0 || |c.body| == 8 }

  /** The call goes on where the one before it stopped, with the next message or with one sent before. */
  ghost predicate WriteAt(msgs: seq<Message>, writes: seq<Write>, k: nat)
    requires k < |writes|
  {
    var w := writes[k];
    && Finished(msgs, w) && SafelyCut(w.call)
    && w.call.sent == SentBefore(writes, k) && w.call.transcript == HashBefore(writes, k)
    && if w.after.retransmitting then w.n < Sent(writes[..k]) else w.n == Sent(writes[..k])
  }

  /** The sender has written `msgs`, and some of them again, cut anew each time. */
  ghost predicate Sends(msgs: seq<Message>, writes: seq<Write>) {
    Sent(writes) == |msgs| && forall k | 0 <= k < |writes| :: WriteAt(msgs, writes, k)
  }

  /** Only what is sent for the first time is hashed. */
  lemma {:induction false} SenderHash(msgs: seq<Message>, writes: seq<Write>, k: nat)
    requires k <= |writes| && forall j | 0 <= j < |writes| :: WriteAt(msgs, writes, j)
    ensures Sent(writes[..k]) <= |msgs|
    ensures HashBefore(writes, k) == TranscriptOf(msgs[..Sent(writes[..k])])
  {
    if k > 0 {
      var w := writes[k - 1];
      SenderHash(msgs, writes, k - 1);
      assert WriteAt(msgs, writes, k - 1);
      SentStep(writes, k);
      if w.after.retransmitting {
        ResendingHashesNothing(w.call, w.after);
      } else {
        FirstSendHashes(msgs, w);
      }
    }
  }

  lemma {:induction false} SentStep(writes: seq<Write>, k: nat)
    requires 0 < k <= |writes|
    ensures Sent(writes[..k]) == Sent(writes[..k - 1]) + if writes[k - 1].after.retransmitting then 0 else 1
  {
    assert writes[..k][..k - 1] == writes[..k - 1];
  }

  lemma {:induction false} FirstSendHashes(msgs: seq<Message>, w: Write)
    requires Finished(msgs, w) && !w.after.retransmitting && w.call.transcript == TranscriptOf(msgs[..w.n])
    ensures w.after.transcript == TranscriptOf(msgs[..w.n + 1])
  {
    SenderHashes(msgs, w.n, w.call, true, w.after);
  }

  lemma {:induction false} ResendingHashesNothing(call: Call, s: Snapshot)
    requires call.Valid() && s.retransmitting && call.HashAgrees(|call.cuts|, s)
    ensures s.transcript == call.transcript
  {
  }

  /** The records of one call are honest. */
  lemma {:induction false} CallIsHonest(server: bool, msgs: seq<Message>, w: Write, k: nat, memory: nat -> byte)
    requires WellFormed(server, msgs) && Finished(msgs, w) && SafelyCut(w.call)
    requires k < |w.call.cuts|
    ensures Honest(msgs, Packet(w.call.AllWires()[k], memory))
  {
    WriterIsHonest(server, msgs, w.n, w.call.link, w.call.overhead, k, memory);
  }

  /** One call adds its records to what was sent. */
  lemma {:induction false} SentByCall(w: Write, raw: seq<byte>)
    requires w.call.Valid() && w.call.SentAgrees(|w.call.cuts|, w.after)
    ensures raw in w.after.sent <==> raw in w.call.sent || raw in w.call.AllWires()
  {
    var wires := w.call.AllWires();
    assert wires[..|w.call.cuts|] == wires;
  }

  lemma {:induction false} SentIsHonest(server: bool, msgs: seq<Message>, writes: seq<Write>, k: nat, p: Packet)
    requires WellFormed(server, msgs) && Sends(msgs, writes) && k <= |writes| && p.raw in SentBefore(writes, k)
    ensures Honest(msgs, p)
  {
    var w := writes[k - 1];
    assert WriteAt(msgs, writes, k - 1);
    SentByCall(w, p.raw);
    if p.raw in w.call.sent {
      SentIsHonest(server, msgs, writes, k - 1, p);
    } else {
      var j :| 0 <= j < |w.call.AllWires()| && w.call.AllWires()[j] == p.raw;
      CallIsHonest(server, msgs, w, j, p.memory);
      assert p == Packet(w.call.AllWires()[j], p.memory);
    }
  }

  /** What the sender does in each handshake. */
  datatype Sender = Sender(msgs: seq<Message>, writes: seq<Write>)

  function MessagesOf(senders: seq<Sender>): (r: seq<seq<Message>>)
    ensures |r| == |senders| && forall h | 0 <= h < |r| :: r[h] == senders[h].msgs
  {
    seq(|senders|, h requires 0 <= h < |senders| => senders[h].msgs)
  }

  ghost predicate Works(server: bool, s: Sender) { WellFormed(server, s.msgs) && Sends(s.msgs, s.writes) }

  /** The network brings records that were sent in the handshake that is going on. */
  ghost predicate FromSender(senders: seq<Sender>, events: seq<Event>, k: nat)
    requires k < |events|
  {
    events[k].Ask? ==>
      var h := Handshakes(events[..k]);
      h < |senders| &&
      forall p | p in events[k].net :: p.raw in SentBefore(senders[h].writes, |senders[h].writes|)
  }

  lemma {:induction false} NetworkIsHonest(server: bool, senders: seq<Sender>, events: seq<Event>, k: nat)
    requires k < |events| && FromSender(senders, events, k)
    requires forall s | s in senders :: Works(server, s)
    ensures HonestAt(MessagesOf(senders), events, k)
  {
    if events[k].Ask? {
      var s := senders[Handshakes(events[..k])];
      assert s in senders;
      forall p | p in events[k].net
        ensures Honest(s.msgs, p)
      {
        SentIsHonest(server, s.msgs, s.writes, |s.writes|, p);
      }
    }
  }

  lemma {:induction false} AllWellFormed(server: bool, senders: seq<Sender>)
    requires forall s | s in senders :: Works(server, s)
    ensures forall msgs | msgs in MessagesOf(senders) :: WellFormed(server, msgs)
  {
    forall msgs | msgs in MessagesOf(senders)
      ensures WellFormed(server, msgs)
    {
      var h :| 0 <= h < |senders| && MessagesOf(senders)[h] == msgs;
      assert senders[h] in senders;
    }
  }

  /** From end to end: whatever becomes of the records on the way, and however the calls of the reader fall,
      it has handed up the first messages of the handshake, unchanged and in order; its hash is a prefix of
      the hash of the sender, and the same once all messages are there. Between handshakes the queue of
      the reader is empty. */
  lemma {:induction false} HashesAgree(server: bool, senders: seq<Sender>, events: seq<Event>)
    requires forall s | s in senders :: Works(server, s)
    requires Handshakes(events) < |senders| && forall k | 0 <= k < |events| :: FromSender(senders, events, k)
    requires AllEmpty(Initial(server), events)
    ensures var s := Session(Initial(server), events);
            var Sender(msgs, writes) := senders[Handshakes(events)];
            && s.delivered <= msgs && |s.delivered| == s.readSeq
            && s.transcript <= HashBefore(writes, |writes|)
            && (|s.delivered| == |msgs| ==> s.transcript == HashBefore(writes, |writes|))
  {
    forall k | 0 <= k < |events|
      ensures HonestAt(MessagesOf(senders), events, k)
    {
      NetworkIsHonest(server, senders, events, k);
    }
    var current := senders[Handshakes(events)];
    assert current in senders;
    AllWellFormed(server, senders);
    TranscriptAgreement(server, MessagesOf(senders), events);
    SenderHash(current.msgs, current.writes, |current.writes|);
    assert current.writes[..|current.writes|] == current.writes;
    assert current.msgs[..|current.msgs|] == current.msgs;
  }
}
