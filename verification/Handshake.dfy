/** What both ends of a handshake record: the two marks of either side. */
module Handshake {

  datatype Sign = OwnCcs | OwnFinished | PeerCcs | PeerFinished

  type Log = seq<Sign>

  /** The log without the ChangeCipherSpec records of the peer, which may come more than once. */
  function Marks(log: Log): seq<Sign> {
    if log == [] then []
    else if log[|log| - 1] == PeerCcs then Marks(log[..|log| - 1])
    else Marks(log[..|log| - 1]) + [log[|log| - 1]]
  }

  predicate GuardedAt(log: Log, i: nat) {
    i < |log| && log[i] == PeerFinished ==> i > 0 && log[i - 1] == PeerCcs
  }

  /** Every Finished of the peer comes straight after a ChangeCipherSpec of the peer. */
  ghost predicate Guarded(log: Log) {
    forall i {:trigger GuardedAt(log, i)} :: GuardedAt(log, i)
  }

  predicate EndsWithPeerCcs(log: Log) {
    log != [] && log[|log| - 1] == PeerCcs
  }

  /** Own ChangeCipherSpec and Finished first, then those of the peer. */
  ghost predicate OwnFirst(log: Log) {
    Guarded(log) && Marks(log) == [OwnCcs, OwnFinished, PeerFinished]
  }

  /** ChangeCipherSpec and Finished of the peer first, then the own ones. */
  ghost predicate PeerFirst(log: Log) {
    Guarded(log) && Marks(log) == [PeerFinished, OwnCcs, OwnFinished]
  }

  predicate PrecededAt(before: bool, log: Log, i: nat) {
    i < |log| && log[i] == PeerFinished ==> before || PeerCcs in log[..i]
  }

  /** Before every Finished of the peer there was a ChangeCipherSpec of the peer, if only one that had
      come before the log began. */
  ghost predicate Preceded(before: bool, log: Log) {
    forall i: nat {:trigger PrecededAt(before, log, i)} :: PrecededAt(before, log, i)
  }

  lemma {:induction false} MarksGrow(log: Log, x: Sign)
    ensures Marks(log + [x]) == Marks(log) + if x == PeerCcs then [] else [x]
    ensures Guarded(log) && (x == PeerFinished ==> EndsWithPeerCcs(log)) ==> Guarded(log + [x])
  {
    var more := log + [x];
    assert more[..|more| - 1] == log;
    if Guarded(log) && (x == PeerFinished ==> EndsWithPeerCcs(log)) {
      forall i ensures GuardedAt(more, i) {
        assert GuardedAt(log, i);
      }
    }
  }

  lemma {:induction false} PrecededGrows(before: bool, log: Log, x: Sign)
    requires Preceded(before, log) && (x == PeerFinished ==> before || PeerCcs in log)
    ensures Preceded(before, log + [x])
  {
    var more := log + [x];
    assert more[..|log|] == log;
    forall i: nat ensures PrecededAt(before, more, i) {
      assert PrecededAt(before, log, i);
      if i < |log| {
        assert more[..i] == log[..i];
      }
    }
  }

  /** Spelt out: the own marks are followed by a ChangeCipherSpec of the peer and then by its Finished. */
  lemma {:induction false} OwnFirstOrder(log: Log) returns (a: nat, b: nat, c: nat)
    requires OwnFirst(log)
    ensures a < b && b + 1 < c < |log|
    ensures log[a] == OwnCcs && log[b] == OwnFinished && log[c - 1] == PeerCcs && log[c] == PeerFinished
  {
    c := LastMark(log);
    assert GuardedAt(log, c) && Marks(log[..c]) == [OwnCcs, OwnFinished];
    b := LastMark(log[..c]);
    assert Marks(log[..c][..b]) == [OwnCcs];
    a := LastMark(log[..c][..b]);
  }

  lemma {:induction false} PeerFirstOrder(log: Log) returns (a: nat, b: nat, c: nat)
    requires PeerFirst(log)
    ensures 0 < a < b < c < |log|
    ensures log[a - 1] == PeerCcs && log[a] == PeerFinished && log[b] == OwnCcs && log[c] == OwnFinished
  {
    c := LastMark(log);
    assert Marks(log[..c]) == [PeerFinished, OwnCcs];
    b := LastMark(log[..c]);
    assert Marks(log[..c][..b]) == [PeerFinished];
    a := LastMark(log[..c][..b]);
    assert GuardedAt(log, a);
  }

  /** Where the last mark stands. */
  lemma {:induction false} LastMark(log: Log) returns (i: nat)
    requires Marks(log) != []
    ensures i < |log| && log[i] == Marks(log)[|Marks(log)| - 1]
    ensures Marks(log[..i]) == Marks(log)[..|Marks(log)| - 1]
    decreases |log|
  {
    var n := |log| - 1;
    if log[n] == PeerCcs {
      i := LastMark(log[..n]);
      assert log[..n][..i] == log[..i];
    } else {
      i := n;
    }
  }
}
