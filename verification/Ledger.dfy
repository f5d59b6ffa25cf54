/** Which blocks mem_dbg.c has recorded, and with which information, told from the calls alone. */
module Ledger {
  import opened Options
  import opened InfoStacks

  /** What one call does to the list of blocks; `stack` is that of the thread that records one. */
  ghost function Entered(ledger: map<Addr, seq<string>>, op: Op, stack: seq<string>): map<Addr, seq<string>> {
    match op
    case Malloc(t, a) => ledger[a := stack]
    case Free(a) => ledger - {a}
    case Realloc(a1, a2) => if a1 in ledger then (ledger - {a1})[a2 := ledger[a1]] else ledger
    case Leaks(bio) => if ledger.Keys <= {bio} then map[] else ledger
    case _ => ledger
  }

  /** The blocks recorded, each with what its thread had pushed and not popped when it was recorded. */
  ghost function LedgerOf(ops: seq<Op>): map<Addr, seq<string>> {
    if ops == [] then map[]
    else
      var n := |ops| - 1;
      var op := ops[n];
      Entered(LedgerOf(ops[..n]), op, if op.Malloc? then StackRun([], op.t, ops[..n]) else [])
  }

  /** The information that the record of a block leads to. */
  ghost predicate Matches(h: Heap, ledger: map<Addr, seq<string>>) {
    && h.entries.Keys == ledger.Keys
    && forall a | a in h.entries :: Chain(h.nodes, h.entries[a]) == ledger[a]
  }

  lemma {:induction false} EntryKept(h: Heap, h': Heap, a: Addr)
    requires h.Consistent() && h'.Consistent() && SameLinks(h.nodes, h'.nodes)
    requires a in h.entries && a in h'.entries && h'.entries[a] == h.entries[a]
    ensures Chain(h'.nodes, h'.entries[a]) == Chain(h.nodes, h.entries[a])
  {
    assert NameAt(h.nodes, h.entries, a) && NameAt(h'.nodes, h'.entries, a);
    ChainKept(h.nodes, h'.nodes, h.entries[a]);
  }

  lemma {:induction false} EntriesKept(h: Heap, h': Heap, ledger: map<Addr, seq<string>>)
    requires h.Consistent() && h'.Consistent() && SameLinks(h.nodes, h'.nodes)
    requires Matches(h, ledger) && h'.entries == h.entries
    ensures Matches(h', ledger)
  {
    forall a | a in h.entries
      ensures Chain(h'.nodes, h'.entries[a]) == ledger[a]
    {
      EntryKept(h, h', a);
    }
  }

  lemma {:induction false} PopsKept(h: Heap, t: Tid, k: nat, ledger: map<Addr, seq<string>>)
    requires h.Consistent() && k <= |h.Stack(t)| && Matches(h, ledger)
    ensures Matches(PopTimes(h, t, k), ledger)
    decreases k
  {
    if k > 0 {
      PopKeeps(h, t);
      PopIsConsistent(h, t);
      EntriesKept(h, PopOf(h, t), ledger);
      PopsKept(PopOf(h, t), t, k - 1, ledger);
    }
  }

  lemma {:induction false} MallocMatches(h: Heap, t: Tid, a: Addr, ledger: map<Addr, seq<string>>)
    requires h.Consistent() && Matches(h, ledger)
    ensures Matches(MallocOf(h, t, a), ledger[a := h.Stack(t)])
  {
    var h' := MallocOf(h, t, a);
    MallocIsConsistent(h, t, a);
    forall b | b in h'.entries
      ensures Chain(h'.nodes, h'.entries[b]) == ledger[a := h.Stack(t)][b]
    {
      if b == a {
        StackKept(h, h', t);
      } else {
        EntryKept(h, h', b);
      }
    }
  }

  lemma {:induction false} FreeMatches(h: Heap, a: Addr, ledger: map<Addr, seq<string>>)
    requires h.Consistent() && Matches(h, ledger)
    ensures Matches(FreeOf(h, a), ledger - {a})
  {
    FreeIsConsistent(h, a);
    forall b | b in FreeOf(h, a).entries
      ensures Chain(FreeOf(h, a).nodes, FreeOf(h, a).entries[b]) == (ledger - {a})[b]
    {
      EntryKept(h, FreeOf(h, a), b);
    }
  }

  lemma {:induction false} StepMatches(h: Heap, op: Op, ledger: map<Addr, seq<string>>)
    requires h.Sound() && Honest(h, op) && Matches(h, ledger)
    ensures Matches(StepOf(h, op), Entered(ledger, op, if op.Malloc? then h.Stack(op.t) else []))
  {
    match op
    case Push(t, info) =>
      PushKeeps(h, t, info);
      PushLinks(h, t, info);
      EntriesKept(h, PushOf(h, t, info), ledger);
    case Pop(t) =>
      PopIsConsistent(h, t);
      EntriesKept(h, PopOf(h, t), ledger);
    case RemoveAll(t) => PopsKept(h, t, |h.Stack(t)|, ledger);
    case Malloc(t, a) => MallocMatches(h, t, a, ledger);
    case Free(a) => FreeMatches(h, a, ledger);
    case Realloc(a1, a2) =>
    case Leaks(bio) =>
  }

  lemma {:induction false} RunSnoc(h: Heap, ops: seq<Op>, op: Op)
    ensures RunOf(h, ops + [op]) == StepOf(RunOf(h, ops), op)
    ensures HonestRun(h, ops + [op]) <==> HonestRun(h, ops) && Honest(RunOf(h, ops), op)
    decreases |ops|
  {
    if ops == [] {
      assert [] + [op] == [op] && [op][1..] == [];
      assert RunOf(StepOf(h, op), []) == StepOf(h, op) && HonestRun(StepOf(h, op), []);
    } else {
      assert (ops + [op])[1..] == ops[1..] + [op];
      RunSnoc(StepOf(h, ops[0]), ops[1..], op);
    }
  }

  /** Over every honest run the blocks recorded are those of the ledger, and the record of each leads to what
      was on the stack of its thread when it was recorded, whatever was pushed, popped and released since. */
  lemma {:induction false} LedgerIsKept(ops: seq<Op>)
    requires HonestRun(FRESH, ops)
    ensures Matches(RunOf(FRESH, ops), LedgerOf(ops))
  {
    if ops != [] {
      var n := |ops| - 1;
      var before, op := ops[..n], ops[n];
      assert before + [op] == ops;
      RunSnoc(FRESH, before, op);
      LedgerIsKept(before);
      FreshIsSound();
      RunKeeps(FRESH, before);
      assert op.Malloc? ==> RunOf(FRESH, before).Stack(op.t) == StackRun([], op.t, before);
      StepMatches(RunOf(FRESH, before), op, LedgerOf(before));
    }
  }

  lemma {:induction false} PopsRecord(h: Heap, t: Tid, k: nat)
    ensures PopTimes(h, t, k).entries == h.entries
    decreases k
  {
    if k > 0 {
      PopsRecord(PopOf(h, t), t, k - 1);
    }
  }

  /** Which blocks are recorded is the same over every run, honest or not. */
  lemma {:induction false} RecordedIff(ops: seq<Op>, a: Addr)
    ensures a in RunOf(FRESH, ops).entries <==> a in LedgerOf(ops)
  {
    SameBlocks(ops);
  }

  lemma {:induction false} SameBlocks(ops: seq<Op>)
    ensures RunOf(FRESH, ops).entries.Keys == LedgerOf(ops).Keys
  {
    if ops != [] {
      var n := |ops| - 1;
      var h, op := RunOf(FRESH, ops[..n]), ops[n];
      assert ops[..n] + [op] == ops;
      RunSnoc(FRESH, ops[..n], op);
      SameBlocks(ops[..n]);
      if op.RemoveAll? {
        PopsRecord(h, op.t, |h.Stack(op.t)|);
      }
    }
  }
}
