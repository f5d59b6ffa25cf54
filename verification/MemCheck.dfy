/**
 Switching the memory checker off and on again from many threads (mem_dbg.c): the short-time lock
 MALLOC, the long-time lock MALLOC2, the nesting counter, and the thread that disabled checking.
 The application has started checking before the threads run, as the source demands.
 */
module MemCheck {
  import opened Options

  type Tid = nat

  /** Where a thread is: between calls, or in one of the three calls between two lock operations. */
  datatype Pc =
    | Outside
    | DisableWaitsMalloc    // CRYPTO_w_lock(MALLOC) on entry
    | DisableHoldsMalloc    // about to look at the counter
    | DisableWaitsMalloc2   // has given MALLOC back
    | DisableWaitsAgain     // has MALLOC2, wants MALLOC
    | DisableHoldsBoth
    | EnableWaitsMalloc
    | EnableHoldsMalloc
    | EnableGaveMalloc2     // has counted down to 0 and released MALLOC2, still holds MALLOC
    | QueryWaitsMalloc      // CRYPTO_r_lock(MALLOC)
    | QueryHoldsMalloc

  /** `depth` counts the thread's own disable calls that it has not matched by enable calls. */
  datatype Thread = Thread(pc: Pc, depth: nat)

  datatype State = State(
    threads: map<Tid, Thread>,
    enable: bool,            // CRYPTO_MEM_CHECK_ENABLE in mh_mode; CRYPTO_MEM_CHECK_ON is set throughout
    numDisable: nat,
    disablingThread: Tid,
    malloc: Option<Tid>,     // the writer that holds it
    readers: set<Tid>,
    malloc2: Option<Tid>)

  datatype Action = CallDisable | CallEnable | CallQuery | Go

  function Start(tids: set<Tid>, stale: Tid): State {
    State(map t | t in tids :: Thread(Outside, 0), true, 0, stale, None, {}, None)
  }

  /** Calls are made between calls, enable calls only to match disable calls; locks are waited for. */
  predicate Enabled(s: State, t: Tid, a: Action) {
    t in s.threads &&
    match s.threads[t].pc
    case Outside => a == CallDisable || a == CallQuery || (a == CallEnable && s.threads[t].depth > 0)
    case DisableWaitsMalloc => a == Go && s.malloc == None && s.readers == {}
    case DisableWaitsAgain => a == Go && s.malloc == None && s.readers == {}
    case EnableWaitsMalloc => a == Go && s.malloc == None && s.readers == {}
    case DisableWaitsMalloc2 => a == Go && s.malloc2 == None
    case QueryWaitsMalloc => a == Go && s.malloc == None
    case _ => a == Go
  }

  function At(s: State, t: Tid, pc: Pc): State
    requires t in s.threads
  {
    s.(threads := s.threads[t := s.threads[t].(pc := pc)])
  }

  function Nest(s: State, t: Tid, depth: nat): State
    requires t in s.threads
  {
    s.(threads := s.threads[t := Thread(Outside, depth)], malloc := None)
  }

  /** The value CRYPTO_is_mem_check_on returns once it has the read lock. */
  predicate Answer(s: State, t: Tid) { s.enable || s.disablingThread != t }

  function Step(s: State, t: Tid, a: Action): State
    requires Enabled(s, t, a)
  {
    var me := s.threads[t];
    match me.pc
    case Outside =>
      At(s, t, match a
               case CallDisable => DisableWaitsMalloc
               case CallEnable => EnableWaitsMalloc
               case _ => QueryWaitsMalloc)
    case DisableWaitsMalloc => At(s, t, DisableHoldsMalloc).(malloc := Some(t))
    case DisableHoldsMalloc =>
      if s.numDisable == 0 || s.disablingThread != t then At(s, t, DisableWaitsMalloc2).(malloc := None)
      else Nest(s.(numDisable := s.numDisable + 1), t, me.depth + 1)
    case DisableWaitsMalloc2 => At(s, t, DisableWaitsAgain).(malloc2 := Some(t))
    case DisableWaitsAgain => At(s, t, DisableHoldsBoth).(malloc := Some(t))
    case DisableHoldsBoth =>
      Nest(s.(enable := false, disablingThread := t, numDisable := s.numDisable + 1), t, me.depth + 1)
    case EnableWaitsMalloc => At(s, t, EnableHoldsMalloc).(malloc := Some(t))
    case EnableHoldsMalloc =>
      var d := if me.depth > 0 then me.depth - 1 else 0;
      if s.numDisable == 0 then Nest(s, t, d)
      else if s.numDisable == 1 then
        s.(numDisable := 0, enable := true, malloc2 := None, threads := s.threads[t := Thread(EnableGaveMalloc2, d)])
      else Nest(s.(numDisable := s.numDisable - 1), t, d)
    case EnableGaveMalloc2 => At(s, t, Outside).(malloc := None)
    case QueryWaitsMalloc => At(s, t, QueryHoldsMalloc).(readers := s.readers + {t})
    case QueryHoldsMalloc => At(s, t, Outside).(readers := s.readers - {t})
  }

  // ---- what every interleaving keeps ----------------------------------------------------------

  predicate HoldsMalloc(p: Pc) {
    p == DisableHoldsMalloc || p == DisableHoldsBoth || p == EnableHoldsMalloc || p == EnableGaveMalloc2
  }

  predicate HoldsMalloc2(th: Thread) { th.depth > 0 || th.pc == DisableWaitsAgain || th.pc == DisableHoldsBoth }

  ghost predicate ThreadInv(s: State, t: Tid)
    requires t in s.threads
  {
    var th := s.threads[t];
    var inv :=
      && (s.malloc == Some(t) <==> HoldsMalloc(th.pc))
      && (t in s.readers <==> th.pc == QueryHoldsMalloc)
      && (s.malloc2 == Some(t) <==> HoldsMalloc2(th))
      && (th.depth > 0 ==> s.numDisable == th.depth && s.disablingThread == t)
      && (th.pc in {DisableWaitsMalloc2, DisableWaitsAgain, DisableHoldsBoth, EnableGaveMalloc2} ==> th.depth == 0)
      && (th.pc in {EnableWaitsMalloc, EnableHoldsMalloc} ==> th.depth > 0);
    inv
  }

  ghost predicate Inv(s: State) {
    (forall t | t in s.threads :: ThreadInv(s, t)) && LocksFit(s)
  }

  ghost predicate LocksFit(s: State) {
    && (s.malloc.Some? ==> s.malloc.value in s.threads && s.readers == {})
    && (s.malloc2.Some? ==> s.malloc2.value in s.threads)
    && s.readers <= s.threads.Keys
    && (s.enable <==> s.numDisable == 0)
    && (s.numDisable > 0 ==> s.disablingThread in s.threads && s.threads[s.disablingThread].depth == s.numDisable)
  }

  lemma {:induction false} StartInv(tids: set<Tid>, stale: Tid)
    ensures Inv(Start(tids, stale))
  {
  }

  lemma {:induction false} StepMover(s: State, t: Tid, a: Action)
    requires Inv(s) && Enabled(s, t, a)
    ensures ThreadInv(Step(s, t, a), t)
  {
    assert ThreadInv(s, t);
  }

  lemma {:induction false} StepBystander(s: State, t: Tid, a: Action, u: Tid)
    requires Inv(s) && Enabled(s, t, a) && u in s.threads && u != t
    ensures ThreadInv(Step(s, t, a), u)
  {
    assert ThreadInv(s, t) && ThreadInv(s, u);
  }

  lemma {:induction false} StepLocks(s: State, t: Tid, a: Action)
    requires Inv(s) && Enabled(s, t, a)
    ensures LocksFit(Step(s, t, a))
  {
    assert ThreadInv(s, t);
  }

  lemma {:induction false} StepInv(s: State, t: Tid, a: Action)
    requires Inv(s) && Enabled(s, t, a)
    ensures Inv(Step(s, t, a))
  {
    StepLocks(s, t, a);
    var s' := Step(s, t, a);
    assert s'.threads.Keys == s.threads.Keys;
    forall u | u in s'.threads
      ensures ThreadInv(s', u)
    {
      if u == t {
        StepMover(s, t, a);
      } else {
        StepBystander(s, t, a, u);
      }
    }
  }

  datatype Turn = Turn(tid: Tid, action: Action)

  /** The state after an interleaving, as long as every turn of it could be taken. */
  function Run(tids: set<Tid>, stale: Tid, turns: seq<Turn>): Option<State> {
    if turns == [] then Some(Start(tids, stale))
    else
      var last := turns[|turns| - 1];
      match Run(tids, stale, turns[..|turns| - 1])
      case None => None
      case Some(s) => if Enabled(s, last.tid, last.action) then Some(Step(s, last.tid, last.action)) else None
  }

  lemma {:induction false} EveryInterleaving(tids: set<Tid>, stale: Tid, turns: seq<Turn>)
    requires Run(tids, stale, turns).Some?
    ensures Inv(Run(tids, stale, turns).value)
  {
    if turns == [] {
      StartInv(tids, stale);
    } else {
      var n := |turns| - 1;
      EveryInterleaving(tids, stale, turns[..n]);
      StepInv(Run(tids, stale, turns[..n]).value, turns[n].tid, turns[n].action);
    }
  }

  /** The promises of the source: the counter is the nesting depth of the disabling thread, which then
      holds MALLOC2 with checking off; and checking is off for that thread and on for all others. */
  lemma {:induction false} DisabledForOneThread(tids: set<Tid>, stale: Tid, turns: seq<Turn>, t: Tid)
    requires Run(tids, stale, turns).Some? && t in Run(tids, stale, turns).value.threads
    ensures var s := Run(tids, stale, turns).value;
            && (s.numDisable > 0 ==> s.malloc2 == Some(s.disablingThread) && !s.enable)
            && (s.threads[t].depth > 0 <==> s.numDisable > 0 && s.disablingThread == t)
            && s.threads[t].depth == (if s.numDisable > 0 && s.disablingThread == t then s.numDisable else 0)
            && (Answer(s, t) <==> s.threads[t].depth == 0)
  {
    EveryInterleaving(tids, stale, turns);
    var s := Run(tids, stale, turns).value;
    assert ThreadInv(s, t);
    if s.numDisable > 0 {
      assert ThreadInv(s, s.disablingThread);
    }
  }

  /** MALLOC2 may be held with the counter still at zero, by a thread on its way to disable checking. */
  lemma {:induction false} Malloc2HeldIff(s: State)
    requires Inv(s)
    ensures s.malloc2.Some? <==>
            (s.numDisable > 0 || exists t | t in s.threads :: s.threads[t].pc in {DisableWaitsAgain, DisableHoldsBoth})
  {
    if s.malloc2.Some? {
      assert ThreadInv(s, s.malloc2.value);
    }
    if s.numDisable > 0 {
      assert ThreadInv(s, s.disablingThread);
    }
    if t :| t in s.threads && s.threads[t].pc in {DisableWaitsAgain, DisableHoldsBoth} {
      assert ThreadInv(s, t);
    }
  }

  // ---- no deadlock ----------------------------------------------------------------------------

  /** `t` waits for a lock that `u` holds. */
  ghost predicate WaitsFor(s: State, t: Tid, u: Tid) {
    && t in s.threads && u in s.threads
    && match s.threads[t].pc
       case DisableWaitsMalloc => s.malloc == Some(u) || u in s.readers
       case DisableWaitsAgain => s.malloc == Some(u) || u in s.readers
       case EnableWaitsMalloc => s.malloc == Some(u) || u in s.readers
       case QueryWaitsMalloc => s.malloc == Some(u)
       case DisableWaitsMalloc2 => s.malloc2 == Some(u)
       case _ => false
  }

  function Rank(p: Pc): nat {
    match p
    case DisableWaitsMalloc2 => 2
    case DisableWaitsMalloc => 1
    case DisableWaitsAgain => 1
    case EnableWaitsMalloc => 1
    case QueryWaitsMalloc => 1
    case _ => 0
  }

  lemma {:induction false} WaitingGoesDown(s: State, t: Tid, u: Tid)
    requires Inv(s) && WaitsFor(s, t, u)
    ensures Rank(s.threads[u].pc) < Rank(s.threads[t].pc)
  {
    assert ThreadInv(s, t) && ThreadInv(s, u);
  }

  /** A thread that waits for MALLOC2 holds neither lock. */
  lemma {:induction false} WaiterForMalloc2HoldsNothing(s: State, t: Tid)
    requires Inv(s) && t in s.threads && s.threads[t].pc == DisableWaitsMalloc2
    ensures s.malloc != Some(t) && s.malloc2 != Some(t) && t !in s.readers
  {
    assert ThreadInv(s, t);
  }

  ghost predicate IsChain(s: State, chain: seq<Tid>) {
    forall i | 0 <= i < |chain| - 1 :: WaitsFor(s, chain[i], chain[i + 1])
  }

  /** The wait-for graph has no cycle, and no chain of more than three threads. */
  lemma {:induction false} NoCycle(s: State, chain: seq<Tid>)
    requires Inv(s) && |chain| >= 2 && IsChain(s, chain)
    ensures chain[0] != chain[|chain| - 1] && |chain| <= 3
  {
    RanksFall(s, chain, |chain| - 1);
  }

  lemma {:induction false} RanksFall(s: State, chain: seq<Tid>, k: nat)
    requires Inv(s) && 0 < k < |chain| && IsChain(s, chain)
    ensures chain[0] in s.threads && chain[k] in s.threads
    ensures Rank(s.threads[chain[k]].pc) + k <= Rank(s.threads[chain[0]].pc) <= 2
  {
    assert WaitsFor(s, chain[k - 1], chain[k]);
    WaitingGoesDown(s, chain[k - 1], chain[k]);
    if k > 1 {
      RanksFall(s, chain, k - 1);
    }
  }

  /** Whenever a thread is inside a call, some thread can go on: one inside a call, or the one that
      disabled checking and is between calls, which will enable it again. */
  lemma {:induction false} SomeoneCanGoOn(s: State, t: Tid) returns (u: Tid, a: Action)
    requires Inv(s) && t in s.threads && s.threads[t].pc != Outside
    ensures Enabled(s, u, a)
    ensures a == Go || (a == CallEnable && s.threads[t].pc == DisableWaitsMalloc2)
    decreases Rank(s.threads[t].pc)
  {
    assert ThreadInv(s, t);
    if Enabled(s, t, Go) {
      return t, Go;
    }
    if s.threads[t].pc == DisableWaitsMalloc2 {
      var h := s.malloc2.value;
      assert ThreadInv(s, h) && WaitsFor(s, t, h);
      if s.threads[h].pc == Outside {
        return h, CallEnable;
      }
      WaitingGoesDown(s, t, h);
      u, a := SomeoneCanGoOn(s, h);
    } else if s.malloc.Some? {
      u, a := s.malloc.value, Go;
      assert ThreadInv(s, u);
    } else {
      u :| u in s.readers;
      a := Go;
      assert ThreadInv(s, u);
    }
  }
}
