/**
 The server's handshake loop, dtls1_accept (d1_srvr.c), without listening. Every handler succeeds or
 exits, and a run goes on over any number of calls, as for the client.
 */
module HandshakeServer {
  import opened Handshake

  datatype Where =
    | Before | Renegotiate | SwHelloReq | SwHelloReqDone | SrClntHello | SwHelloVerify | SwSrvrHello | SwCert
    | SwCertStatus | SwKeyExch | SwCertReq | SwSrvrDone | SwFlush | SrCert | SrKeyExch | SrCertVrfy | SrFinished
    | SwSessionTicket | SwChange | SwFinished | Ok

  /** What one turn of the loop meets: the wire, the outcome of handlers, and the flags they leave. */
  datatype Input = Input(
    ccs: bool,             // a ChangeCipherSpec record comes in before the message
    arrived: bool,         // the message is there
    isFinished: bool,      // and is a Finished
    works: bool,           // the handler succeeds otherwise
    keyBlock: bool,        // the key block is set up
    cipherChanges: bool,   // the write cipher is, once the ChangeCipherSpec has been sent
    digestMatches: bool,
    resumes: bool,         // the ClientHello names a session the server has
    freshCookie: bool,     // the ClientHello brought no valid cookie, and cookies are exchanged
    ticketExpected: bool, statusExpected: bool, anonymous: bool,
    sendsKeys: bool, asksCert: bool,
    secondHello: bool,     // a ClientHello in place of the certificate
    noVerify: bool,        // the key exchange needs no CertificateVerify
    putBack: bool)         // the handler leaves the message for the next one

  /** What reading changes. */
  datatype Inbox = Inbox(ccs: bool, ccsOk: bool, reuse: bool, finished: bool, log: Log)

  datatype Server = Server(state: Where, next: Where, hit: bool, newSession: int, box: Inbox)

  /** A connection that waits for a ClientHello, or has been told to renegotiate. Everything else is as
      the handshake before has left it; the log is that of this handshake. */
  predicate IsStart(s: Server) {
    (s.state.Before? || s.state.Renegotiate?) && s.box.log == []
  }

  // ---- one turn, field by field ---------------------------------------------------------------

  /** dtls1_get_message, as on the client. */
  function Receive(b: Inbox, e: Input): Inbox {
    if b.reuse then b.(reuse := false)
    else if e.ccs && b.ccsOk then Inbox(true, false, false, e.isFinished, b.log + [PeerCcs])
    else b.(finished := e.isFinished)
  }

  predicate HasMessage(b: Inbox, e: Input) { b.reuse || e.arrived }

  predicate Awaits(w: Where) { w.SrCertVrfy? || w.SrFinished? }

  /** A ChangeCipherSpec is accepted from the CertificateVerify on. */
  function Ready(s: Server): Inbox { if Awaits(s.state) then s.box.(ccsOk := true) else s.box }

  predicate Reads(s: Server) {
    match s.state
    case SrClntHello | SrCert | SrKeyExch | SrCertVrfy => true
    case _ => false
  }

  /** A second ClientHello is left to its handler. */
  predicate PutsBack(s: Server, e: Input) {
    e.putBack || (s.state.SrCert? && e.secondHello && HasMessage(s.box, e))
  }

  /** ssl3_get_finished accepts the message only after a ChangeCipherSpec. */
  predicate Takes(b: Inbox, e: Input) {
    var d := Receive(b, e);
    HasMessage(b, e) && d.finished && d.ccs
  }

  function Taken(b: Inbox, e: Input): Inbox {
    var d := Receive(b, e);
    if !Takes(b, e) then d
    else if !e.digestMatches then d.(ccs := false)
    else d.(ccs := false, log := d.log + [PeerFinished])
  }

  /** The handler of the state succeeds. */
  predicate Succeeds(s: Server, e: Input) {
    match s.state
    case SrClntHello | SrKeyExch | SrCertVrfy => HasMessage(s.box, e) && e.works
    case SrCert => HasMessage(s.box, e) && (e.secondHello || e.works)
    case SrFinished => Takes(Ready(s), e) && e.digestMatches
    case SwCert => e.anonymous || e.works
    case SwKeyExch => !e.sendsKeys || e.works
    case SwCertReq => !e.asksCert || e.works
    case SwChange => e.keyBlock && e.works
    case SwHelloReqDone | Ok => true
    case _ => e.works
  }

  /** The state after a handler that succeeds. */
  function Target(s: Server, e: Input): Where {
    match s.state
    case Before => SrClntHello
    case Renegotiate => SwHelloReq
    case SwHelloReq | SwHelloVerify | SwSrvrDone | SwFinished => SwFlush
    case SwHelloReqDone => Ok
    case SrClntHello => if e.freshCookie then SwHelloVerify else SwSrvrHello
    case SwSrvrHello => if !s.hit then SwCert else if e.ticketExpected then SwSessionTicket else SwChange
    case SwCert => if !e.anonymous && e.statusExpected then SwCertStatus else SwKeyExch
    case SwCertStatus => SwKeyExch
    case SwKeyExch => SwCertReq
    case SwCertReq => SwSrvrDone
    case SwFlush => s.next
    case SrCert => if e.secondHello then SrClntHello else SrKeyExch
    case SrKeyExch => if e.noVerify then SrFinished else SrCertVrfy
    case SrCertVrfy => SrFinished
    case SrFinished => if s.hit then Ok else if e.ticketExpected then SwSessionTicket else SwChange
    case SwSessionTicket => SwChange
    case SwChange => SwFinished
    case Ok => Ok
  }

  function NextAfter(s: Server, e: Input): Where {
    if !e.works then s.next
    else match s.state
      case SwHelloReq => SwHelloReqDone
      case SwHelloVerify => SrClntHello
      case SwSrvrDone => SrCert
      case SwFinished => if s.hit then SrFinished else Ok
      case _ => s.next
  }

  function HitAfter(s: Server, e: Input): bool {
    if s.state.SrClntHello? && HasMessage(s.box, e) then e.resumes else s.hit
  }

  function NewSessionAfter(s: Server): int {
    match s.state
    case Renegotiate => 1
    case SwSrvrHello => 2
    case Ok => if s.newSession == 2 then 0 else s.newSession
    case _ => s.newSession
  }

  function BoxAfter(s: Server, e: Input): Inbox {
    if Reads(s) then Receive(Ready(s), e).(reuse := PutsBack(s, e))
    else if s.state.SrFinished? then Taken(Ready(s), e)
    else if !Succeeds(s, e) then s.box
    else WrittenBox(s)
  }

  function WrittenBox(s: Server): Inbox {
    match s.state
    case SwChange => s.box.(log := s.box.log + [OwnCcs])
    case SwFinished => s.box.(log := s.box.log + [OwnFinished])
    case _ => s.box
  }

  function Step(s: Server, e: Input): Server {
    Server(if Succeeds(s, e) then Target(s, e) else s.state, NextAfter(s, e), HitAfter(s, e),
           NewSessionAfter(s), BoxAfter(s, e))
  }

  datatype Ret = Goes | Returns(r: int)

  function RetOf(s: Server, e: Input): Ret {
    if !Succeeds(s, e) || (s.state.SwChange? && !e.cipherChanges) then Returns(-1)
    else if s.state.Ok? then Returns(1) else Goes
  }

  function Run(s: Server, inputs: seq<Input>): Server
    decreases |inputs|
  {
    if inputs == [] then s else Run(Step(s, inputs[0]), inputs[1..])
  }

  // ---- safety ---------------------------------------------------------------------------------

  /** What a state stands for. */
  datatype Stage =
    | Early
    | Awaiting   // ChangeCipherSpec and Finished of the client to come
    | Changing   // own ChangeCipherSpec to send
    | Changed    // own Finished to send
    | Done

  function StageOf(w: Where): Stage {
    match w
    case SrCertVrfy | SrFinished | SwFlush => Awaiting
    case SwSessionTicket | SwChange => Changing
    case SwFinished => Changed
    case Ok => Done
    case _ => Early
  }

  /** The marks that have been logged in a stage. */
  function MarksAt(stage: Stage, hit: bool): seq<Sign> {
    match stage
    case Early => []
    case Awaiting => if hit then [OwnCcs, OwnFinished] else []
    case Changing => if hit then [] else [PeerFinished]
    case Changed => if hit then [OwnCcs] else [PeerFinished, OwnCcs]
    case Done => if hit then [OwnCcs, OwnFinished, PeerFinished] else [PeerFinished, OwnCcs, OwnFinished]
  }

  function Ahead(state: Where, next: Where): Stage { StageOf(if state.SwFlush? then next else state) }

  /** A full handshake is under way. */
  predicate IsFull(w: Where) {
    match w
    case SwCert | SwCertStatus | SwKeyExch | SwCertReq | SwSrvrDone | SrCert | SrKeyExch | SrCertVrfy => true
    case _ => false
  }

  predicate IsRequest(w: Where) { w.SwHelloReq? || w.SwHelloReqDone? }

  predicate StateFits(w: Where, hit: bool, newSession: int) {
    (IsFull(w) ==> !hit) && (IsRequest(w) ==> newSession == 1)
  }

  predicate FlushFits(next: Where, hit: bool) {
    match next
    case SwHelloReqDone | SrClntHello | SrCert => true
    case SrFinished => hit
    case Ok => !hit
    case _ => false
  }

  predicate ControlFits(s: Server) {
    if s.state.SwFlush? then FlushFits(s.next, s.hit) && StateFits(s.next, s.hit, s.newSession)
    else StateFits(s.state, s.hit, s.newSession)
  }

  /** The two flags as a handshake finds them. */
  datatype Past = Past(ccs: bool, ccsOk: bool) {
    predicate Clean() { !ccs && !ccsOk }
  }

  /** Where the ChangeCipherSpec of the client is known to come straight before its Finished: a flag left
      set before the handshake counts for one, and where one is accepted too early in a resumed
      handshake, the own messages come between. */
  predicate Sharp(p: Past, stage: Stage, hit: bool) {
    !p.ccs && (p.ccsOk ==> stage.Early? || !hit)
  }

  ghost predicate BoxFits(p: Past, stage: Stage, hit: bool, b: Inbox) {
    && Marks(b.log) == MarksAt(stage, hit)
    && Preceded(p.ccs, b.log) && (b.ccs ==> p.ccs || PeerCcs in b.log)
    && (Sharp(p, stage, hit) ==> Guarded(b.log) && (b.ccs ==> EndsWithPeerCcs(b.log)))
    && (stage.Early? && p.Clean() ==> !b.ccs && !b.ccsOk)
    && ((stage.Changing? || stage.Changed?) && (!hit || p.Clean()) ==> !b.ccs)
  }

  /** Nothing is said of a server that has only asked for renegotiation, or is past its arrival. */
  ghost predicate Inv(p: Past, s: Server) {
    ControlFits(s) && ((s.state.Ok? && s.newSession != 2) || BoxFits(p, Ahead(s.state, s.next), s.hit, s.box))
  }

  lemma {:induction false} ReceiveKeeps(p: Past, b: Inbox, e: Input, stage: Stage, hit: bool)
    requires BoxFits(p, stage, hit, b) && (stage.Early? || stage.Awaiting?)
    ensures BoxFits(p, stage, hit, Receive(b, e))
  {
    MarksGrow(b.log, PeerCcs);
    PrecededGrows(p.ccs, b.log, PeerCcs);
  }

  lemma {:induction false} EarlyControl(s: Server, e: Input)
    requires StageOf(s.state).Early? && ControlFits(s)
    ensures var t := Step(s, e);
      && !Ahead(t.state, t.next).Changed?
      && (t.state.Ok? ==> t.newSession != 2) && (t.state.SwFlush? ==> StageOf(t.next).Early?)
      && MarksAt(Ahead(t.state, t.next), t.hit) == if t.state.Ok? then MarksAt(Done, t.hit) else []
  {
    if IsFull(s.state) {
      FullControl(s, e);
    }
  }

  lemma {:induction false} FullControl(s: Server, e: Input)
    requires IsFull(s.state) && !s.state.SrCertVrfy? && !s.hit
    ensures var t := Step(s, e);
      && !Ahead(t.state, t.next).Changed? && !t.state.Ok? && (t.state.SwFlush? ==> t.next.SrCert?)
      && MarksAt(Ahead(t.state, t.next), t.hit) == []
  {
  }

  lemma {:induction false} EarlyShape(s: Server, e: Input)
    requires StageOf(s.state).Early? && ControlFits(s)
    ensures ControlFits(Step(s, e))
  {
    if IsFull(s.state) {
      FullShape(s, e);
    }
  }

  lemma {:induction false} FullShape(s: Server, e: Input)
    requires IsFull(s.state) && ControlFits(s)
    ensures ControlFits(Step(s, e))
  {
  }

  lemma {:induction false} EarlyKeeps(p: Past, s: Server, e: Input)
    requires Inv(p, s) && StageOf(s.state).Early?
    ensures Inv(p, Step(s, e))
  {
    if Reads(s) {
      ReceiveKeeps(p, s.box, e, Early, s.hit);
    }
    EarlyControl(s, e);
    EarlyShape(s, e);
  }

  lemma {:induction false} VerifyKeeps(p: Past, s: Server, e: Input)
    requires Inv(p, s) && s.state.SrCertVrfy?
    ensures Inv(p, Step(s, e))
  {
    ReceiveKeeps(p, Ready(s), e, Awaiting, s.hit);
  }

  lemma {:induction false} FlushKeeps(p: Past, s: Server, e: Input)
    requires Inv(p, s) && s.state.SwFlush?
    ensures Inv(p, Step(s, e))
  {
  }

  /** Logging an own mark leads to the next stage. */
  lemma {:induction false} OwnMarkKeeps(p: Past, stage: Stage, hit: bool, b: Inbox, x: Sign, after: Stage)
    requires BoxFits(p, stage, hit, b) && (x.OwnCcs? || x.OwnFinished?) && (stage.Changing? || stage.Changed?)
    requires MarksAt(after, hit) == MarksAt(stage, hit) + [x] && !after.Early?
    ensures BoxFits(p, after, hit, b.(log := b.log + [x]))
  {
    MarksGrow(b.log, x);
    PrecededGrows(p.ccs, b.log, x);
  }

  lemma {:induction false} FinishedMarkKeeps(p: Past, hit: bool, b: Inbox)
    requires BoxFits(p, Awaiting, hit, b) && b.ccs
    ensures BoxFits(p, if hit then Done else Changing, hit, b.(ccs := false, log := b.log + [PeerFinished]))
  {
    MarksGrow(b.log, PeerFinished);
    PrecededGrows(p.ccs, b.log, PeerFinished);
  }

  lemma {:induction false} ChangingKeeps(p: Past, s: Server, e: Input)
    requires Inv(p, s) && StageOf(s.state).Changing?
    ensures Inv(p, Step(s, e))
  {
    if s.state.SwChange? && Succeeds(s, e) {
      OwnMarkKeeps(p, Changing, s.hit, s.box, OwnCcs, Changed);
    } else {
      assert BoxAfter(s, e) == s.box;
    }
  }

  lemma {:induction false} ChangedKeeps(p: Past, s: Server, e: Input)
    requires Inv(p, s) && s.state.SwFinished?
    ensures Inv(p, Step(s, e))
  {
    OwnMarkKeeps(p, Changed, s.hit, s.box, OwnFinished, if s.hit then Awaiting else Done);
  }

  lemma {:induction false} FinishedBoxKeeps(p: Past, s: Server, e: Input)
    requires BoxFits(p, Awaiting, s.hit, s.box)
    ensures BoxFits(p, if Takes(Ready(s), e) && e.digestMatches then (if s.hit then Done else Changing) else Awaiting,
                    s.hit, Taken(Ready(s), e))
  {
    ReceiveKeeps(p, Ready(s), e, Awaiting, s.hit);
    if Takes(Ready(s), e) {
      FinishedMarkKeeps(p, s.hit, Receive(Ready(s), e));
    }
  }

  lemma {:induction false} FinishedControl(s: Server, e: Input)
    requires s.state.SrFinished?
    ensures var t := Step(s, e);
      && t.box == Taken(Ready(s), e) && t.hit == s.hit && ControlFits(t)
      && Ahead(t.state, t.next) == if !Succeeds(s, e) then Awaiting else if s.hit then Done else Changing
  {
  }

  lemma {:induction false} FinishedKeeps(p: Past, s: Server, e: Input)
    requires Inv(p, s) && s.state.SrFinished?
    ensures Inv(p, Step(s, e))
  {
    FinishedBoxKeeps(p, s, e);
    FinishedControl(s, e);
  }

  lemma {:induction false} StepKeeps(p: Past, s: Server, e: Input)
    requires Inv(p, s)
    ensures Inv(p, Step(s, e))
  {
    match StageOf(s.state)
    case Early => EarlyKeeps(p, s, e);
    case Awaiting =>
      if s.state.SrCertVrfy? {
        VerifyKeeps(p, s, e);
      } else if s.state.SrFinished? {
        FinishedKeeps(p, s, e);
      } else {
        FlushKeeps(p, s, e);
      }
    case Changing => ChangingKeeps(p, s, e);
    case Changed => ChangedKeeps(p, s, e);
    case Done =>
  }

  lemma {:induction false} RunKeeps(p: Past, s: Server, inputs: seq<Input>)
    requires Inv(p, s)
    ensures Inv(p, Run(s, inputs))
    decreases |inputs|
  {
    if inputs != [] {
      StepKeeps(p, s, inputs[0]);
      RunKeeps(p, Step(s, inputs[0]), inputs[1..]);
    }
  }

  lemma {:induction false} StartFits(start: Server)
    requires IsStart(start)
    ensures Inv(PastOf(start), start)
  {
    forall i: nat ensures GuardedAt([], i) && PrecededAt(start.box.ccs, [], i) {
    }
  }

  function PastOf(s: Server): Past { Past(s.box.ccs, s.box.ccsOk) }

  /** A server that has just arrived at the end of a handshake, and not just of a HelloRequest. */
  predicate Arrives(start: Server, inputs: seq<Input>) {
    Run(start, inputs).state.Ok? && Run(start, inputs).newSession == 2
  }

  /** Whatever comes in, whichever handlers fail and whatever the connection did before: a server that
      arrives has sent its ChangeCipherSpec and Finished and received a Finished, the client first unless
      the session was resumed, and before that Finished a ChangeCipherSpec had come, if only one that
      came before the handshake and had left its flag set. */
  lemma {:induction false} ServerSafety(start: Server, inputs: seq<Input>)
    requires IsStart(start) && Arrives(start, inputs)
    ensures var s := Run(start, inputs);
      && Marks(s.box.log) == MarksAt(Done, s.hit) && Preceded(start.box.ccs, s.box.log)
      && (!s.hit && !start.box.ccs ==> PeerFirst(s.box.log))
      && (s.hit && !start.box.ccs && !start.box.ccsOk ==> OwnFirst(s.box.log))
  {
    StartFits(start);
    RunKeeps(PastOf(start), start, inputs);
  }

  // ---- what a flag that was left set can do ---------------------------------------------------

  /** A run in which nothing goes wrong; the ChangeCipherSpec comes with the ClientHello, or not at all. */
  function Smooth(resumes: bool, ccs: bool): Input {
    Input(ccs, true, true, true, true, true, true, resumes, false, false, false, true, false, false, false, true, false)
  }

  /** The first read forgets a message that had been put back. */
  const NOTHING: Input := Smooth(false, false).(arrived := false, works := false)

  function Repeat(e: Input, k: nat): seq<Input> { seq(k, _ => e) }

  function After(s: Server, e: Input, k: nat): Server
    decreases k
  {
    if k == 0 then s else After(Step(s, e), e, k - 1)
  }

  lemma {:induction false} RunRepeat(s: Server, e: Input, k: nat)
    ensures Run(s, Repeat(e, k)) == After(s, e, k)
    decreases k
  {
    if k > 0 {
      assert Repeat(e, k)[1..] == Repeat(e, k - 1);
      RunRepeat(Step(s, e), e, k - 1);
    }
  }

  lemma {:induction false} RunAppend(s: Server, a: seq<Input>, b: seq<Input>)
    ensures Run(s, a + b) == Run(Run(s, a), b)
    decreases |a|
  {
    if a == [] {
      assert a + b == b;
    } else {
      assert (a + b)[1..] == a[1..] + b;
      RunAppend(Step(s, a[0]), a[1..], b);
    }
  }

  /** To the ClientHello, with nothing put back. */
  lemma {:induction false} Begins(start: Server, resumes: bool) returns (s: Server)
    requires IsStart(start) && start.state.Before?
    ensures s == Run(start, [Smooth(resumes, false), NOTHING])
    ensures s.state.SrClntHello? && !s.box.reuse
    ensures s.box.log == [] && s.box.ccs == start.box.ccs && s.box.ccsOk == start.box.ccsOk
  {
    var s1 := Step(start, Smooth(resumes, false));
    s := Step(s1, NOTHING);
    assert [Smooth(resumes, false), NOTHING][1..] == [NOTHING] && [NOTHING][1..] == [];
    assert Run(s1, [NOTHING]) == Run(s, []);
  }

  /** From the ServerHello of a resumed handshake to its end. */
  lemma {:induction false} ResumedRest(s: Server)
    requires s.state.SwSrvrHello? && s.hit && s.box.ccs && !s.box.reuse
    ensures var t := After(s, Smooth(true, false), 5);
      t.state.Ok? && t.newSession == 2 && t.hit && t.box.log == s.box.log + [OwnCcs] + [OwnFinished] + [PeerFinished]
  {
    var e := Smooth(true, false);
    var s2 := Step(Step(s, e), e);
    assert s2.state.SwFinished? && s2.box == s.box.(log := s.box.log + [OwnCcs]) && s2.hit && s2.newSession == 2;
    var s4 := Step(Step(s2, e), e);
    assert s4.state.SrFinished? && s4.box == s2.box.(log := s2.box.log + [OwnFinished]);
    assert After(s4, e, 1) == Step(s4, e);
    assert After(s2, e, 3) == After(s4, e, 1);
  }

  /** A flag that was left set lets a resumed handshake end with the client's ChangeCipherSpec ahead of
      the server's. */
  lemma {:induction false} TooEarly(start: Server) returns (inputs: seq<Input>)
    requires IsStart(start) && start.state.Before? && (start.box.ccs || start.box.ccsOk)
    ensures Arrives(start, inputs) && Run(start, inputs).hit && !OwnFirst(Run(start, inputs).box.log)
  {
    var first := [Smooth(true, false), NOTHING];
    var s2 := Begins(start, true);
    var rest := [Smooth(true, true)] + Repeat(Smooth(true, false), 5);
    EarlyCcs(s2);
    inputs := first + rest;
    RunAppend(start, first, rest);
  }

  /** The ChangeCipherSpec comes with the ClientHello, or had come before it. */
  lemma {:induction false} EarlyCcs(s: Server)
    requires s.state.SrClntHello? && !s.box.reuse && (s.box.ccs || s.box.ccsOk)
    ensures var t := Run(s, [Smooth(true, true)] + Repeat(Smooth(true, false), 5));
      t.state.Ok? && t.newSession == 2 && t.hit && !OwnFirst(t.box.log)
  {
    var e := Smooth(true, false);
    var s3 := Step(s, Smooth(true, true));
    ResumedRest(s3);
    RunRepeat(s3, e, 5);
    assert ([Smooth(true, true)] + Repeat(e, 5))[1..] == Repeat(e, 5);
    var log := After(s3, e, 5).box.log;
    assert !GuardedAt(log, |log| - 1);
  }

  /** From the ClientHello to the end of the server's first flight. */
  lemma {:induction false} FirstFlight(s: Server)
    requires s.state.SrClntHello? && !s.box.reuse
    ensures var t := After(s, Smooth(false, false), 7);
      t.state.SrCert? && !t.hit && t.newSession == 2 && !t.box.reuse && t.box.log == s.box.log && t.box.ccs == s.box.ccs
  {
    var e := Smooth(false, false);
    var s2 := Step(Step(s, e), e);
    assert s2.state.SwCert? && !s2.hit && s2.newSession == 2;
    var s4 := Step(Step(s2, e), e);
    assert s4.state.SwCertReq?;
    var s6 := Step(Step(s4, e), e);
    assert s6.state.SwFlush? && s6.next.SrCert?;
    assert After(s6, e, 1) == Step(s6, e);
    assert After(s4, e, 3) == After(s6, e, 1) && After(s2, e, 5) == After(s4, e, 3);
  }

  /** From the client's certificate to the end, without a ChangeCipherSpec of the client. */
  lemma {:induction false} SecondFlight(s: Server)
    requires s.state.SrCert? && !s.hit && s.newSession == 2 && !s.box.reuse && s.box.ccs
    ensures var t := After(s, Smooth(false, false), 6);
      t.state.Ok? && t.newSession == 2 && !t.hit && t.box.log == s.box.log + [PeerFinished] + [OwnCcs] + [OwnFinished]
  {
    var e := Smooth(false, false);
    var s2 := Step(Step(s, e), e);
    assert s2.state.SrFinished? && !s2.hit && s2.box.ccs && !s2.box.reuse && s2.box.log == s.box.log;
    var s4 := Step(Step(s2, e), e);
    assert s4.state.SwFinished? && s4.box.log == s.box.log + [PeerFinished] + [OwnCcs];
    var s6 := Step(Step(s4, e), e);
    assert After(s4, e, 2) == s6 && After(s2, e, 4) == After(s4, e, 2);
  }

  /** The flag of a ChangeCipherSpec itself lets a full handshake end without one. */
  lemma {:induction false} NoneAtAll(start: Server) returns (inputs: seq<Input>)
    requires IsStart(start) && start.state.Before? && start.box.ccs
    ensures Arrives(start, inputs) && !Run(start, inputs).hit && !PeerFirst(Run(start, inputs).box.log)
  {
    var e := Smooth(false, false);
    var first := [Smooth(false, false), NOTHING];
    var s2 := Begins(start, false);
    FirstFlight(s2);
    SecondFlight(After(s2, e, 7));
    var s9, s15 := After(s2, e, 7), After(After(s2, e, 7), e, 6);
    RunRepeat(s2, e, 7);
    RunRepeat(s9, e, 6);
    RunAppend(s2, Repeat(e, 7), Repeat(e, 6));
    var rest := Repeat(e, 7) + Repeat(e, 6);
    assert Run(s2, rest) == s15;
    inputs := first + rest;
    RunAppend(start, first, rest);
    assert Run(start, inputs) == s15 && s15.box.log[0] == PeerFinished;
    assert !GuardedAt(s15.box.log, 0);
  }

  /** Exactly which connections keep the order of a resumed handshake over every run: those that come
      to it with both flags clear. */
  lemma {:induction false} ResumedSafeIff(start: Server)
    requires IsStart(start) && start.state.Before?
    ensures (forall inputs | Arrives(start, inputs) && Run(start, inputs).hit :: OwnFirst(Run(start, inputs).box.log))
            <==> !start.box.ccs && !start.box.ccsOk
  {
    if start.box.ccs || start.box.ccsOk {
      var inputs := TooEarly(start);
    } else {
      forall inputs | Arrives(start, inputs) && Run(start, inputs).hit
        ensures OwnFirst(Run(start, inputs).box.log)
      {
        ServerSafety(start, inputs);
      }
    }
  }

  /** And of a full one: those that come to it with no ChangeCipherSpec pending. */
  lemma {:induction false} FullSafeIff(start: Server)
    requires IsStart(start) && start.state.Before?
    ensures (forall inputs | Arrives(start, inputs) && !Run(start, inputs).hit :: PeerFirst(Run(start, inputs).box.log))
            <==> !start.box.ccs
  {
    if start.box.ccs {
      var inputs := NoneAtAll(start);
    } else {
      forall inputs | Arrives(start, inputs) && !Run(start, inputs).hit
        ensures PeerFirst(Run(start, inputs).box.log)
      {
        ServerSafety(start, inputs);
      }
    }
  }

  predicate Asks(s: Server) {
    s.state.Renegotiate? || (IsRequest(s.state) && s.newSession == 1) || (s.state.Ok? && s.newSession != 2)
    || (s.state.SwFlush? && s.next.SwHelloReqDone? && s.newSession == 1)
  }

  /** A server that has been told to renegotiate only asks for it. */
  lemma {:induction false} AskingNeverArrives(s: Server, inputs: seq<Input>)
    requires Asks(s)
    ensures Asks(Run(s, inputs)) && !Arrives(s, inputs)
    decreases |inputs|
  {
    if inputs != [] {
      assert Asks(Step(s, inputs[0]));
      AskingNeverArrives(Step(s, inputs[0]), inputs[1..]);
    }
  }

  /** An ordinary full handshake, without a client certificate, leaves the second flag set: the
      ChangeCipherSpec is taken while the CertificateVerify is awaited, and the flag set again for the
      Finished. */
  lemma {:induction false} FlagStaysSet(s: Server, e1: Input, e2: Input)
    requires s.state.SrCertVrfy? && !s.box.reuse && e1.ccs && e1.arrived && e1.isFinished && e1.works && e1.putBack
    requires e2.digestMatches
    ensures var t := Step(Step(s, e1), e2);
      !t.state.SrFinished? && !t.box.ccs && t.box.ccsOk
  {
    var s1 := Step(s, e1);
    assert s1.state.SrFinished? && s1.box.ccs && s1.box.reuse && s1.box.finished;
  }

  lemma {:induction false} RunSnoc(s: Server, inputs: seq<Input>, e: Input)
    ensures Run(s, inputs + [e]) == Step(Run(s, inputs), e)
    decreases |inputs|
  {
    if inputs == [] {
      assert [] + [e] == [e] && [e][1..] == [];
    } else {
      assert (inputs + [e])[1..] == inputs[1..] + [e];
      RunSnoc(Step(s, inputs[0]), inputs[1..], e);
    }
  }

  // ---- how long it takes ----------------------------------------------------------------------

  /** Turns that are left, at most, if no handler fails and the server is not sent back. */
  function Left(s: Server): nat {
    if s.state.SwFlush? then 1 + LeftAt(s.next, s.hit) else LeftAt(s.state, s.hit)
  }

  function LeftAt(w: Where, hit: bool): nat {
    match w
    case SwHelloVerify => 18
    case Before => 17
    case SrClntHello => 16
    case SwSrvrHello => 15
    case SwCert => 14
    case SwCertStatus => 13
    case SwKeyExch => 12
    case SwCertReq => 11
    case SwSrvrDone => 10
    case SrCert => 8
    case SrKeyExch => 7
    case SrCertVrfy => 6
    case SrFinished => if hit then 1 else 5
    case SwSessionTicket => if hit then 5 else 4
    case SwChange => if hit then 4 else 3
    case SwFinished => if hit then 3 else 2
    case Renegotiate => 4
    case SwHelloReq => 3
    case SwHelloReqDone => 1
    case SwFlush | Ok => 0
  }

  /** A ClientHello without a valid cookie is answered with one. */
  predicate SendsCookie(s: Server, e: Input) { s.state.SrClntHello? && Succeeds(s, e) && e.freshCookie }

  /** A second ClientHello comes where the certificate of the client is due. */
  predicate StartsOver(s: Server, e: Input) { s.state.SrCert? && Succeeds(s, e) && e.secondHello }

  lemma {:induction false} ControlKeeps(s: Server, e: Input)
    requires ControlFits(s)
    ensures ControlFits(Step(s, e))
  {
    if StageOf(s.state).Early? {
      EarlyShape(s, e);
    }
  }

  ghost predicate LeftFits(s: Server, e: Input, t: Server) {
    if SendsCookie(s, e) then Left(t) == Left(s) + 2
    else if StartsOver(s, e) then Left(t) == Left(s) + 8
    else Left(t) < Left(s)
  }

  lemma {:induction false} LeftGoesDown(s: Server, e: Input)
    requires ControlFits(s) && Succeeds(s, e) && !s.state.Ok?
    ensures LeftFits(s, e, Step(s, e))
  {
    if StageOf(s.state).Early? {
      EarlyLeft(s, e);
    }
  }

  lemma {:induction false} EarlyLeft(s: Server, e: Input)
    requires StageOf(s.state).Early? && ControlFits(s) && Succeeds(s, e)
    ensures LeftFits(s, e, Step(s, e))
  {
  }

  /** Nothing fails, and the server does not arrive before the end. */
  ghost predicate AllSucceed(s: Server, inputs: seq<Input>)
    decreases |inputs|
  {
    inputs == [] || (!s.state.Ok? && Succeeds(s, inputs[0]) && AllSucceed(Step(s, inputs[0]), inputs[1..]))
  }

  function Cookies(s: Server, inputs: seq<Input>): nat
    decreases |inputs|
  {
    if inputs == [] then 0
    else (if SendsCookie(s, inputs[0]) then 1 else 0) + Cookies(Step(s, inputs[0]), inputs[1..])
  }

  function SecondHellos(s: Server, inputs: seq<Input>): nat
    decreases |inputs|
  {
    if inputs == [] then 0
    else (if StartsOver(s, inputs[0]) then 1 else 0) + SecondHellos(Step(s, inputs[0]), inputs[1..])
  }

  lemma {:induction false} TurnsBound(s: Server, inputs: seq<Input>)
    requires ControlFits(s) && AllSucceed(s, inputs)
    ensures |inputs| + Left(Run(s, inputs)) <= Left(s) + 3 * Cookies(s, inputs) + 9 * SecondHellos(s, inputs)
    decreases |inputs|
  {
    if inputs != [] {
      LeftGoesDown(s, inputs[0]);
      ControlKeeps(s, inputs[0]);
      TurnsBound(Step(s, inputs[0]), inputs[1..]);
    }
  }

  /** When no handler fails the server arrives, within 17 turns, three more for every cookie it sends and nine
      more for every second ClientHello. */
  lemma {:induction false} ServerArrives(start: Server, inputs: seq<Input>)
    requires IsStart(start) && AllSucceed(start, inputs)
    ensures |inputs| + Left(Run(start, inputs))
            <= 17 + 3 * Cookies(start, inputs) + 9 * SecondHellos(start, inputs)
    ensures Left(Run(start, inputs)) == 0 <==> Run(start, inputs).state.Ok?
  {
    TurnsBound(start, inputs);
    ControlRuns(start, inputs);
  }

  lemma {:induction false} ControlRuns(s: Server, inputs: seq<Input>)
    requires ControlFits(s)
    ensures ControlFits(Run(s, inputs))
    decreases |inputs|
  {
    if inputs != [] {
      ControlKeeps(s, inputs[0]);
      ControlRuns(Step(s, inputs[0]), inputs[1..]);
    }
  }

  /** A ClientHello without a cookie. */
  const NO_COOKIE: Input := Smooth(false, false).(freshCookie := true)

  lemma {:induction false} Unfold(s: Server, e: Input, k: nat)
    requires k > 0
    ensures Run(s, Repeat(e, k)) == Run(Step(s, e), Repeat(e, k - 1))
    ensures AllSucceed(s, Repeat(e, k))
            <==> !s.state.Ok? && Succeeds(s, e) && AllSucceed(Step(s, e), Repeat(e, k - 1))
    ensures Cookies(s, Repeat(e, k))
         == (if SendsCookie(s, e) then 1 else 0) + Cookies(Step(s, e), Repeat(e, k - 1))
  {
    assert Repeat(e, k)[1..] == Repeat(e, k - 1);
  }

  lemma {:induction false} CookieCircle(s: Server, k: nat)
    requires s.state.SrClntHello? && !s.box.reuse
    ensures var inputs := Repeat(NO_COOKIE, 3 * k);
      && AllSucceed(s, inputs) && Cookies(s, inputs) == k
      && Run(s, inputs).state.SrClntHello?
    decreases k
  {
    if k > 0 {
      var e := NO_COOKIE;
      var s1 := Step(s, e);
      var s2 := Step(s1, e);
      assert s1.state.SwHelloVerify? && s2.state.SwFlush? && s2.next.SrClntHello?;
      Unfold(s, e, 3 * k);
      Unfold(s1, e, 3 * k - 1);
      Unfold(s2, e, 3 * k - 2);
      CookieCircle(Step(s2, e), k - 1);
    }
  }

  /** Without a bound on the cookies there is none on the turns, though no handler ever fails. */
  lemma {:induction false} ServerCircles(start: Server, k: nat)
    requires IsStart(start) && start.state.Before? && !start.box.reuse
    ensures var inputs := Repeat(NO_COOKIE, 1 + 3 * k);
      && |inputs| == 1 + 3 * k && AllSucceed(start, inputs)
      && Cookies(start, inputs) == k && Run(start, inputs).state.SrClntHello?
  {
    Unfold(start, NO_COOKIE, 1 + 3 * k);
    CookieCircle(Step(start, NO_COOKIE), k);
  }

  // ---- the code -------------------------------------------------------------------------------

  class Connection {
    var state: Where
    var nextState: Where
    var hit: bool
    var newSession: int
    var changeCipherSpec: bool
    var changeCipherSpecOk: bool
    var reuseMessage: bool
    var messageIsFinished: bool
    ghost var log: Log

    ghost function Box(): Inbox
      reads this
    {
      Inbox(changeCipherSpec, changeCipherSpecOk, reuseMessage, messageIsFinished, log)
    }

    ghost function Abs(): Server
      reads this
    {
      Server(state, nextState, hit, newSession, Box())
    }

    /** `hit` and the two flags are what the last handshake has left, all clear on a new connection. */
    constructor (renegotiate: bool, hit: bool, changeCipherSpec: bool, changeCipherSpecOk: bool)
      ensures IsStart(Abs()) && state.Renegotiate? == renegotiate
      ensures Box().ccs == changeCipherSpec && Box().ccsOk == changeCipherSpecOk
    {
      state := if renegotiate then Renegotiate else Before;
      nextState, this.hit, newSession := Before, hit, if renegotiate then 1 else 0;
      this.changeCipherSpec, this.changeCipherSpecOk := changeCipherSpec, changeCipherSpecOk;
      reuseMessage, messageIsFinished, log := false, false, [];
    }

    /** The reader, as far as the loop depends on it. */
    method GetMessage(e: Input) returns (ok: bool)
      modifies this`changeCipherSpec, this`changeCipherSpecOk, this`reuseMessage, this`messageIsFinished, this`log
      ensures Box() == Receive(old(Box()), e)
      ensures ok == HasMessage(old(Box()), e)
    {
      if reuseMessage {
        reuseMessage := false;
        return true;
      }
      if e.ccs && changeCipherSpecOk {
        changeCipherSpecOk := false;
        changeCipherSpec := true;
        log := log + [PeerCcs];
      }
      messageIsFinished := e.isFinished;
      return e.arrived;
    }

    /** The handlers that read and are left abstract. */
    method Read(e: Input) returns (ok: bool)
      modifies this`changeCipherSpec, this`changeCipherSpecOk, this`reuseMessage, this`messageIsFinished, this`log
      ensures Box() == Receive(old(Box()), e).(reuse := e.putBack)
      ensures ok == (HasMessage(old(Box()), e) && e.works)
    {
      ok := GetMessage(e);
      reuseMessage := e.putBack;
      ok := ok && e.works;
    }

    method GetFinished(e: Input) returns (ok: bool)
      modifies this`changeCipherSpec, this`changeCipherSpecOk, this`reuseMessage, this`messageIsFinished, this`log
      ensures Box() == Taken(old(Box()), e)
      ensures ok == (Takes(old(Box()), e) && e.digestMatches)
    {
      ok := GetMessage(e);
      if !ok {
        return;
      }
      if !messageIsFinished || !changeCipherSpec {
        return false;
      }
      changeCipherSpec := false;
      if !e.digestMatches {
        return false;
      }
      log := log + [PeerFinished];
    }

    /** One turn of the loop: the switch on the state. */
    method Turn(e: Input) returns (ret: Ret)
      modifies this
      ensures Abs() == Step(old(Abs()), e) && ret == RetOf(old(Abs()), e)
    {
      if state.Before? || state.Renegotiate? || IsRequest(state) || state.SwHelloVerify? || state.SwSrvrHello? {
        ret := GreetingTurn(e);
      } else if state.SrClntHello? || state.SrCert? || state.SrKeyExch? || state.SrCertVrfy? {
        ret := ReadingTurn(e);
      } else if StageOf(state).Early? {
        ret := FlightTurn(e);
      } else {
        ret := LastTurns(e);
      }
    }

    method GreetingTurn(e: Input) returns (ret: Ret)
      requires state.Before? || state.Renegotiate? || IsRequest(state) || state.SwHelloVerify? || state.SwSrvrHello?
      modifies this
      ensures Abs() == Step(old(Abs()), e) && ret == RetOf(old(Abs()), e)
    {
      if state.SwHelloReqDone? {
        state := Ok;
        return Goes;
      }
      if state.Renegotiate? {
        newSession := 1;
      } else if state.SwSrvrHello? {
        newSession := 2;
      }
      if !e.works {
        return Returns(-1);
      }
      if state.Before? {
        state := SrClntHello;
      } else if state.Renegotiate? {
        state := SwHelloReq;
      } else if state.SwHelloReq? {
        nextState := SwHelloReqDone;
        state := SwFlush;
      } else if state.SwHelloVerify? {
        state := SwFlush;
        nextState := SrClntHello;
      } else if hit {
        state := if e.ticketExpected then SwSessionTicket else SwChange;
      } else {
        state := SwCert;
      }
      return Goes;
    }

    method ReadingTurn(e: Input) returns (ret: Ret)
      requires Reads(Abs())
      modifies this
      ensures Abs() == Step(old(Abs()), e) && ret == RetOf(old(Abs()), e)
    {
      if state.SrClntHello? {
        ret := HelloTurn(e);
        return;
      } else if state.SrCert? {
        ret := CertTurn(e);
        return;
      } else if state.SrKeyExch? {
        ret := KeyExchTurn(e);
        return;
      } else {
        ret := VerifyTurn(e);
        return;
      }
    }

    method HelloTurn(e: Input) returns (ret: Ret)
      requires state.SrClntHello?
      modifies this
      ensures Abs() == Step(old(Abs()), e) && ret == RetOf(old(Abs()), e)
    {
      var ready := reuseMessage || e.arrived;
      var ok := Read(e);
      if ready {
        hit := e.resumes;
      }
      if !ok {
        return Returns(-1);
      }
      state := if e.freshCookie then SwHelloVerify else SwSrvrHello;
      return Goes;
    }

    method CertTurn(e: Input) returns (ret: Ret)
      requires state.SrCert?
      modifies this
      ensures Abs() == Step(old(Abs()), e) && ret == RetOf(old(Abs()), e)
    {
      var second := (reuseMessage || e.arrived) && e.secondHello;
      var ok := Read(e);
      if second {
        reuseMessage := true;
        state := SrClntHello;
      } else if !ok {
        return Returns(-1);
      } else {
        state := SrKeyExch;
      }
      return Goes;
    }

    method KeyExchTurn(e: Input) returns (ret: Ret)
      requires state.SrKeyExch?
      modifies this
      ensures Abs() == Step(old(Abs()), e) && ret == RetOf(old(Abs()), e)
    {
      var ok := Read(e);
      if !ok {
        return Returns(-1);
      }
      state := if e.noVerify then SrFinished else SrCertVrfy;
      return Goes;
    }

    method VerifyTurn(e: Input) returns (ret: Ret)
      requires state.SrCertVrfy?
      modifies this
      ensures Abs() == Step(old(Abs()), e) && ret == RetOf(old(Abs()), e)
    {
      ghost var s := Abs();
      changeCipherSpecOk := true;
      assert Box() == Ready(s);
      var ok := Read(e);
      assert Box() == BoxAfter(s, e) && ok == Succeeds(s, e);
      if !ok {
        return Returns(-1);
      }
      state := SrFinished;
      return Goes;
    }

    /** The messages from the certificate to the end of the first flight. */
    method FlightTurn(e: Input) returns (ret: Ret)
      requires state.SwCert? || state.SwCertStatus? || state.SwKeyExch? || state.SwCertReq? || state.SwSrvrDone?
      modifies this
      ensures Abs() == Step(old(Abs()), e) && ret == RetOf(old(Abs()), e)
    {
      var sends := if state.SwCert? then !e.anonymous else if state.SwKeyExch? then e.sendsKeys
                   else if state.SwCertReq? then e.asksCert else true;
      if sends && !e.works {
        return Returns(-1);
      }
      if state.SwCert? {
        state := if sends && e.statusExpected then SwCertStatus else SwKeyExch;
      } else if state.SwCertStatus? {
        state := SwKeyExch;
      } else if state.SwKeyExch? {
        state := SwCertReq;
      } else if state.SwCertReq? {
        state := SwSrvrDone;
      } else {
        nextState := SrCert;
        state := SwFlush;
      }
      return Goes;
    }

    method LastTurns(e: Input) returns (ret: Ret)
      requires !StageOf(state).Early? && !state.SrCertVrfy?
      modifies this
      ensures Abs() == Step(old(Abs()), e) && ret == RetOf(old(Abs()), e)
    {
      if state.SrFinished? {
        ret := FinishedTurn(e);
        return;
      }
      if state.Ok? {
        if newSession == 2 {
          newSession := 0;
        }
        return Returns(1);
      }
      if state.SwChange? && !e.keyBlock {
        return Returns(-1);
      }
      if !e.works {
        return Returns(-1);
      }
      if state.SwFlush? {
        state := nextState;
      } else if state.SwSessionTicket? {
        state := SwChange;
      } else if state.SwChange? {
        log := log + [OwnCcs];
        state := SwFinished;
        return if e.cipherChanges then Goes else Returns(-1);
      } else {
        log := log + [OwnFinished];
        state := SwFlush;
        nextState := if hit then SrFinished else Ok;
      }
      return Goes;
    }

    method FinishedTurn(e: Input) returns (ret: Ret)
      requires state.SrFinished?
      modifies this
      ensures Abs() == Step(old(Abs()), e) && ret == RetOf(old(Abs()), e)
    {
      ghost var s := Abs();
      changeCipherSpecOk := true;
      assert Box() == Ready(s);
      var ok := GetFinished(e);
      assert Box() == BoxAfter(s, e) && ok == Succeeds(s, e);
      if !ok {
        return Returns(-1);
      }
      state := if hit then Ok else if e.ticketExpected then SwSessionTicket else SwChange;
      return Goes;
    }

    /** The loop, which takes turns until one returns. */
    method Accept(inputs: seq<Input>) returns (ret: Ret, used: nat)
      modifies this
      ensures used <= |inputs| && Abs() == Run(old(Abs()), inputs[..used])
      ensures ret.Goes? ==> used == |inputs|
      ensures IsStart(old(Abs())) && state.Ok? && newSession == 2 ==>
        Marks(log) == MarksAt(Done, hit) && Preceded(old(changeCipherSpec), log)
      ensures IsStart(old(Abs())) && state.Ok? && newSession == 2 && !hit && !old(changeCipherSpec) ==> PeerFirst(log)
      ensures IsStart(old(Abs())) && state.Ok? && newSession == 2 && hit ==>
        !old(changeCipherSpec) && !old(changeCipherSpecOk) ==> OwnFirst(log)
    {
      used := 0;
      ret := Goes;
      while ret.Goes? && used < |inputs|
        invariant used <= |inputs| && Abs() == Run(old(Abs()), inputs[..used])
      {
        ret := Turn(inputs[used]);
        RunSnoc(old(Abs()), inputs[..used], inputs[used]);
        assert inputs[..used] + [inputs[used]] == inputs[..used + 1];
        used := used + 1;
      }
      if IsStart(old(Abs())) && state.Ok? && newSession == 2 {
        ServerSafety(old(Abs()), inputs[..used]);
      }
    }
  }
}
