/**
 The client's handshake loops, dtls1_connect and ssl3_connect, with the handlers that decide where
 they go (d1_clnt.c, s3_clnt.c, s3_both.c, d1_pkt.c). Every other handler succeeds or exits. A state
 of the model is a pair of states of the code, before and within the handler; a run goes on over any
 number of calls, since an exit keeps the state.
 */
module HandshakeClient {
  import opened Handshake

  datatype Where =
    | Before | CwClntHello | CrSrvrHello | CrHelloVerify | CrCert | CrCertStatus | CrKeyExch | CrCertReq
    | CrSrvrDone | CwCert | CwKeyExch | CwCertVrfy | CwChange | CwFinished | CwFlush | CrSessionTicket
    | CrFinished | Cutthrough | Ok

  datatype Message = HelloVerifyRequest | ServerHello | NewSessionTicket | Finished | AnyOther

  /** What one turn of the loop meets: the wire, the outcome of handlers, and the flags they leave. */
  datatype Input = Input(
    ccs: bool,             // a ChangeCipherSpec record comes in before the message
    arrived: bool,         // the message is there
    message: Message,      // its type
    works: bool,           // the handler succeeds otherwise
    keysWork: bool,        // what the loop calls after the handler succeeds: key block, certificate check
    digestMatches: bool,
    sameSession: bool,     // the server named the session offered
    hasTicket: bool,       // session->tlsext_tick
    ticketExpected: bool, statusExpected: bool, anonymous: bool,
    certAsked: bool,       // cert_req is not 0
    certHeld: bool,        // cert_req is 1
    skipVerify: bool,      // TLS1_FLAGS_SKIP_CERT_VERIFY
    cutThrough: bool,      // all that ssl3_connect asks for cut-through
    delayFinished: bool,   // SSL3_FLAGS_DELAY_CLIENT_FINISHED
    putBack: bool)         // the handler leaves the message for the next one

  /** What reading changes. */
  datatype Inbox = Inbox(ccs: bool, ccsOk: bool, reuse: bool, message: Message, log: Log)

  datatype Client = Client(dtls: bool, state: Where, next: Where, hit: bool, sendCookie: bool, box: Inbox)

  /** A new connection. */
  function Start(dtls: bool): Client {
    Client(dtls, Before, Before, false, false, Inbox(false, false, false, AnyOther, []))
  }

  /** A connection about to shake hands, for the first time or again. Everything else is as the handshake
      before has left it; the log is that of this handshake. */
  predicate IsStart(c: Client) { c.state.Before? && c.box.log == [] }

  // ---- one turn, field by field ---------------------------------------------------------------

  /** get_message: the message put back, or the next one; DTLS drops a ChangeCipherSpec it is not ready for. */
  function Receive(dtls: bool, b: Inbox, e: Input): Inbox {
    if b.reuse then b.(reuse := false)
    else if e.ccs && (!dtls || b.ccsOk) then
      Inbox(true, if dtls then false else b.ccsOk, false, e.message, b.log + [PeerCcs])
    else b.(message := e.message)
  }

  predicate HasMessage(b: Inbox, e: Input) { b.reuse || e.arrived }

  function Type(b: Inbox, e: Input): Message { if b.reuse then b.message else e.message }

  /** A HelloVerifyRequest instead of the ServerHello is left to the next handler, but not once a
      cookie was sent. */
  predicate Peeks(c: Client, e: Input) {
    c.dtls && HasMessage(c.box, e) && Type(c.box, e).HelloVerifyRequest? && !c.sendCookie
  }

  predicate SeesServerHello(c: Client, e: Input) { HasMessage(c.box, e) && Type(c.box, e).ServerHello? }

  /** ssl3_check_finished: a server that was offered a ticket shows that it resumes. */
  predicate Resumes(c: Client, e: Input) {
    e.hasTicket && HasMessage(c.box, e) && (Type(c.box, e).Finished? || Type(c.box, e).NewSessionTicket?)
  }

  /** ssl3_get_finished accepts the message only after a ChangeCipherSpec. */
  predicate Takes(dtls: bool, b: Inbox, e: Input) {
    HasMessage(b, e) && Type(b, e).Finished? && Receive(dtls, b, e).ccs
  }

  function Taken(dtls: bool, b: Inbox, e: Input): Inbox {
    var d := Receive(dtls, b, e);
    if !Takes(dtls, b, e) then d
    else if !e.digestMatches then d.(ccs := false)
    else d.(ccs := false, log := d.log + [PeerFinished])
  }

  /** From here on DTLS accepts a ChangeCipherSpec. */
  function Ready(c: Client): Inbox { if c.dtls then c.box.(ccsOk := true) else c.box }

  /** The handler of the state succeeds. */
  predicate Succeeds(c: Client, e: Input) {
    match c.state
    case CrSrvrHello => Peeks(c, e) || (SeesServerHello(c, e) && e.works)
    case CrHelloVerify => HasMessage(c.box, e) && (Type(c.box, e).HelloVerifyRequest? ==> e.works)
    case CrCert =>
      (e.hasTicket ==> HasMessage(c.box, e)) &&
      (Resumes(c, e) || e.anonymous || (HasMessage(c.box, e) && e.works))
    case CrCertStatus | CrKeyExch | CrCertReq | CrSrvrDone | CrSessionTicket => HasMessage(c.box, e) && e.works
    case CrFinished => Takes(c.dtls, Ready(c), e) && e.digestMatches
    case Cutthrough | Ok => true
    case _ => e.works
  }

  function EndOfFlight(e: Input): Where { if e.ticketExpected then CrSessionTicket else CrFinished }

  /** The state after a handler that succeeds. */
  function Target(c: Client, e: Input): Where {
    match c.state
    case Before => CwClntHello
    case CwClntHello => if c.dtls && c.sendCookie then CwFlush else CrSrvrHello
    case CrSrvrHello => if HitAfter(c, e) then CrFinished else if c.dtls then CrHelloVerify else CrCert
    case CrHelloVerify => if Type(c.box, e).HelloVerifyRequest? then CwClntHello else CrCert
    case CrCert =>
      if Resumes(c, e) then EndOfFlight(e)
      else if !e.anonymous && e.statusExpected then CrCertStatus else CrKeyExch
    case CrCertStatus => CrKeyExch
    case CrKeyExch => CrCertReq
    case CrCertReq => CrSrvrDone
    case CrSrvrDone => if e.certAsked then CwCert else CwKeyExch
    case CwCert => CwKeyExch
    case CwKeyExch => if e.certHeld && (c.dtls || !e.skipVerify) then CwCertVrfy else CwChange
    case CwCertVrfy => CwChange
    case CwChange => CwFinished
    case CwFinished =>
      if e.delayFinished && c.hit then Ok
      else if e.delayFinished && CutsThrough(c, e) then Cutthrough else CwFlush
    case CwFlush => c.next
    case CrSessionTicket => CrFinished
    case CrFinished => if c.hit then CwChange else Ok
    case Cutthrough => EndOfFlight(e)
    case Ok => Ok
  }

  predicate CutsThrough(c: Client, e: Input) { !c.hit && !c.dtls && e.cutThrough }

  function NextAfter(c: Client, e: Input): Where {
    if c.state.CwClntHello? && e.works && c.dtls && c.sendCookie then CrSrvrHello
    else if c.state.CwFinished? && e.works then
      if c.hit then Ok
      else if !CutsThrough(c, e) then EndOfFlight(e)
      else if e.delayFinished then c.next else Cutthrough
    else c.next
  }

  function HitAfter(c: Client, e: Input): bool {
    if c.state.Before? && e.works && c.dtls then false
    else if c.state.CrSrvrHello? && SeesServerHello(c, e) then e.sameSession
    else c.hit || (c.state.CrCert? && Resumes(c, e))
  }

  function CookieAfter(c: Client, e: Input): bool {
    if c.state.Before? && e.works && c.dtls then false
    else if c.state.CrHelloVerify? && Succeeds(c, e) then Type(c.box, e).HelloVerifyRequest?
    else c.sendCookie
  }

  predicate Reads(c: Client, e: Input) {
    match c.state
    case CrSrvrHello | CrHelloVerify | CrCertStatus | CrKeyExch | CrCertReq | CrSrvrDone | CrSessionTicket => true
    case CrCert => e.hasTicket || !e.anonymous
    case _ => false
  }

  /** A message looked at ahead of its turn is put back. */
  predicate PutsBack(c: Client, e: Input) {
    match c.state
    case CrSrvrHello => Peeks(c, e)
    case CrHelloVerify => HasMessage(c.box, e) && !Type(c.box, e).HelloVerifyRequest?
    case CrCert =>
      if e.hasTicket then HasMessage(c.box, e) && (Resumes(c, e) || e.anonymous || e.putBack) else e.putBack
    case _ => e.putBack
  }

  function BoxAfter(c: Client, e: Input): Inbox {
    if Reads(c, e) then Receive(c.dtls, c.box, e).(reuse := PutsBack(c, e))
    else if c.state.CrFinished? then Taken(c.dtls, Ready(c), e)
    else if !e.works then c.box
    else WrittenBox(c, e)
  }

  function WrittenBox(c: Client, e: Input): Inbox {
    match c.state
    case CwKeyExch | CwCertVrfy => if Target(c, e).CwChange? then c.box.(ccs := false) else c.box
    case CwChange => c.box.(log := c.box.log + [OwnCcs])
    case CwFinished => c.box.(log := c.box.log + [OwnFinished])
    case _ => c.box
  }

  /** What ssl3_get_server_hello leaves: whether the session is resumed, what was read, and its success. */
  function HelloOf(c: Client, e: Input): (bool, Inbox, bool) {
    (if SeesServerHello(c, e) then e.sameSession else c.hit,
     Receive(c.dtls, c.box, e).(reuse := Peeks(c, e)),
     Peeks(c, e) || (SeesServerHello(c, e) && e.works))
  }

  function Step(c: Client, e: Input): Client {
    Client(c.dtls, if Succeeds(c, e) then Target(c, e) else c.state, NextAfter(c, e),
           HitAfter(c, e), CookieAfter(c, e), BoxAfter(c, e))
  }

  /** Go on, or return: the key block and the certificates are checked when the state has moved on. */
  datatype Ret = Goes | Returns(r: int)

  function RetOf(c: Client, e: Input): Ret {
    if !Succeeds(c, e) || ((c.state.CrKeyExch? || c.state.CwChange?) && !e.keysWork) then Returns(-1)
    else if c.state.Cutthrough? || c.state.Ok? then Returns(1) else Goes
  }

  function Run(c: Client, inputs: seq<Input>): Client
    decreases |inputs|
  {
    if inputs == [] then c else Run(Step(c, inputs[0]), inputs[1..])
  }

  // ---- safety ---------------------------------------------------------------------------------

  /** What a state stands for. */
  datatype Stage =
    | Hello | Exchange
    | Changing       // own ChangeCipherSpec to send
    | Changed        // own Finished to send
    | Awaiting       // ChangeCipherSpec and Finished of the server to come
    | Done

  function StageOf(w: Where): Stage {
    match w
    case Before | CwClntHello | CrSrvrHello => Hello
    case CwChange => Changing
    case CwFinished => Changed
    case CrSessionTicket | CrFinished | Cutthrough | CwFlush => Awaiting
    case Ok => Done
    case _ => Exchange
  }

  /** The marks that have been logged in a stage. */
  function MarksAt(stage: Stage, hit: bool): seq<Sign> {
    match stage
    case Hello | Exchange => []
    case Changing => if hit then [PeerFinished] else []
    case Changed => if hit then [PeerFinished, OwnCcs] else [OwnCcs]
    case Awaiting => if hit then [] else [OwnCcs, OwnFinished]
    case Done => if hit then [PeerFinished, OwnCcs, OwnFinished] else [OwnCcs, OwnFinished, PeerFinished]
  }

  /** Where the client is, once what is written has been flushed. */
  function Ahead(state: Where, next: Where): Stage { StageOf(if state.CwFlush? then next else state) }

  /** When resumption is settled, and where a flush can lead. */
  predicate ControlFits(state: Where, next: Where, hit: bool) {
    && (Ahead(state, next).Exchange? ==> !hit) && (state.Cutthrough? ==> !hit)
    && (state.CwFlush? ==> FlushFits(next, hit))
  }

  predicate FlushFits(next: Where, hit: bool) {
    match StageOf(next)
    case Hello => next.CrSrvrHello?
    case Awaiting => !hit && !next.CwFlush?
    case Done => hit
    case _ => false
  }

  /** `pending` is the flag of a ChangeCipherSpec as the handshake finds it. It can stand in for one of
      this handshake only when the session is resumed: a full handshake clears it. */
  ghost predicate BoxFits(pending: bool, stage: Stage, hit: bool, b: Inbox) {
    && Marks(b.log) == MarksAt(stage, hit)
    && Preceded(pending, b.log) && (b.ccs ==> pending || PeerCcs in b.log)
    && (Sharp(pending, stage, hit) ==> Guarded(b.log))
    && (Sharp(pending, stage, hit) && (!pending || Cleared(stage, hit)) && b.ccs ==> EndsWithPeerCcs(b.log))
    && (stage.Changing? || stage.Changed? ==> !b.ccs)
  }

  predicate Cleared(stage: Stage, hit: bool) {
    !hit && !stage.Hello? && !stage.Exchange?
  }

  predicate Sharp(pending: bool, stage: Stage, hit: bool) {
    !pending || !hit || stage.Hello? || stage.Exchange? || stage.Awaiting?
  }

  ghost predicate Inv(pending: bool, c: Client) {
    ControlFits(c.state, c.next, c.hit) && BoxFits(pending, Ahead(c.state, c.next), c.hit, c.box)
  }

  /** Reading may log a ChangeCipherSpec of the server, and nothing else. */
  lemma {:induction false} ReceiveKeeps(pending: bool, dtls: bool, b: Inbox, e: Input, stage: Stage, hit: bool)
    requires BoxFits(pending, stage, hit, b) && !stage.Changing? && !stage.Changed?
    ensures BoxFits(pending, stage, hit, Receive(dtls, b, e))
  {
    MarksGrow(b.log, PeerCcs);
    PrecededGrows(pending, b.log, PeerCcs);
  }

  lemma {:induction false} ReadKeeps(pending: bool, c: Client, e: Input, stage: Stage, hit: bool)
    requires BoxFits(pending, stage, hit, c.box) && Reads(c, e) && !stage.Changing? && !stage.Changed?
    ensures BoxFits(pending, stage, hit, BoxAfter(c, e))
  {
    ReceiveKeeps(pending, c.dtls, c.box, e, stage, hit);
  }

  lemma {:induction false} HelloKeeps(pending: bool, c: Client, e: Input)
    requires Inv(pending, c) && StageOf(c.state).Hello?
    ensures Inv(pending, Step(c, e))
  {
    if Reads(c, e) {
      ReadKeeps(pending, c, e, Hello, c.hit);
    }
    HelloControl(c, e);
  }

  lemma {:induction false} HelloControl(c: Client, e: Input)
    requires StageOf(c.state).Hello?
    ensures var d := Step(c, e);
      && ControlFits(d.state, d.next, d.hit)
      && MarksAt(Ahead(d.state, d.next), d.hit) == [] && !Ahead(d.state, d.next).Changing?
  {
  }

  lemma {:induction false} ExchangeControl(c: Client, e: Input)
    requires StageOf(c.state).Exchange? && !c.hit
    ensures var d := Step(c, e);
      && ControlFits(d.state, d.next, d.hit) && !d.state.CwFlush?
      && MarksAt(Ahead(d.state, d.next), d.hit) == []
      && (Ahead(d.state, d.next).Changing? ==> !Reads(c, e) && (c.state.CwKeyExch? || c.state.CwCertVrfy?))
  {
  }

  lemma {:induction false} ExchangeKeeps(pending: bool, c: Client, e: Input)
    requires Inv(pending, c) && StageOf(c.state).Exchange?
    ensures Inv(pending, Step(c, e))
  {
    if Reads(c, e) {
      ReadKeeps(pending, c, e, Exchange, false);
    }
    ExchangeControl(c, e);
  }

  /** Logging the next mark leads to the next stage. */
  lemma {:induction false} MarkKeeps(pending: bool, stage: Stage, hit: bool, b: Inbox, x: Sign, after: Stage)
    requires BoxFits(pending, stage, hit, b) && (x.PeerFinished? ==> b.ccs) && !x.PeerCcs?
    requires MarksAt(after, hit) == MarksAt(stage, hit) + [x] && !after.Hello? && !after.Exchange?
    requires stage.Changing? || stage.Changed? || stage.Awaiting?
    ensures BoxFits(pending, after, hit, b.(ccs := false, log := b.log + [x]))
  {
    MarksGrow(b.log, x);
    PrecededGrows(pending, b.log, x);
  }

  lemma {:induction false} WritesControl(c: Client, e: Input)
    requires c.state.CwChange? || c.state.CwFinished?
    ensures var d := Step(c, e);
      && d.hit == c.hit && ControlFits(d.state, d.next, d.hit)
      && Ahead(d.state, d.next) == (if !e.works then StageOf(c.state) else if c.state.CwChange? then Changed
                                    else if c.hit then Done else Awaiting)
      && d.box == if e.works then c.box.(log := c.box.log + [if c.state.CwChange? then OwnCcs else OwnFinished])
                  else c.box
  {
  }

  lemma {:induction false} ChangingKeeps(pending: bool, c: Client, e: Input)
    requires Inv(pending, c) && c.state.CwChange?
    ensures Inv(pending, Step(c, e))
  {
    MarkKeeps(pending, Changing, c.hit, c.box, OwnCcs, Changed);
    WritesControl(c, e);
  }

  lemma {:induction false} ChangedKeeps(pending: bool, c: Client, e: Input)
    requires Inv(pending, c) && c.state.CwFinished?
    ensures Inv(pending, Step(c, e))
  {
    MarkKeeps(pending, Changed, c.hit, c.box, OwnFinished, if c.hit then Done else Awaiting);
    WritesControl(c, e);
  }

  lemma {:induction false} AwaitingKeeps(pending: bool, c: Client, e: Input)
    requires Inv(pending, c) && StageOf(c.state).Awaiting? && !c.state.CrFinished?
    ensures Inv(pending, Step(c, e))
  {
    if Reads(c, e) {
      ReadKeeps(pending, c, e, Awaiting, c.hit);
    }
  }

  lemma {:induction false} FinishedBoxKeeps(pending: bool, c: Client, e: Input)
    requires BoxFits(pending, Awaiting, c.hit, c.box)
    ensures BoxFits(
      pending,
      if Takes(c.dtls, Ready(c), e) && e.digestMatches then (if c.hit then Changing else Done) else Awaiting,
      c.hit, Taken(c.dtls, Ready(c), e))
  {
    ReceiveKeeps(pending, c.dtls, Ready(c), e, Awaiting, c.hit);
    if Takes(c.dtls, Ready(c), e) {
      MarkKeeps(pending, Awaiting, c.hit, Receive(c.dtls, Ready(c), e), PeerFinished, if c.hit then Changing else Done);
    }
  }

  lemma {:induction false} FinishedControl(c: Client, e: Input)
    requires c.state.CrFinished?
    ensures var d := Step(c, e);
      && d.box == Taken(c.dtls, Ready(c), e) && d.hit == c.hit && ControlFits(d.state, d.next, d.hit)
      && Ahead(d.state, d.next) == if !Succeeds(c, e) then Awaiting else if c.hit then Changing else Done
  {
  }

  lemma {:induction false} FinishedKeeps(pending: bool, c: Client, e: Input)
    requires Inv(pending, c) && c.state.CrFinished?
    ensures Inv(pending, Step(c, e))
  {
    FinishedBoxKeeps(pending, c, e);
    FinishedControl(c, e);
  }

  lemma {:induction false} StepKeeps(pending: bool, c: Client, e: Input)
    requires Inv(pending, c)
    ensures Inv(pending, Step(c, e))
  {
    match StageOf(c.state)
    case Hello => HelloKeeps(pending, c, e);
    case Exchange => ExchangeKeeps(pending, c, e);
    case Changing => ChangingKeeps(pending, c, e);
    case Changed => ChangedKeeps(pending, c, e);
    case Awaiting => if c.state.CrFinished? { FinishedKeeps(pending, c, e); } else { AwaitingKeeps(pending, c, e); }
    case Done =>
  }

  lemma {:induction false} RunKeeps(pending: bool, c: Client, inputs: seq<Input>)
    requires Inv(pending, c)
    ensures Inv(pending, Run(c, inputs))
    decreases |inputs|
  {
    if inputs != [] {
      StepKeeps(pending, c, inputs[0]);
      RunKeeps(pending, Step(c, inputs[0]), inputs[1..]);
    }
  }

  lemma {:induction false} StartFits(c: Client)
    requires IsStart(c)
    ensures Inv(c.box.ccs, c)
  {
    forall i: nat ensures GuardedAt([], i) && PrecededAt(c.box.ccs, [], i) {
    }
  }

  /** Whatever comes in, whichever handlers fail and whatever the connection did before: a client that
      has arrived has sent its own ChangeCipherSpec and Finished and received a Finished of the server.
      After a full handshake its own came first, and then a ChangeCipherSpec of the server. After a
      resumed one those of the server came first, but a ChangeCipherSpec that came before the handshake
      and has left its flag set can have served. */
  lemma {:induction false} ClientSafety(start: Client, inputs: seq<Input>)
    requires IsStart(start) && Run(start, inputs).state.Ok?
    ensures var c := Run(start, inputs);
      && Marks(c.box.log) == MarksAt(Done, c.hit) && Preceded(start.box.ccs, c.box.log)
      && (!c.hit ==> OwnFirst(c.box.log))
      && (c.hit && !start.box.ccs ==> PeerFirst(c.box.log))
  {
    StartFits(start);
    RunKeeps(start.box.ccs, start, inputs);
  }

  /** A run in which a session is resumed and no ChangeCipherSpec comes. */
  function Resuming(m: Message): Input {
    Input(false, true, m, true, true, true, true, false, false, false, false, false, false, false, false, true, false)
  }

  lemma {:induction false} RunThree(c: Client, e: Input)
    ensures Run(c, [e, e, e]) == Step(Step(Step(c, e), e), e)
  {
    var c1 := Step(c, e);
    var c2 := Step(c1, e);
    assert [e, e, e][1..] == [e, e] && [e, e][1..] == [e] && [e][1..] == [];
    assert Run(c1, [e, e]) == Run(c2, [e]);
    assert Run(c2, [e]) == Run(Step(c2, e), []);
  }

  /** What is needed of a client that waits for the ServerHello. */
  predicate AwaitsHello(c: Client, ccs: bool) {
    c.state.CrSrvrHello? && !c.box.reuse && c.box.log == [] && c.box.ccs == ccs
  }

  /** To the ServerHello with nothing put back: the first read takes what was, and a HelloVerifyRequest
      among it leads to a second hello. */
  lemma {:induction false} Begins(start: Client) returns (inputs: seq<Input>)
    requires IsStart(start)
    ensures AwaitsHello(Run(start, inputs), start.box.ccs)
  {
    var hello := Resuming(ServerHello);
    var nothing := hello.(arrived := false, works := false);
    var c2 := Step(Step(start, hello), hello);
    assert c2.state.CrSrvrHello? && c2.box == start.box;
    var c3 := Step(c2, nothing);
    RunTwo(start, hello, hello);
    RunAppend(start, [hello, hello], [nothing]);
    RunOne(c2, nothing);
    if !start.box.reuse {
      inputs := [hello, hello];
    } else if start.dtls && start.box.message.HelloVerifyRequest? {
      assert c3.state.CrHelloVerify? && c3.box.reuse && c3.box.message.HelloVerifyRequest?;
      var c4 := Step(c3, hello);
      assert c4.state.CwClntHello? && c4.sendCookie && c4.dtls;
      var c6 := Step(Step(c4, hello), hello);
      assert AwaitsHello(c6, start.box.ccs);
      RunThree(c3, hello);
      inputs := ([hello, hello] + [nothing]) + [hello, hello, hello];
      RunAppend(start, [hello, hello] + [nothing], [hello, hello, hello]);
    } else {
      assert AwaitsHello(c3, start.box.ccs);
      inputs := [hello, hello] + [nothing];
    }
  }

  lemma {:induction false} RunOne(c: Client, e: Input)
    ensures Run(c, [e]) == Step(c, e)
  {
    assert [e][1..] == [];
    assert Run(Step(c, e), []) == Step(c, e);
  }

  lemma {:induction false} RunTwo(c: Client, d: Input, e: Input)
    ensures Run(c, [d, e]) == Step(Step(c, d), e)
  {
    assert [d, e][1..] == [e];
    RunOne(Step(c, d), e);
  }

  /** With a ChangeCipherSpec pending from before, a resumed handshake ends without one. */
  lemma {:induction false} NoneAtAll(start: Client) returns (inputs: seq<Input>)
    requires IsStart(start) && start.box.ccs
    ensures Run(start, inputs).state.Ok? && Run(start, inputs).hit && !PeerFirst(Run(start, inputs).box.log)
  {
    var first := Begins(start);
    var c2 := Run(start, first);
    var rest := ResumedRest(c2);
    inputs := first + rest;
    RunAppend(start, first, rest);
  }

  /** From the ServerHello that names the session to the end, without a ChangeCipherSpec. */
  lemma {:induction false} ResumedRest(c: Client) returns (inputs: seq<Input>)
    requires AwaitsHello(c, true)
    ensures Run(c, inputs).state.Ok? && Run(c, inputs).hit && !PeerFirst(Run(c, inputs).box.log)
  {
    var hello, finished := Resuming(ServerHello), Resuming(Finished);
    var c3 := Step(c, hello);
    assert c3.state.CrFinished? && c3.hit && c3.box.ccs && !c3.box.reuse && c3.box.log == [];
    RunOne(c, hello);
    FinishedRest(c3);
    inputs := [hello] + [finished, finished, finished];
    RunAppend(c, [hello], [finished, finished, finished]);
  }

  lemma {:induction false} FinishedRest(c: Client)
    requires c.state.CrFinished? && c.hit && c.box.ccs && !c.box.reuse && c.box.log == []
    ensures var t := Run(c, [Resuming(Finished), Resuming(Finished), Resuming(Finished)]);
      t.state.Ok? && t.hit && !PeerFirst(t.box.log)
  {
    var finished := Resuming(Finished);
    var c4 := Step(c, finished);
    assert c4.state.CwChange? && c4.hit && c4.box.log == [PeerFinished];
    var c5 := Step(c4, finished);
    var c6 := Step(c5, finished);
    assert c6.state.Ok? && c6.hit && c6.box.log == [PeerFinished] + [OwnCcs] + [OwnFinished];
    RunThree(c, finished);
    assert !GuardedAt(c6.box.log, 0);
  }

  /** Exactly which connections keep the order of a resumed handshake over every run. */
  lemma {:induction false} ResumedSafeIff(start: Client)
    requires IsStart(start)
    ensures (forall inputs | Run(start, inputs).state.Ok? && Run(start, inputs).hit ::
              PeerFirst(Run(start, inputs).box.log))
            <==> !start.box.ccs
  {
    if start.box.ccs {
      var inputs := NoneAtAll(start);
    } else {
      forall inputs | Run(start, inputs).state.Ok? && Run(start, inputs).hit
        ensures PeerFirst(Run(start, inputs).box.log)
      {
        ClientSafety(start, inputs);
      }
    }
  }

  // ---- how long it takes ----------------------------------------------------------------------

  /** Turns that are left, at most, if no handler fails and the client is not sent back. */
  function Left(c: Client): nat {
    if c.state.CwFlush? then 1 + LeftAt(c.next, c.hit) else LeftAt(c.state, c.hit)
  }

  function LeftAt(w: Where, hit: bool): nat {
    match w
    case Before => 19
    case CwClntHello => 18
    case CrSrvrHello => 16
    case CrHelloVerify => 15
    case CrCert => 14
    case CrCertStatus => 13
    case CrKeyExch => 12
    case CrCertReq => 11
    case CrSrvrDone => 10
    case CwCert => 9
    case CwKeyExch => 8
    case CwCertVrfy => 7
    case CwChange => if hit then 3 else 6
    case CwFinished => if hit then 2 else 5
    case CrSessionTicket => if hit then 5 else 2
    case CrFinished => if hit then 4 else 1
    case Cutthrough => 3
    case CwFlush | Ok => 0
  }

  /** The server sends the client back to its hello with a cookie. */
  predicate SentBack(c: Client, e: Input) {
    c.state.CrHelloVerify? && Succeeds(c, e) && Type(c.box, e).HelloVerifyRequest?
  }

  lemma {:induction false} LeftGoesDown(pending: bool, c: Client, e: Input)
    requires Inv(pending, c) && Succeeds(c, e) && !c.state.Ok?
    ensures if SentBack(c, e) then Left(Step(c, e)) == Left(c) + 3 else Left(Step(c, e)) < Left(c)
  {
    if StageOf(c.state).Exchange? {
      LeftInExchange(c, e);
    } else if StageOf(c.state).Hello? {
      LeftInHello(c, e);
    }
  }

  lemma {:induction false} LeftInHello(c: Client, e: Input)
    requires Succeeds(c, e) && StageOf(c.state).Hello?
    ensures !SentBack(c, e) && Left(Step(c, e)) < Left(c)
  {
  }

  lemma {:induction false} LeftInExchange(c: Client, e: Input)
    requires Succeeds(c, e) && StageOf(c.state).Exchange? && !c.hit
    ensures if SentBack(c, e) then Left(Step(c, e)) == Left(c) + 3 else Left(Step(c, e)) < Left(c)
  {
  }

  /** Nothing fails, and the client does not arrive before the end. */
  ghost predicate Smooth(c: Client, inputs: seq<Input>)
    decreases |inputs|
  {
    inputs == [] || (!c.state.Ok? && Succeeds(c, inputs[0]) && Smooth(Step(c, inputs[0]), inputs[1..]))
  }

  /** How often the client is sent back, and how often by a HelloVerifyRequest that comes after a
      ServerHello and not in its place. */
  function TimesSentBack(c: Client, inputs: seq<Input>): nat
    decreases |inputs|
  {
    if inputs == [] then 0
    else (if SentBack(c, inputs[0]) then 1 else 0) + TimesSentBack(Step(c, inputs[0]), inputs[1..])
  }

  function Afterthoughts(c: Client, inputs: seq<Input>): nat
    decreases |inputs|
  {
    if inputs == [] then 0
    else (if SentBack(c, inputs[0]) && !c.box.reuse then 1 else 0) + Afterthoughts(Step(c, inputs[0]), inputs[1..])
  }

  lemma {:induction false} TurnsBound(pending: bool, c: Client, inputs: seq<Input>)
    requires Inv(pending, c) && Smooth(c, inputs)
    ensures |inputs| + Left(Run(c, inputs)) <= Left(c) + 4 * TimesSentBack(c, inputs)
    decreases |inputs|
  {
    if inputs != [] {
      StepKeeps(pending, c, inputs[0]);
      LeftGoesDown(pending, c, inputs[0]);
      TurnsBound(pending, Step(c, inputs[0]), inputs[1..]);
    }
  }

  /** The client can still be sent back in place of the ServerHello. */
  predicate Unsent(c: Client) {
    if c.state.CrHelloVerify? then c.box.reuse
    else (StageOf(c.state).Hello? || (c.state.CwFlush? && StageOf(c.next).Hello?)) && (!c.sendCookie || c.state.Before?)
  }

  lemma {:induction false} UnsentStep(pending: bool, c: Client, e: Input)
    requires Inv(pending, c) && Succeeds(c, e)
    ensures Unsent(Step(c, e)) ==> Unsent(c) && !SentBack(c, e)
  {
    if StageOf(c.state).Exchange? {
      UnsentInExchange(c, e);
    } else if StageOf(c.state).Awaiting? {
      UnsentInAwaiting(pending, c, e);
    }
  }

  lemma {:induction false} UnsentInExchange(c: Client, e: Input)
    requires StageOf(c.state).Exchange? && Succeeds(c, e)
    ensures !Unsent(Step(c, e))
  {
  }

  lemma {:induction false} UnsentInAwaiting(pending: bool, c: Client, e: Input)
    requires Inv(pending, c) && StageOf(c.state).Awaiting? && Succeeds(c, e)
    ensures Unsent(Step(c, e)) ==> Unsent(c)
  {
  }

  /** Only one HelloVerifyRequest can come in place of a ServerHello. */
  lemma {:induction false} OnePlusAfterthoughts(pending: bool, c: Client, inputs: seq<Input>)
    requires Inv(pending, c) && Smooth(c, inputs)
    ensures TimesSentBack(c, inputs) <= Afterthoughts(c, inputs) + if Unsent(c) then 1 else 0
    decreases |inputs|
  {
    if inputs != [] {
      StepKeeps(pending, c, inputs[0]);
      UnsentStep(pending, c, inputs[0]);
      OnePlusAfterthoughts(pending, Step(c, inputs[0]), inputs[1..]);
    }
  }

  /** If no handler fails a client has arrived after 23 turns, and four more for every
      HelloVerifyRequest that follows a ServerHello. */
  lemma {:induction false} ClientArrives(start: Client, inputs: seq<Input>)
    requires IsStart(start) && Smooth(start, inputs)
    ensures |inputs| + Left(Run(start, inputs)) <= 23 + 4 * Afterthoughts(start, inputs)
  {
    StartFits(start);
    TurnsBound(start.box.ccs, start, inputs);
    OnePlusAfterthoughts(start.box.ccs, start, inputs);
  }

  /** A server can go on like that for ever. */
  const COOKIE: Input := Input(
    false, true, HelloVerifyRequest, true, true, true, false, false, false, false, false, false, false, false,
    false, false, false)

  const ANSWER: Input := COOKIE.(message := ServerHello, sameSession := false)

  function Circles(k: nat): seq<Input> {
    if k == 0 then [] else [ANSWER, ANSWER, ANSWER, COOKIE] + Circles(k - 1)
  }

  lemma {:induction false} RunAppend(c: Client, a: seq<Input>, b: seq<Input>)
    ensures Run(c, a + b) == Run(Run(c, a), b)
    ensures Smooth(c, a + b) <==> Smooth(c, a) && Smooth(Run(c, a), b)
    ensures Afterthoughts(c, a + b) == Afterthoughts(c, a) + Afterthoughts(Run(c, a), b)
    decreases |a|
  {
    if a == [] {
      assert a + b == b;
    } else {
      assert (a + b)[1..] == a[1..] + b;
      RunAppend(Step(c, a[0]), a[1..], b);
    }
  }

  /** Sent back with a cookie. */
  predicate Again(c: Client) {
    c.dtls && c.state.CwClntHello? && c.sendCookie && !c.box.reuse && !c.hit
  }

  lemma {:induction false} Unroll(c: Client, a: Input, b: Input, d: Input, e: Input)
    ensures var c1 := Step(c, a); var c2 := Step(c1, b); var c3 := Step(c2, d);
      && Run(c, [a, b, d, e]) == Step(c3, e)
      && (Smooth(c, [a, b, d, e]) <==>
          && !c.state.Ok? && Succeeds(c, a) && !c1.state.Ok? && Succeeds(c1, b)
          && !c2.state.Ok? && Succeeds(c2, d) && !c3.state.Ok? && Succeeds(c3, e))
      && Afterthoughts(c, [a, b, d, e]) ==
          (if SentBack(c, a) && !c.box.reuse then 1 else 0) + (if SentBack(c1, b) && !c1.box.reuse then 1 else 0)
          + (if SentBack(c2, d) && !c2.box.reuse then 1 else 0) + (if SentBack(c3, e) && !c3.box.reuse then 1 else 0)
  {
    var c1 := Step(c, a);
    var c2 := Step(c1, b);
    var c3 := Step(c2, d);
    First(c, a, [b, d, e]);
    First(c1, b, [d, e]);
    First(c2, d, [e]);
    First(c3, e, []);
    assert [a] + [b, d, e] == [a, b, d, e] && [b] + [d, e] == [b, d, e] && [d] + [e] == [d, e] && [e] + [] == [e];
  }

  lemma {:induction false} First(c: Client, a: Input, rest: seq<Input>)
    ensures Run(c, [a] + rest) == Run(Step(c, a), rest)
    ensures Smooth(c, [a] + rest) <==> !c.state.Ok? && Succeeds(c, a) && Smooth(Step(c, a), rest)
    ensures Afterthoughts(c, [a] + rest)
         == (if SentBack(c, a) && !c.box.reuse then 1 else 0) + Afterthoughts(Step(c, a), rest)
  {
    assert ([a] + rest)[1..] == rest;
  }

  lemma {:induction false} FirstCookie()
    ensures var first := [COOKIE, COOKIE, COOKIE, COOKIE];
      Smooth(Start(true), first) && Afterthoughts(Start(true), first) == 0 && Again(Run(Start(true), first))
  {
    Unroll(Start(true), COOKIE, COOKIE, COOKIE, COOKIE);
  }

  lemma {:induction false} OneCircle(c: Client)
    requires Again(c)
    ensures var circle := [ANSWER, ANSWER, ANSWER, COOKIE];
      Smooth(c, circle) && Afterthoughts(c, circle) == 1 && Again(Run(c, circle))
  {
    Unroll(c, ANSWER, ANSWER, ANSWER, COOKIE);
  }

  lemma {:induction false} Circling(c: Client, k: nat)
    requires Again(c)
    ensures |Circles(k)| == 4 * k && Smooth(c, Circles(k)) && Afterthoughts(c, Circles(k)) == k
    ensures Again(Run(c, Circles(k)))
    decreases k
  {
    if k > 0 {
      var circle := [ANSWER, ANSWER, ANSWER, COOKIE];
      OneCircle(c);
      Circling(Run(c, circle), k - 1);
      RunAppend(c, circle, Circles(k - 1));
    }
  }

  /** Without a bound on the HelloVerifyRequests that follow a ServerHello there is none on the turns,
      though no handler ever fails. */
  lemma {:induction false} ClientCircles(k: nat)
    ensures var inputs := [COOKIE, COOKIE, COOKIE, COOKIE] + Circles(k);
      && |inputs| == 4 + 4 * k && Smooth(Start(true), inputs)
      && Afterthoughts(Start(true), inputs) == k && Run(Start(true), inputs).state.CwClntHello?
  {
    var first := [COOKIE, COOKIE, COOKIE, COOKIE];
    FirstCookie();
    Circling(Run(Start(true), first), k);
    RunAppend(Start(true), first, Circles(k));
  }

  // ---- the code -------------------------------------------------------------------------------

  /** The branches of ssl3_get_server_hello. */
  lemma {:induction false} HelloCases(c: Client, e: Input)
    ensures var d := Receive(c.dtls, c.box, e);
      HelloOf(c, e) ==
        if !HasMessage(c.box, e) then (c.hit, d, false)
        else if c.dtls && Type(c.box, e).HelloVerifyRequest? then (c.hit, d.(reuse := !c.sendCookie), !c.sendCookie)
        else if Type(c.box, e).ServerHello? then (e.sameSession, d, e.works)
        else (c.hit, d, false)
  {
  }

  class Connection {
    const dtls: bool
    var state: Where
    var nextState: Where
    var hit: bool
    var sendCookie: bool
    var changeCipherSpec: bool
    var changeCipherSpecOk: bool
    var reuseMessage: bool
    var messageType: Message
    ghost var log: Log

    ghost function Abs(): Client
      reads this
    {
      Client(dtls, state, nextState, hit, sendCookie, Box())
    }

    ghost function Box(): Inbox
      reads this
    {
      Inbox(changeCipherSpec, changeCipherSpecOk, reuseMessage, messageType, log)
    }

    constructor (dtls: bool)
      ensures Abs() == Start(dtls)
    {
      this.dtls := dtls;
      state, nextState, hit, sendCookie := Before, Before, false, false;
      changeCipherSpec, changeCipherSpecOk, reuseMessage, messageType, log := false, false, false, AnyOther, [];
    }

    /** The reader, as far as the loop depends on it. */
    method GetMessage(e: Input) returns (ok: bool)
      modifies this`changeCipherSpec, this`changeCipherSpecOk, this`reuseMessage, this`messageType, this`log
      ensures Box() == Receive(dtls, old(Box()), e)
      ensures ok == HasMessage(old(Box()), e)
      ensures ok ==> messageType == Type(old(Box()), e)
    {
      if reuseMessage {
        reuseMessage := false;
        return true;
      }
      if e.ccs && (!dtls || changeCipherSpecOk) {
        if dtls {
          changeCipherSpecOk := false;
        }
        changeCipherSpec := true;
        log := log + [PeerCcs];
      }
      messageType := e.message;
      return e.arrived;
    }

    method GetServerHello(e: Input) returns (ok: bool)
      requires state.CrSrvrHello?
      modifies this`hit, this`changeCipherSpec, this`changeCipherSpecOk, this`reuseMessage, this`messageType, this`log
      ensures (hit, Box(), ok) == HelloOf(old(Abs()), e)
    {
      HelloCases(Abs(), e);
      ok := GetMessage(e);
      if ok {
        ok := TakeHello(e);
      }
    }

    /** The message is there. */
    method TakeHello(e: Input) returns (ok: bool)
      modifies this`hit, this`reuseMessage
      ensures var t := old(messageType);
        (hit, Box(), ok) ==
          if dtls && t.HelloVerifyRequest? then (old(hit), old(Box()).(reuse := !sendCookie), !sendCookie)
          else if t.ServerHello? then (e.sameSession, old(Box()), e.works)
          else (old(hit), old(Box()), false)
    {
      if dtls && messageType.HelloVerifyRequest? {
        reuseMessage := !sendCookie;
        ok := !sendCookie;
      } else if messageType.ServerHello? {
        hit := e.sameSession;
        ok := e.works;
      } else {
        ok := false;
      }
    }

    method GetHelloVerify(e: Input) returns (ok: bool)
      requires state.CrHelloVerify?
      modifies this`sendCookie, this`changeCipherSpec, this`changeCipherSpecOk, this`reuseMessage
      modifies this`messageType, this`log
      ensures sendCookie == CookieAfter(old(Abs()), e) && Box() == BoxAfter(old(Abs()), e)
      ensures ok == Succeeds(old(Abs()), e)
    {
      ok := GetMessage(e);
      if !ok {
        return;
      }
      if !messageType.HelloVerifyRequest? {
        sendCookie := false;
        reuseMessage := true;
      } else if e.works {
        sendCookie := true;
      } else {
        ok := false;
      }
    }

    /** The handlers left abstract. */
    method Read(e: Input) returns (ok: bool)
      modifies this`changeCipherSpec, this`changeCipherSpecOk, this`reuseMessage, this`messageType, this`log
      ensures Box() == Receive(dtls, old(Box()), e).(reuse := e.putBack)
      ensures ok == (HasMessage(old(Box()), e) && e.works)
    {
      ok := GetMessage(e);
      reuseMessage := e.putBack;
      ok := ok && e.works;
    }

    method CheckFinished(e: Input) returns (ret: int)
      modifies this`changeCipherSpec, this`changeCipherSpecOk, this`reuseMessage, this`messageType, this`log
      ensures ret == if e.hasTicket && !HasMessage(old(Box()), e) then 0
                     else if Resumes(old(Abs()), e) then 2 else 1
      ensures Box() == if e.hasTicket
        then Receive(dtls, old(Box()), e).(reuse := HasMessage(old(Box()), e)) else old(Box())
    {
      if !e.hasTicket {
        return 1;
      }
      var ok := GetMessage(e);
      if !ok {
        return 0;
      }
      reuseMessage := true;
      if messageType.Finished? || messageType.NewSessionTicket? {
        return 2;
      }
      return 1;
    }

    method GetFinished(e: Input) returns (ok: bool)
      modifies this`changeCipherSpec, this`changeCipherSpecOk, this`reuseMessage, this`messageType, this`log
      ensures Box() == Taken(dtls, old(Box()), e)
      ensures ok == (Takes(dtls, old(Box()), e) && e.digestMatches)
    {
      ok := GetMessage(e);
      if !ok {
        return;
      }
      if !messageType.Finished? || !changeCipherSpec {
        return false;
      }
      changeCipherSpec := false;
      if !e.digestMatches {
        return false;
      }
      log := log + [PeerFinished];
    }

    /** One turn of the loop: the switch on the state. */
    method Turn(e: Input) returns (ret: Ret)
      modifies this
      ensures Abs() == Step(old(Abs()), e) && ret == RetOf(old(Abs()), e)
    {
      if StageOf(state).Hello? {
        ret := HelloTurn(e);
      } else if StageOf(state).Exchange? {
        ret := ExchangeTurn(e);
      } else {
        ret := LastTurns(e);
      }
    }

    method HelloTurn(e: Input) returns (ret: Ret)
      requires StageOf(state).Hello?
      modifies this
      ensures Abs() == Step(old(Abs()), e) && ret == RetOf(old(Abs()), e)
    {
      if state.Before? {
        if !e.works {
          return Returns(-1);
        }
        state := CwClntHello;
        if dtls {
          sendCookie := false;
          hit := false;
        }
      } else if state.CwClntHello? {
        if !e.works {
          return Returns(-1);
        }
        if dtls && sendCookie {
          state := CwFlush;
          nextState := CrSrvrHello;
        } else {
          state := CrSrvrHello;
        }
      } else {
        ret := ServerHelloTurn(e);
        return;
      }
      return Goes;
    }

    method ServerHelloTurn(e: Input) returns (ret: Ret)
      requires state.CrSrvrHello?
      modifies this
      ensures Abs() == Step(old(Abs()), e) && ret == RetOf(old(Abs()), e)
    {
      var ok := GetServerHello(e);
      if !ok {
        return Returns(-1);
      }
      state := if hit then CrFinished else if dtls then CrHelloVerify else CrCert;
      return Goes;
    }

    method ExchangeTurn(e: Input) returns (ret: Ret)
      requires StageOf(state).Exchange?
      modifies this
      ensures Abs() == Step(old(Abs()), e) && ret == RetOf(old(Abs()), e)
    {
      if state.CrHelloVerify? {
        var ok := GetHelloVerify(e);
        if !ok {
          return Returns(-1);
        }
        state := if sendCookie then CwClntHello else CrCert;
        ret := Goes;
      } else if state.CrCert? {
        ret := CertTurn(e);
      } else if state.CrCertStatus? || state.CrKeyExch? || state.CrCertReq? || state.CrSrvrDone? {
        ret := ReadingTurn(e);
      } else {
        ret := WritingTurn(e);
      }
    }

    method CertTurn(e: Input) returns (ret: Ret)
      requires state.CrCert?
      modifies this
      ensures (Abs(), ret) == (Step(old(Abs()), e), RetOf(old(Abs()), e))
    {
      var checked := CheckFinished(e);
      if checked == 2 {
        hit := true;
        state := if e.ticketExpected then CrSessionTicket else CrFinished;
        return Goes;
      }
      var ok := checked > 0;
      if ok && !e.anonymous {
        ok := Read(e);
      }
      if !ok {
        return Returns(-1);
      }
      state := if !e.anonymous && e.statusExpected then CrCertStatus else CrKeyExch;
      return Goes;
    }

    method ReadingTurn(e: Input) returns (ret: Ret)
      requires state.CrCertStatus? || state.CrKeyExch? || state.CrCertReq? || state.CrSrvrDone?
      modifies this
      ensures Abs() == Step(old(Abs()), e) && ret == RetOf(old(Abs()), e)
    {
      var ok := Read(e);
      if !ok {
        return Returns(-1);
      }
      if state.CrCertStatus? {
        state := CrKeyExch;
      } else if state.CrKeyExch? {
        state := CrCertReq;
        if !e.keysWork {
          return Returns(-1);
        }
      } else if state.CrCertReq? {
        state := CrSrvrDone;
      } else {
        state := if e.certAsked then CwCert else CwKeyExch;
      }
      return Goes;
    }

    method WritingTurn(e: Input) returns (ret: Ret)
      requires state.CwCert? || state.CwKeyExch? || state.CwCertVrfy?
      modifies this
      ensures Abs() == Step(old(Abs()), e) && ret == RetOf(old(Abs()), e)
    {
      if !e.works {
        return Returns(-1);
      }
      if state.CwCert? {
        state := CwKeyExch;
      } else if state.CwKeyExch? && e.certHeld && (dtls || !e.skipVerify) {
        state := CwCertVrfy;
      } else {
        state := CwChange;
        changeCipherSpec := false;
      }
      return Goes;
    }

    method LastTurns(e: Input) returns (ret: Ret)
      requires !StageOf(state).Hello? && !StageOf(state).Exchange?
      modifies this
      ensures Abs() == Step(old(Abs()), e) && ret == RetOf(old(Abs()), e)
    {
      if state.CwChange? {
        if !e.works {
          return Returns(-1);
        }
        log := log + [OwnCcs];
        state := CwFinished;
        return if e.keysWork then Goes else Returns(-1);
      } else if state.CwFinished? {
        if !e.works {
          return Returns(-1);
        }
        SentFinished(e);
        return Goes;
      } else if state.Ok? {
        return Returns(1);
      }
      ret := AwaitingTurn(e);
    }

    method FinishedTurn(e: Input) returns (ret: Ret)
      requires state.CrFinished?
      modifies this
      ensures Abs() == Step(old(Abs()), e) && ret == RetOf(old(Abs()), e)
    {
      ghost var c := Abs();
      if dtls {
        changeCipherSpecOk := true;
      }
      assert Box() == Ready(c);
      var ok := GetFinished(e);
      assert Box() == BoxAfter(c, e) && ok == Succeeds(c, e);
      if !ok {
        return Returns(-1);
      }
      state := if hit then CwChange else Ok;
      return Goes;
    }

    method AwaitingTurn(e: Input) returns (ret: Ret)
      requires StageOf(state).Awaiting?
      modifies this
      ensures Abs() == Step(old(Abs()), e) && ret == RetOf(old(Abs()), e)
    {
      if state.CrSessionTicket? {
        var ok := Read(e);
        if !ok {
          return Returns(-1);
        }
        state := CrFinished;
      } else if state.CrFinished? {
        ret := FinishedTurn(e);
        return;
      } else if state.CwFlush? {
        if !e.works {
          return Returns(-1);
        }
        state := nextState;
      } else {
        state := if e.ticketExpected then CrSessionTicket else CrFinished;
        return Returns(1);
      }
      return Goes;
    }

    method SentFinished(e: Input)
      requires state.CwFinished? && e.works
      modifies this
      ensures Abs() == Step(old(Abs()), e)
    {
      log := log + [OwnFinished];
      state := CwFlush;
      if hit {
        nextState := Ok;
        if e.delayFinished {
          state := Ok;
        }
      } else if !dtls && e.cutThrough {
        if e.delayFinished {
          state := Cutthrough;
        } else {
          nextState := Cutthrough;
        }
      } else {
        nextState := if e.ticketExpected then CrSessionTicket else CrFinished;
      }
    }

    /** The loop, which takes turns until one returns. */
    method Connect(inputs: seq<Input>) returns (ret: Ret, used: nat)
      modifies this
      ensures used <= |inputs| && Abs() == Run(old(Abs()), inputs[..used])
      ensures ret.Goes? ==> used == |inputs|
      ensures IsStart(old(Abs())) && state.Ok? ==>
        Marks(log) == MarksAt(Done, hit) && Preceded(old(changeCipherSpec), log)
      ensures IsStart(old(Abs())) && state.Ok? && !hit ==> OwnFirst(log)
      ensures IsStart(old(Abs())) && state.Ok? && hit && !old(changeCipherSpec) ==> PeerFirst(log)
    {
      used := 0;
      ret := Goes;
      while ret.Goes? && used < |inputs|
        invariant used <= |inputs| && Abs() == Run(old(Abs()), inputs[..used])
      {
        ghost var c := Abs();
        ret := Turn(inputs[used]);
        RunSnoc(old(Abs()), inputs[..used], inputs[used]);
        assert inputs[..used] + [inputs[used]] == inputs[..used + 1];
        used := used + 1;
      }
      if IsStart(old(Abs())) && state.Ok? {
        ClientSafety(old(Abs()), inputs[..used]);
      }
    }
  }

  lemma {:induction false} RunSnoc(c: Client, inputs: seq<Input>, e: Input)
    ensures Run(c, inputs + [e]) == Step(Run(c, inputs), e)
  {
    RunAppend(c, inputs, [e]);
    assert [e][1..] == [];
  }
}
