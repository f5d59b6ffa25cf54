/**
 The messages of the client's handshake (d1_clnt.c, s3_clnt.c): what it has sent and taken when it arrives is a
 handshake of section 7.3 of RFC 2246, with just the optional messages that the flags it met call for.
 */
module ClientFlight {
  import opened Handshake
  import opened HandshakeClient

  datatype Deed =
    // sent
    | ClientHello | ClientCertificate | ClientKeyExchange | CertificateVerify | ChangeCipherSpec | ClientFinished
    // taken
    | HelloVerify | ServersHello | Certificate | CertificateStatus | ServerKeyExchange | CertificateRequest
    | ServerHelloDone | SessionTicket | ServerFinished

  /** What decides on the messages. */
  datatype Choices = Choices(
    unseen: bool,       // a HelloVerifyRequest came where the ServerHello was awaited
    resumes: bool,      // the server named the session offered, or showed that it takes the ticket
    certificate: bool,  // the key exchange has one, and it is there
    status: bool,       // the status is expected, and the key exchange has a certificate
    keys: bool, request: bool,   // the message is there, and not the next one in its place
    asked: bool,        // cert_req is set when the server is done
    verifies: bool,     // cert_req is 1 when the keys are sent, and in TLS the flag to skip is not set
    ticketDue: bool,    // a ticket is expected
    ticket: bool)       // and is there

  function If(b: bool, d: Deed): seq<Deed> { if b then [d] else [] }

  // ---- what the standard asks for -------------------------------------------------------------

  function Hellos(c: Choices): seq<Deed> { [ClientHello] + If(!c.unseen, ServersHello) }

  /** What the server sends in its first flight. */
  function FirstFlight(c: Choices): seq<Deed> {
    Hellos(c) + If(c.certificate, Certificate) + If(c.status, CertificateStatus) + If(c.keys, ServerKeyExchange)
    + If(c.request, CertificateRequest) + [ServerHelloDone]
  }

  function FullHandshake(c: Choices): seq<Deed> {
    FirstFlight(c)
    + If(c.asked, ClientCertificate) + [ClientKeyExchange] + If(c.verifies, CertificateVerify)
    + [ChangeCipherSpec, ClientFinished] + If(c.ticketDue && c.ticket, SessionTicket) + [ServerFinished]
  }

  function ResumedHandshake(c: Choices): seq<Deed> {
    Hellos(c) + If(c.ticketDue && c.ticket, SessionTicket) + [ServerFinished, ChangeCipherSpec, ClientFinished]
  }

  /** What was done from one ClientHello to the next. */
  datatype Round = Round(log: seq<Deed>, met: Choices)

  /** Every further hello answers a HelloVerifyRequest, in place of a ServerHello or after one. */
  predicate IsRound(r: Round) { r.log == Hellos(r.met) + [HelloVerify] }

  // ---- what the loop does ---------------------------------------------------------------------

  /** The message sent or taken in one turn, if the handler of the state comes to it and does not fail. A
      message that is put back is not taken. */
  function Deeds(c: Client, e: Input): seq<Deed> {
    var read := HasMessage(c.box, e) && e.works;
    match c.state
    case CwClntHello => If(e.works, ClientHello)
    case CrSrvrHello => If(SeesServerHello(c, e) && e.works, ServersHello)
    case CrHelloVerify => If(read && Type(c.box, e).HelloVerifyRequest?, HelloVerify)
    case CrCert => If(read && !Resumes(c, e) && !e.anonymous && !e.putBack, Certificate)
    case CrCertStatus => If(read, CertificateStatus)
    case CrKeyExch => If(read && !e.putBack, ServerKeyExchange)
    case CrCertReq => If(read && !e.putBack, CertificateRequest)
    case CrSrvrDone => If(read, ServerHelloDone)
    case CwCert => If(e.works, ClientCertificate)
    case CwKeyExch => If(e.works, ClientKeyExchange)
    case CwCertVrfy => If(e.works, CertificateVerify)
    case CwChange => If(e.works, ChangeCipherSpec)
    case CwFinished => If(e.works, ClientFinished)
    case CrSessionTicket => If(read && !e.putBack, SessionTicket)
    case CrFinished => If(Takes(c.dtls, Ready(c), e) && e.digestMatches, ServerFinished)
    case _ => []
  }

  /** The flags as they were met last where they are looked at. */
  function Met(m: Choices, c: Client, e: Input): Choices {
    match c.state
    case Before => if e.works then m.(resumes := false) else m
    case CrSrvrHello =>
      m.(unseen := Peeks(c, e),
         resumes := if SeesServerHello(c, e) then e.sameSession else m.resumes, ticketDue := false)
    case CrCert =>
      m.(certificate := !e.anonymous && !e.putBack, status := !e.anonymous && e.statusExpected,
         resumes := Resumes(c, e), ticketDue := e.ticketExpected)
    case CrKeyExch => m.(keys := !e.putBack)
    case CrCertReq => m.(request := !e.putBack)
    case CrSrvrDone => m.(asked := e.certAsked)
    case CwKeyExch => m.(verifies := e.certHeld && (c.dtls || !e.skipVerify))
    case CwFinished | Cutthrough => if c.hit then m else m.(ticketDue := e.ticketExpected)
    case CrSessionTicket => m.(ticket := !e.putBack)
    case _ => m
  }

  /** The rounds before the last ClientHello, what was done since, and the flags met. */
  datatype Story = Story(rounds: seq<Round>, log: seq<Deed>, met: Choices)

  function Told(t: Story, c: Client, e: Input): Story {
    var d := Deeds(c, e);
    var restarts := d == [ClientHello];
    Story(if restarts && t.log != [] then t.rounds + [Round(t.log, t.met)] else t.rounds,
          if restarts then d else t.log + d, Met(t.met, c, e))
  }

  function StoryOf(t: Story, c: Client, inputs: seq<Input>): Story
    decreases |inputs|
  {
    if inputs == [] then t else StoryOf(Told(t, c, inputs[0]), Step(c, inputs[0]), inputs[1..])
  }

  /** Before the handshake; what the flags are then has no part in it. */
  function NothingYet(m: Choices): Story { Story([], [], m) }

  // ---- what every turn keeps ------------------------------------------------------------------

  function ToCert(m: Choices): seq<Deed> { Hellos(m) + If(m.certificate, Certificate) }
  function ToStatus(m: Choices): seq<Deed> { ToCert(m) + If(m.status, CertificateStatus) }
  function ToKeys(m: Choices): seq<Deed> { ToStatus(m) + If(m.keys, ServerKeyExchange) }
  function ToRequest(m: Choices): seq<Deed> { ToKeys(m) + If(m.request, CertificateRequest) }
  function ToClientCert(m: Choices): seq<Deed> { FirstFlight(m) + If(m.asked, ClientCertificate) }
  function ToClientKeys(m: Choices): seq<Deed> { ToClientCert(m) + [ClientKeyExchange] }
  function ToVerify(m: Choices): seq<Deed> { ToClientKeys(m) + If(m.verifies, CertificateVerify) }

  /** What was done before the ticket that the server may send. */
  function ToTicket(hit: bool, m: Choices): seq<Deed> {
    if hit then Hellos(m) else ToVerify(m) + [ChangeCipherSpec, ClientFinished]
  }

  function ToFinished(hit: bool, m: Choices): seq<Deed> {
    ToTicket(hit, m) + If(m.ticketDue && m.ticket, SessionTicket)
  }

  function ToChange(hit: bool, m: Choices): seq<Deed> {
    if hit then ToFinished(true, m) + [ServerFinished] else ToVerify(m)
  }

  /** What has been done when a state is entered. */
  function DoneAt(w: Where, hit: bool, m: Choices): seq<Deed> {
    match w
    case CrSrvrHello => [ClientHello]
    case CrHelloVerify | CrCert => Hellos(m)
    case CrCertStatus => ToCert(m)
    case CrKeyExch => ToStatus(m)
    case CrCertReq => ToKeys(m)
    case CrSrvrDone => ToRequest(m)
    case CwCert => FirstFlight(m)
    case CwKeyExch => ToClientCert(m)
    case CwCertVrfy => ToClientKeys(m)
    case CwChange => ToChange(hit, m)
    case CwFinished => ToChange(hit, m) + [ChangeCipherSpec]
    case CrSessionTicket | Cutthrough => ToTicket(hit, m)
    case CrFinished => ToFinished(hit, m)
    case Ok =>
      if hit then ToChange(true, m) + [ChangeCipherSpec, ClientFinished] else ToFinished(false, m) + [ServerFinished]
    case _ => []
  }

  /** Where an optional message is about to be sent or taken, its flag was met. */
  predicate Called(w: Where, m: Choices) {
    match w
    case CrCertStatus => m.status
    case CwCert => m.asked
    case CwCertVrfy => m.verifies
    case CrSessionTicket => m.ticketDue
    case _ => true
  }

  /** When it is settled whether the session is resumed; in DTLS from the beginning. */
  predicate Settled(dtls: bool, w: Where) {
    if w.Before? then false else dtls || !StageOf(w).Hello?
  }

  ghost predicate LogFits(dtls: bool, w: Where, hit: bool, t: Story) {
    var fits :=
      if w.Before? then t.log == []
      else if w.CwClntHello? then (t.log == [] || IsRound(Round(t.log, t.met))) && (dtls ==> hit == t.met.resumes)
      else t.log == DoneAt(w, hit, t.met) && Called(w, t.met) && (Settled(dtls, w) ==> hit == t.met.resumes);
    fits
  }

  /** The state, or the one after a flush. */
  function Next(c: Client): Where { if c.state.CwFlush? then c.next else c.state }

  predicate RoundsFit(rounds: seq<Round>) { forall k | 0 <= k < |rounds| :: IsRound(rounds[k]) }

  ghost predicate StoryFits(c: Client, t: Story) {
    && ControlFits(c.state, c.next, c.hit) && (Next(c).CrHelloVerify? ==> c.dtls)
    && LogFits(c.dtls, Next(c), c.hit, t) && RoundsFit(t.rounds)
  }

  lemma {:induction false} GreetingTells(c: Client, t: Story, e: Input)
    requires LogFits(c.dtls, c.state, c.hit, t) && RoundsFit(t.rounds)
    requires c.state.Before? || c.state.CwClntHello?
    ensures var c', t' := Step(c, e), Told(t, c, e);
      LogFits(c.dtls, Next(c'), c'.hit, t') && RoundsFit(t'.rounds)
  {
  }

  lemma {:induction false} HelloTells(c: Client, t: Story, e: Input)
    requires LogFits(c.dtls, c.state, c.hit, t)
    requires c.state.CrSrvrHello?
    ensures var c', t' := Step(c, e), Told(t, c, e);
      LogFits(c.dtls, Next(c'), c'.hit, t') && t'.rounds == t.rounds
  {
  }

  lemma {:induction false} HelloVerifyTells(c: Client, t: Story, e: Input)
    requires LogFits(c.dtls, c.state, c.hit, t) && !c.hit && c.dtls
    requires c.state.CrHelloVerify?
    ensures var c', t' := Step(c, e), Told(t, c, e);
      LogFits(c.dtls, Next(c'), c'.hit, t') && t'.rounds == t.rounds
  {
  }

  lemma {:induction false} CertTells(c: Client, t: Story, e: Input)
    requires LogFits(c.dtls, c.state, c.hit, t) && !c.hit
    requires c.state.CrCert?
    ensures var c', t' := Step(c, e), Told(t, c, e);
      LogFits(c.dtls, Next(c'), c'.hit, t') && t'.rounds == t.rounds
  {
  }

  lemma {:induction false} ServerFlightTells(c: Client, t: Story, e: Input)
    requires LogFits(c.dtls, c.state, c.hit, t) && !c.hit
    requires c.state.CrCertStatus? || c.state.CrKeyExch? || c.state.CrCertReq? || c.state.CrSrvrDone?
    ensures var c', t' := Step(c, e), Told(t, c, e);
      LogFits(c.dtls, Next(c'), c'.hit, t') && t'.rounds == t.rounds
  {
    if c.state.CrSrvrDone? {
      ServerDoneTells(c, t, e);
    } else {
      ServerKeysTell(c, t, e);
    }
  }

  lemma {:induction false} ServerKeysTell(c: Client, t: Story, e: Input)
    requires LogFits(c.dtls, c.state, c.hit, t) && !c.hit
    requires c.state.CrCertStatus? || c.state.CrKeyExch? || c.state.CrCertReq?
    ensures var c', t' := Step(c, e), Told(t, c, e);
      LogFits(c.dtls, Next(c'), c'.hit, t') && t'.rounds == t.rounds
  {
  }

  lemma {:induction false} ServerDoneTells(c: Client, t: Story, e: Input)
    requires LogFits(c.dtls, c.state, c.hit, t) && !c.hit
    requires c.state.CrSrvrDone?
    ensures var c', t' := Step(c, e), Told(t, c, e);
      LogFits(c.dtls, Next(c'), c'.hit, t') && t'.rounds == t.rounds
  {
    AfterFirstFlight(t.met, e.certAsked);
    var log := t.log + if Succeeds(c, e) then [ServerHelloDone] else [];
    assert Told(t, c, e) == Story(t.rounds, log, t.met.(asked := e.certAsked));
  }

  lemma {:induction false} AfterFirstFlight(met: Choices, asked: bool)
    ensures var m, log := met.(asked := asked), DoneAt(CrSrvrDone, false, met);
      && log + [] == log && DoneAt(CrSrvrDone, false, m) == log
      && DoneAt(CwCert, false, m) == log + [ServerHelloDone]
      && (!asked ==> DoneAt(CwKeyExch, false, m) == log + [ServerHelloDone])
  {
    var m := met.(asked := asked);
    AskedLater(met, asked);
    assert FirstFlight(m) == ToRequest(m) + [ServerHelloDone];
    NoneAdded(FirstFlight(m), ClientCertificate);
    NoneAdded(ToRequest(met), ClientCertificate);
  }

  /** A flag that is looked at later has no part in what was done before. */
  lemma {:induction false} AskedLater(m: Choices, b: bool)
    ensures ToRequest(m.(asked := b)) == ToRequest(m)
  {
  }

  lemma {:induction false} DueLater(m: Choices, b: bool)
    ensures ToVerify(m.(ticketDue := b)) == ToVerify(m)
  {
  }

  lemma {:induction false} NoneAdded(log: seq<Deed>, d: Deed)
    ensures log + If(false, d) == log && log + [] == log
  {
  }

  lemma {:induction false} TwoAdded(log: seq<Deed>, a: Deed, b: Deed)
    ensures log + [a] + [b] == log + [a, b]
  {
  }

  lemma {:induction false} ClientFlightTells(c: Client, t: Story, e: Input)
    requires LogFits(c.dtls, c.state, c.hit, t) && !c.hit
    requires c.state.CwCert? || c.state.CwKeyExch? || c.state.CwCertVrfy?
    ensures var c', t' := Step(c, e), Told(t, c, e);
      LogFits(c.dtls, Next(c'), c'.hit, t') && t'.rounds == t.rounds
  {
    if c.state.CwKeyExch? {
      KeysTell(c, t, e);
    }
  }

  lemma {:induction false} KeysTell(c: Client, t: Story, e: Input)
    requires LogFits(c.dtls, c.state, c.hit, t) && !c.hit
    requires c.state.CwKeyExch?
    ensures var c', t' := Step(c, e), Told(t, c, e);
      LogFits(c.dtls, Next(c'), c'.hit, t') && t'.rounds == t.rounds
  {
    var verifies := e.certHeld && (c.dtls || !e.skipVerify);
    AfterClientCert(t.met, verifies);
    var log := t.log + if Succeeds(c, e) then [ClientKeyExchange] else [];
    assert Told(t, c, e) == Story(t.rounds, log, t.met.(verifies := verifies));
  }

  lemma {:induction false} AfterClientCert(met: Choices, verifies: bool)
    ensures var m, log := met.(verifies := verifies), DoneAt(CwKeyExch, false, met);
      && log + [] == log && DoneAt(CwKeyExch, false, m) == log
      && DoneAt(CwCertVrfy, false, m) == log + [ClientKeyExchange]
      && (!verifies ==> DoneAt(CwChange, false, m) == log + [ClientKeyExchange])
  {
  }

  lemma {:induction false} ChangeTells(c: Client, t: Story, e: Input)
    requires LogFits(c.dtls, c.state, c.hit, t)
    requires c.state.CwChange?
    ensures var c', t' := Step(c, e), Told(t, c, e);
      LogFits(c.dtls, Next(c'), c'.hit, t') && t'.rounds == t.rounds
  {
  }

  lemma {:induction false} OwnFinishedTells(c: Client, t: Story, e: Input)
    requires LogFits(c.dtls, c.state, c.hit, t)
    requires c.state.CwFinished?
    ensures var c', t' := Step(c, e), Told(t, c, e);
      LogFits(c.dtls, Next(c'), c'.hit, t') && t'.rounds == t.rounds
  {
    AfterChange(c.hit, t.met, e.ticketExpected);
    var log := t.log + if e.works then [ClientFinished] else [];
    var m := if c.hit then t.met else t.met.(ticketDue := e.ticketExpected);
    assert Told(t, c, e) == Story(t.rounds, log, m);
    var c' := Step(c, e);
    assert Next(c') == if !e.works then CwFinished else if c.hit then Ok else Next(c');
    if e.works && !c.hit {
      assert Next(c') == Cutthrough || Next(c') == EndOfFlight(e);
    }
  }

  lemma {:induction false} AfterChange(hit: bool, met: Choices, due: bool)
    ensures var m, log := if hit then met else met.(ticketDue := due), DoneAt(CwFinished, hit, met);
      && log + [] == log && DoneAt(CwFinished, hit, m) == log
      && (hit ==> DoneAt(Ok, hit, m) == log + [ClientFinished])
      && (!hit ==> ToTicket(hit, m) == log + [ClientFinished])
      && (!hit && !due ==> ToFinished(hit, m) == log + [ClientFinished])
  {
    var m := if hit then met else met.(ticketDue := due);
    DueLater(met, due);
    assert ToChange(hit, m) == ToChange(hit, met);
    TwoAdded(ToChange(hit, met), ChangeCipherSpec, ClientFinished);
    NoneAdded(DoneAt(CwFinished, hit, met), SessionTicket);
    NoneAdded(ToTicket(hit, m), SessionTicket);
  }

  lemma {:induction false} TicketTells(c: Client, t: Story, e: Input)
    requires LogFits(c.dtls, c.state, c.hit, t) && (c.state.Cutthrough? ==> !c.hit)
    requires c.state.CrSessionTicket? || c.state.Cutthrough?
    ensures var c', t' := Step(c, e), Told(t, c, e);
      LogFits(c.dtls, Next(c'), c'.hit, t') && t'.rounds == t.rounds
  {
    if c.state.CrSessionTicket? {
      AfterTicket(c.hit, t.met, !e.putBack);
      var log := t.log + if Succeeds(c, e) then If(!e.putBack, SessionTicket) else [];
      assert Told(t, c, e) == Story(t.rounds, log, t.met.(ticket := !e.putBack));
    } else {
      CutthroughTells(c, t, e);
    }
  }

  lemma {:induction false} AfterTicket(hit: bool, met: Choices, ticket: bool)
    ensures var m, log := met.(ticket := ticket), DoneAt(CrSessionTicket, hit, met);
      && log + [] == log && DoneAt(CrSessionTicket, hit, m) == log
      && (met.ticketDue ==> DoneAt(CrFinished, hit, m) == log + If(ticket, SessionTicket))
  {
  }

  lemma {:induction false} CutthroughTells(c: Client, t: Story, e: Input)
    requires LogFits(c.dtls, c.state, c.hit, t) && !c.hit
    requires c.state.Cutthrough?
    ensures var c', t' := Step(c, e), Told(t, c, e);
      LogFits(c.dtls, Next(c'), c'.hit, t') && t'.rounds == t.rounds
  {
    AfterCutthrough(t.met, e.ticketExpected);
    assert Told(t, c, e) == Story(t.rounds, t.log + [], t.met.(ticketDue := e.ticketExpected));
  }

  lemma {:induction false} AfterCutthrough(met: Choices, due: bool)
    ensures var m, log := met.(ticketDue := due), DoneAt(Cutthrough, false, met);
      && log + [] == log && DoneAt(CrSessionTicket, false, m) == log
      && (!due ==> DoneAt(CrFinished, false, m) == log)
  {
    DueLater(met, due);
    NoneAdded(ToTicket(false, met), SessionTicket);
  }

  lemma {:induction false} FinishedTells(c: Client, t: Story, e: Input)
    requires LogFits(c.dtls, c.state, c.hit, t)
    requires c.state.CrFinished?
    ensures var c', t' := Step(c, e), Told(t, c, e);
      LogFits(c.dtls, Next(c'), c'.hit, t') && t'.rounds == t.rounds
  {
  }

  lemma {:induction false} StepTells(c: Client, t: Story, e: Input)
    requires StoryFits(c, t)
    ensures StoryFits(Step(c, e), Told(t, c, e))
  {
    ControlKept(c, e);
    match c.state
    case Before | CwClntHello => GreetingTells(c, t, e);
    case CrSrvrHello => HelloTells(c, t, e);
    case CrHelloVerify => HelloVerifyTells(c, t, e);
    case CrCert => CertTells(c, t, e);
    case CrCertStatus | CrKeyExch | CrCertReq | CrSrvrDone => ServerFlightTells(c, t, e);
    case CwCert | CwKeyExch | CwCertVrfy => ClientFlightTells(c, t, e);
    case CwChange => ChangeTells(c, t, e);
    case CwFinished => OwnFinishedTells(c, t, e);
    case CwFlush | Ok => NothingTold(c, t, e);
    case CrSessionTicket | Cutthrough => TicketTells(c, t, e);
    case CrFinished => FinishedTells(c, t, e);
  }

  lemma {:induction false} ControlKept(c: Client, e: Input)
    requires ControlFits(c.state, c.next, c.hit) && (Next(c).CrHelloVerify? ==> c.dtls)
    ensures ControlFits(Step(c, e).state, Step(c, e).next, Step(c, e).hit)
    ensures Next(Step(c, e)).CrHelloVerify? ==> c.dtls
  {
    match StageOf(c.state)
    case Hello => HelloControl(c, e);
    case Exchange => ExchangeControl(c, e);
    case Changing | Changed => WritesControl(c, e);
    case Awaiting => if c.state.CrFinished? { FinishedControl(c, e); } else { WaitingControl(c, e); }
    case Done =>
  }

  lemma {:induction false} WaitingControl(c: Client, e: Input)
    requires c.state.CwFlush? || c.state.CrSessionTicket? || c.state.Cutthrough?
    requires ControlFits(c.state, c.next, c.hit) && (Next(c).CrHelloVerify? ==> c.dtls)
    ensures ControlFits(Step(c, e).state, Step(c, e).next, Step(c, e).hit)
    ensures Next(Step(c, e)).CrHelloVerify? ==> c.dtls
  {
  }

  lemma {:induction false} NothingTold(c: Client, t: Story, e: Input)
    requires StoryFits(c, t) && (c.state.CwFlush? || c.state.Ok?)
    ensures LogFits(c.dtls, Next(Step(c, e)), c.hit, Told(t, c, e)) && Told(t, c, e).rounds == t.rounds
  {
    assert t.log + [] == t.log;
    assert Told(t, c, e) == t;
    assert Next(Step(c, e)) == Next(c);
  }

  lemma {:induction false} RunTells(c: Client, t: Story, inputs: seq<Input>)
    requires StoryFits(c, t)
    ensures StoryFits(Run(c, inputs), StoryOf(t, c, inputs))
    decreases |inputs|
  {
    if inputs != [] {
      StepTells(c, t, inputs[0]);
      RunTells(Step(c, inputs[0]), Told(t, c, inputs[0]), inputs[1..]);
    }
  }

  /** Whatever comes in and whichever handlers fail meanwhile: a client that arrives has sent and taken, since its
      last ClientHello, exactly the messages of a full or of a resumed handshake, in their order, each optional
      one exactly when its flag was met. Before that hello there were only rounds. The ServerHello alone can be
      missing: exactly when a HelloVerifyRequest came where it was awaited in the last round. */
  lemma {:induction false} ClientFlights(start: Client, m: Choices, inputs: seq<Input>)
    requires IsStart(start) && Run(start, inputs).state.Ok?
    ensures var t := StoryOf(NothingYet(m), start, inputs);
      && t.log == (if t.met.resumes then ResumedHandshake(t.met) else FullHandshake(t.met))
      && Run(start, inputs).hit == t.met.resumes
      && forall k | 0 <= k < |t.rounds| :: IsRound(t.rounds[k])
  {
    RunTells(start, NothingYet(m), inputs);
    ArrivedIs(Run(start, inputs).hit, StoryOf(NothingYet(m), start, inputs).met);
  }

  // ---- a handshake without a ServerHello --------------------------------------------------------

  /** The handler of a ServerHello or of a HelloVerifyRequest fails, and the application calls again. */
  predicate Refuses(c: Client, e: Input) {
    && HasMessage(c.box, e) && !e.works
    && ((c.state.CrSrvrHello? && Type(c.box, e).ServerHello?)
        || (c.state.CrHelloVerify? && Type(c.box, e).HelloVerifyRequest?))
  }

  ghost predicate NoneRefused(c: Client, inputs: seq<Input>)
    decreases |inputs|
  {
    inputs == [] || (!Refuses(c, inputs[0]) && NoneRefused(Step(c, inputs[0]), inputs[1..]))
  }

  predicate HasHello(log: seq<Deed>) { |log| > 1 && log[1] == ServersHello }

  predicate Begun(w: Where) { !w.Before? && !w.CwClntHello? && !w.CrSrvrHello? }

  /** A ServerHello was taken, or what was seen in its place is about to be. */
  ghost predicate Seen(c: Client, log: seq<Deed>) {
    var w := Next(c);
    var seen :=
      && (c.dtls && (w.CwClntHello? || w.CrSrvrHello?) ==> !c.hit)
      && (Begun(w) && !HasHello(log) ==> c.state.CrHelloVerify? && c.box.reuse && c.box.message.HelloVerifyRequest?);
    seen
  }

  lemma {:induction false} StepSees(c: Client, t: Story, e: Input)
    requires Seen(c, t.log) && StoryFits(c, t) && !Refuses(c, e)
    ensures Seen(Step(c, e), Told(t, c, e).log)
  {
    match c.state
    case Before | CwClntHello | CwFlush => GreetingSees(c, t, e);
    case CrSrvrHello => HelloSees(c, t, e);
    case CrHelloVerify => HelloVerifySees(c, t, e);
    case _ => LaterSees(c, t, e);
  }

  lemma {:induction false} GreetingSees(c: Client, t: Story, e: Input)
    requires Seen(c, t.log) && ControlFits(c.state, c.next, c.hit)
    requires c.state.Before? || c.state.CwClntHello? || c.state.CwFlush?
    ensures Seen(Step(c, e), Told(t, c, e).log)
  {
  }

  lemma {:induction false} HelloSees(c: Client, t: Story, e: Input)
    requires Seen(c, t.log) && !Refuses(c, e) && c.state.CrSrvrHello? && t.log == [ClientHello]
    ensures Seen(Step(c, e), Told(t, c, e).log)
  {
  }

  lemma {:induction false} HelloVerifySees(c: Client, t: Story, e: Input)
    requires Seen(c, t.log) && !Refuses(c, e) && c.state.CrHelloVerify? && !c.hit
    ensures Seen(Step(c, e), Told(t, c, e).log)
  {
  }

  lemma {:induction false} LaterSees(c: Client, t: Story, e: Input)
    requires Seen(c, t.log) && !StageOf(c.state).Hello? && !c.state.CwFlush? && !c.state.CrHelloVerify?
    ensures Seen(Step(c, e), Told(t, c, e).log)
  {
    NotBack(c, e);
    assert HasHello(t.log) && Deeds(c, e) != [ClientHello];
    assert HasHello(t.log + Deeds(c, e));
    SeenOnce(Step(c, e), t.log + Deeds(c, e));
  }

  lemma {:induction false} SeenOnce(c: Client, log: seq<Deed>)
    requires Begun(Next(c)) && HasHello(log)
    ensures Seen(c, log)
  {
  }

  lemma {:induction false} NotBack(c: Client, e: Input)
    requires !StageOf(c.state).Hello? && !c.state.CwFlush? && !c.state.CrHelloVerify?
    ensures Begun(Next(Step(c, e)))
  {
  }

  lemma {:induction false} RunSees(c: Client, t: Story, inputs: seq<Input>)
    requires Seen(c, t.log) && StoryFits(c, t) && NoneRefused(c, inputs)
    ensures Seen(Run(c, inputs), StoryOf(t, c, inputs).log)
    decreases |inputs|
  {
    if inputs != [] {
      StepSees(c, t, inputs[0]);
      StepTells(c, t, inputs[0]);
      RunSees(Step(c, inputs[0]), Told(t, c, inputs[0]), inputs[1..]);
    }
  }

  /** Where no handler of a ServerHello or a HelloVerifyRequest has failed, a client that arrives has taken a
      ServerHello. */
  lemma {:induction false} ServerHelloTaken(start: Client, m: Choices, inputs: seq<Input>)
    requires IsStart(start) && Run(start, inputs).state.Ok? && NoneRefused(start, inputs)
    ensures HasHello(StoryOf(NothingYet(m), start, inputs).log)
  {
    RunSees(start, NothingYet(m), inputs);
  }

  lemma {:induction false} Both(c: Client, t: Story, e: Input, rest: seq<Input>)
    ensures Run(c, [e] + rest) == Run(Step(c, e), rest)
    ensures StoryOf(t, c, [e] + rest) == StoryOf(Told(t, c, e), Step(c, e), rest)
  {
    assert ([e] + rest)[1..] == rest;
  }

  lemma {:induction false} Three(c: Client, t: Story, a: Input, b: Input, e: Input, rest: seq<Input>)
    ensures var c3 := Step(Step(Step(c, a), b), e);
      var t3 := Told(Told(Told(t, c, a), Step(c, a), b), Step(Step(c, a), b), e);
      Run(c, [a, b, e] + rest) == Run(c3, rest) && StoryOf(t, c, [a, b, e] + rest) == StoryOf(t3, c3, rest)
  {
    assert [a, b, e] + rest == [a] + ([b] + ([e] + rest));
    Both(c, t, a, [b] + ([e] + rest));
    Both(Step(c, a), Told(t, c, a), b, [e] + rest);
    Both(Step(Step(c, a), b), Told(Told(t, c, a), Step(c, a), b), e, rest);
  }

  /** Elsewhere it need not: a HelloVerifyRequest is seen in place of the ServerHello and refused, and a client
      that is called again and resumes with its ticket arrives without one. */
  lemma {:induction false} NoServerHello(m: Choices) returns (inputs: seq<Input>)
    ensures Run(Start(true), inputs).state.Ok?
    ensures StoryOf(NothingYet(m), Start(true), inputs).log
            == [ClientHello, ServerFinished, ChangeCipherSpec, ClientFinished]
  {
    var hello, verify, finished := Resuming(ServerHello), Resuming(HelloVerifyRequest), Resuming(Finished);
    var more := [finished, finished.(ccs := true), finished] + [finished];
    var rest := [verify.(works := false), finished, finished.(hasTicket := true)] + more;
    inputs := [hello, hello, verify] + rest;
    var c, t := SeesVerify(m, rest);
    var d, u := ResumesWithTicket(c, t, more);
    ArrivesThen(d, u);
  }

  /** The client is about to take a HelloVerifyRequest that it saw where it awaited the ServerHello. */
  predicate HasSeen(c: Client, t: Story) {
    && c == Start(true).(state := CrHelloVerify, box := Inbox(false, false, true, HelloVerifyRequest, []))
    && t.log == [ClientHello]
  }

  lemma {:induction false} SeesVerify(m: Choices, rest: seq<Input>) returns (c: Client, t: Story)
    ensures HasSeen(c, t)
    ensures var inputs := [Resuming(ServerHello), Resuming(ServerHello), Resuming(HelloVerifyRequest)] + rest;
      && Run(Start(true), inputs) == Run(c, rest)
      && StoryOf(NothingYet(m), Start(true), inputs) == StoryOf(t, c, rest)
  {
    var hello, verify := Resuming(ServerHello), Resuming(HelloVerifyRequest);
    var c1, t1 := Step(Start(true), hello), Told(NothingYet(m), Start(true), hello);
    var c2, t2 := Step(c1, hello), Told(t1, c1, hello);
    c, t := Step(c2, verify), Told(t2, c2, verify);
    assert c1.state.CwClntHello? && t1.log == [];
    assert c2.state.CrSrvrHello? && t2.log == [ClientHello];
    Three(Start(true), NothingYet(m), hello, hello, verify, rest);
  }

  predicate HasResumed(c: Client, t: Story) {
    && c.dtls && c.state.CrFinished? && c.hit && c.box.reuse && !c.box.ccs && c.box.message.Finished?
    && t.log == [ClientHello]
  }

  lemma {:induction false} ResumesWithTicket(c: Client, t: Story, rest: seq<Input>) returns (d: Client, u: Story)
    requires HasSeen(c, t)
    ensures HasResumed(d, u)
    ensures var inputs := [Resuming(HelloVerifyRequest).(works := false), Resuming(Finished),
                           Resuming(Finished).(hasTicket := true)] + rest;
      Run(c, inputs) == Run(d, rest) && StoryOf(t, c, inputs) == StoryOf(u, d, rest)
  {
    var verify, finished := Resuming(HelloVerifyRequest).(works := false), Resuming(Finished);
    var c1, t1 := Step(c, verify), Told(t, c, verify);
    var c2, t2 := Step(c1, finished), Told(t1, c1, finished);
    d, u := Step(c2, finished.(hasTicket := true)), Told(t2, c2, finished.(hasTicket := true));
    assert c1.state.CrHelloVerify? && !c1.box.reuse && t1.log == [ClientHello];
    assert c2.state.CrCert? && c2.box.reuse && c2.box.message.Finished? && t2.log == [ClientHello];
    Three(c, t, verify, finished, finished.(hasTicket := true), rest);
  }

  lemma {:induction false} ArrivesThen(c: Client, t: Story)
    requires HasResumed(c, t)
    ensures var finished := Resuming(Finished);
      var inputs := [finished, finished.(ccs := true), finished] + [finished];
      && Run(c, inputs).state.Ok?
      && StoryOf(t, c, inputs).log == [ClientHello, ServerFinished, ChangeCipherSpec, ClientFinished]
  {
    var finished := Resuming(Finished);
    var c1, t1 := Step(c, finished), Told(t, c, finished);
    var c2, t2 := Step(c1, finished.(ccs := true)), Told(t1, c1, finished.(ccs := true));
    var c3, t3 := Step(c2, finished), Told(t2, c2, finished);
    assert c1.state.CrFinished? && c1.hit && !c1.box.reuse && c1.box.ccsOk && t1.log == [ClientHello];
    assert c2.state.CwChange? && c2.hit && t2.log == [ClientHello, ServerFinished];
    assert c3.state.CwFinished? && c3.hit && t3.log == [ClientHello, ServerFinished, ChangeCipherSpec];
    Three(c, t, finished, finished.(ccs := true), finished, [finished]);
    Both(c3, t3, finished, []);
    assert [finished] + [] == [finished];
  }

  lemma {:induction false} ArrivedIs(hit: bool, m: Choices)
    ensures DoneAt(Ok, hit, m) == if hit then ResumedHandshake(m) else FullHandshake(m)
  {
    LastThree(ToFinished(true, m), ServerFinished, ChangeCipherSpec, ClientFinished);
  }

  lemma {:induction false} LastThree(log: seq<Deed>, a: Deed, b: Deed, d: Deed)
    ensures log + [a] + [b, d] == log + [a, b, d]
  {
  }

  // ---- nothing is left unsent -----------------------------------------------------------------

  /** What is written stays in a buffer until it is flushed, but for the first hello. */
  predicate Writes(c: Client) {
    match c.state
    case CwClntHello => c.dtls && c.sendCookie
    case CwCert | CwKeyExch | CwCertVrfy | CwChange | CwFinished => true
    case _ => false
  }

  /** The flag to hold the Finished back is looked at, and applies. */
  predicate Delays(c: Client, e: Input) { c.state.CwFinished? && e.delayFinished && (c.hit || CutsThrough(c, e)) }

  /** Something may be in the buffer after a turn, given whether it may have been before. */
  function Holds(held: bool, c: Client, e: Input): bool {
    if c.state.CwFlush? && e.works then false else held || (Writes(c) && Succeeds(c, e))
  }

  function HeldAfter(held: bool, c: Client, inputs: seq<Input>): bool
    decreases |inputs|
  {
    if inputs == [] then held else HeldAfter(Holds(held, c, inputs[0]), Step(c, inputs[0]), inputs[1..])
  }

  ghost predicate NoneDelayed(c: Client, inputs: seq<Input>)
    decreases |inputs|
  {
    inputs == [] || (!Delays(c, inputs[0]) && NoneDelayed(Step(c, inputs[0]), inputs[1..]))
  }

  lemma {:induction false} StepFlushes(held: bool, c: Client, e: Input)
    requires (held ==> Writes(c) || c.state.CwFlush?) && !Delays(c, e)
    ensures Holds(held, c, e) ==> Writes(Step(c, e)) || Step(c, e).state.CwFlush?
  {
  }

  /** A client that awaits a message or has arrived holds nothing back, unless it was told to delay its
      Finished. */
  lemma {:induction false} ClientFlushes(held: bool, c: Client, inputs: seq<Input>)
    requires (held ==> Writes(c) || c.state.CwFlush?) && NoneDelayed(c, inputs)
    ensures var d := Run(c, inputs); HeldAfter(held, c, inputs) ==> Writes(d) || d.state.CwFlush?
    decreases |inputs|
  {
    if inputs != [] {
      StepFlushes(held, c, inputs[0]);
      ClientFlushes(Holds(held, c, inputs[0]), Step(c, inputs[0]), inputs[1..]);
    }
  }
}
