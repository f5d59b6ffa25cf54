/**
 The messages of the server's handshake (d1_srvr.c): what it has sent and taken when it arrives is a handshake
 of section 7.3 of RFC 2246, with just the optional messages that the flags it met call for.
 */
module ServerFlight {
  import opened Handshake
  import opened HandshakeServer

  datatype Deed =
    // sent
    | HelloVerifyRequest | ServerHello | Certificate | CertificateStatus | ServerKeyExchange | CertificateRequest
    | ServerHelloDone | NewSessionTicket | ChangeCipherSpec | ServerFinished
    // taken
    | ClientHello | ClientCertificate | ClientKeyExchange | CertificateVerify | ClientFinished

  /** What decides on the optional messages. */
  datatype Choices = Choices(
    cookie: bool,     // the last ClientHello had no valid cookie where one is asked for
    resumes: bool,    // it named a session the server has
    anonymous: bool, status: bool, sendsKeys: bool, asksCert: bool,
    certifies: bool,  // the client's certificate is there, and not the next message in its place
    excused: bool,    // the key exchange needs no CertificateVerify
    verifies: bool,   // the CertificateVerify that is awaited is there
    ticket: bool)

  function If(b: bool, d: Deed): seq<Deed> { if b then [d] else [] }

  // ---- what the standard asks for -------------------------------------------------------------

  /** The server's first flight; the client answers it with its key exchange. */
  function FirstFlight(c: Choices): seq<Deed> {
    [ClientHello, ServerHello] + If(!c.anonymous, Certificate) + If(!c.anonymous && c.status, CertificateStatus)
    + If(c.sendsKeys, ServerKeyExchange) + If(c.asksCert, CertificateRequest) + [ServerHelloDone]
  }

  function FullHandshake(c: Choices): seq<Deed> {
    FirstFlight(c)
    + If(c.certifies, ClientCertificate) + [ClientKeyExchange] + If(!c.excused && c.verifies, CertificateVerify)
    + [ClientFinished]
    + If(c.ticket, NewSessionTicket) + [ChangeCipherSpec, ServerFinished]
  }

  function ResumedHandshake(c: Choices): seq<Deed> {
    [ClientHello, ServerHello] + If(c.ticket, NewSessionTicket) + [ChangeCipherSpec, ServerFinished, ClientFinished]
  }

  /** What was done from one ClientHello to the next. */
  datatype Round = Round(log: seq<Deed>, met: Choices)

  /** A cookie is sent exactly when one is missing; otherwise a first flight is answered by another hello. */
  predicate IsRound(r: Round) {
    r.log == if r.met.cookie then [ClientHello, HelloVerifyRequest] else FirstFlight(r.met)
  }

  // ---- what the loop does ---------------------------------------------------------------------

  /** The message sent or taken in one turn, if the handler of the state comes to it and does not fail. */
  function Deeds(s: Server, e: Input): seq<Deed> {
    match s.state
    case SrClntHello => If(HasMessage(s.box, e) && e.works, ClientHello)
    case SwHelloVerify => If(e.works, HelloVerifyRequest)
    case SwSrvrHello => If(e.works, ServerHello)
    case SwCert => If(!e.anonymous && e.works, Certificate)
    case SwCertStatus => If(e.works, CertificateStatus)
    case SwKeyExch => If(e.sendsKeys && e.works, ServerKeyExchange)
    case SwCertReq => If(e.asksCert && e.works, CertificateRequest)
    case SwSrvrDone => If(e.works, ServerHelloDone)
    case SrCert => If(HasMessage(s.box, e) && !e.secondHello && e.works && !e.putBack, ClientCertificate)
    case SrKeyExch => If(HasMessage(s.box, e) && e.works, ClientKeyExchange)
    case SrCertVrfy => If(HasMessage(s.box, e) && e.works && !e.putBack, CertificateVerify)
    case SrFinished => If(Takes(Ready(s), e) && e.digestMatches, ClientFinished)
    case SwSessionTicket => If(e.works, NewSessionTicket)
    case SwChange => If(e.keyBlock && e.works, ChangeCipherSpec)
    case SwFinished => If(e.works, ServerFinished)
    case _ => []
  }

  /** The flags as they were met last where they are looked at. */
  function Met(c: Choices, s: Server, e: Input): Choices {
    match s.state
    case SrClntHello => c.(cookie := e.freshCookie, resumes := e.resumes)
    case SwSrvrHello => if s.hit then c.(ticket := e.ticketExpected) else c
    case SwCert => c.(anonymous := e.anonymous, status := e.statusExpected)
    case SwKeyExch => c.(sendsKeys := e.sendsKeys)
    case SwCertReq => c.(asksCert := e.asksCert)
    case SrCert => c.(certifies := !e.putBack)
    case SrKeyExch => c.(excused := e.noVerify)
    case SrCertVrfy => c.(verifies := !e.putBack)
    case SrFinished => if s.hit then c else c.(ticket := e.ticketExpected)
    case _ => c
  }

  /** The rounds before the last ClientHello, what was done since, and the flags met. */
  datatype Story = Story(rounds: seq<Round>, log: seq<Deed>, met: Choices)

  function Told(t: Story, s: Server, e: Input): Story {
    var d := Deeds(s, e);
    if d == [ClientHello] then
      Story(if t.log == [] then t.rounds else t.rounds + [Round(t.log, t.met)], d, Met(t.met, s, e))
    else if s.state.SrClntHello? then t
    else Story(t.rounds, t.log + d, Met(t.met, s, e))
  }

  function StoryOf(t: Story, s: Server, inputs: seq<Input>): Story
    decreases |inputs|
  {
    if inputs == [] then t else StoryOf(Told(t, s, inputs[0]), Step(s, inputs[0]), inputs[1..])
  }

  /** Before the handshake; what the flags are then has no part in it. */
  function NothingYet(c: Choices): Story { Story([], [], c) }

  // ---- what every turn keeps ------------------------------------------------------------------

  function Hello(): seq<Deed> { [ClientHello, ServerHello] }
  function ToCert(c: Choices): seq<Deed> { Hello() + If(!c.anonymous, Certificate) }
  function ToStatus(c: Choices): seq<Deed> { ToCert(c) + If(!c.anonymous && c.status, CertificateStatus) }
  function ToKeys(c: Choices): seq<Deed> { ToStatus(c) + If(c.sendsKeys, ServerKeyExchange) }
  function ToRequest(c: Choices): seq<Deed> { ToKeys(c) + If(c.asksCert, CertificateRequest) }
  function ToClientCert(c: Choices): seq<Deed> { FirstFlight(c) + If(c.certifies, ClientCertificate) }
  function ToClientKeys(c: Choices): seq<Deed> { ToClientCert(c) + [ClientKeyExchange] }
  function ToVerify(c: Choices): seq<Deed> { ToClientKeys(c) + If(!c.excused && c.verifies, CertificateVerify) }

  /** What was done before the ticket that the server may send. */
  function ToTicket(hit: bool, c: Choices): seq<Deed> { if hit then Hello() else ToVerify(c) + [ClientFinished] }

  function ToChange(hit: bool, c: Choices): seq<Deed> { ToTicket(hit, c) + If(c.ticket, NewSessionTicket) }

  /** What has been done when a state is entered. */
  function DoneAt(w: Where, hit: bool, c: Choices): seq<Deed> {
    match w
    case SwHelloVerify | SwSrvrHello => [ClientHello]
    case SwCert => Hello()
    case SwCertStatus => ToCert(c)
    case SwKeyExch => ToStatus(c)
    case SwCertReq => ToKeys(c)
    case SwSrvrDone => ToRequest(c)
    case SrCert => FirstFlight(c)
    case SrKeyExch => ToClientCert(c)
    case SrCertVrfy => ToClientKeys(c)
    case SrFinished => if hit then ToChange(true, c) + [ChangeCipherSpec, ServerFinished] else ToVerify(c)
    case SwSessionTicket => ToTicket(hit, c)
    case SwChange => ToChange(hit, c)
    case SwFinished => ToChange(hit, c) + [ChangeCipherSpec]
    case Ok =>
      ToChange(hit, c) + [ChangeCipherSpec, ServerFinished] + if hit then [ClientFinished] else []
    case _ => []
  }

  /** Where an optional message is about to be sent or taken, its flag was met. */
  predicate Called(w: Where, hit: bool, c: Choices) {
    match w
    case Before => true
    case SwHelloVerify => c.cookie
    case SwCertStatus => !c.cookie && hit == c.resumes && !c.anonymous && c.status
    case SrCertVrfy => !c.cookie && hit == c.resumes && !c.excused
    case SwSessionTicket => !c.cookie && hit == c.resumes && c.ticket
    case _ => !c.cookie && hit == c.resumes
  }

  ghost predicate LogFits(w: Where, hit: bool, t: Story) {
    var fits :=
      if w.SrClntHello? then t.log == [] || IsRound(Round(t.log, t.met))
      else t.log == DoneAt(w, hit, t.met) && Called(w, hit, t.met);
    fits
  }

  /** The state, or the one after a flush. */
  function Next(s: Server): Where { if s.state.SwFlush? then s.next else s.state }

  predicate RoundsFit(rounds: seq<Round>) { forall k | 0 <= k < |rounds| :: IsRound(rounds[k]) }

  /** Nothing is said of a server that only asks for renegotiation. */
  ghost predicate StoryFits(s: Server, t: Story) {
    ControlFits(s) && (Asks(s) || (LogFits(Next(s), s.hit, t) && RoundsFit(t.rounds)))
  }

  /** From a ClientHello to the ServerHello. */
  lemma {:induction false} HelloTells(s: Server, t: Story, e: Input)
    requires LogFits(Next(s), s.hit, t) && RoundsFit(t.rounds)
    requires s.state.Before? || s.state.SrClntHello? || s.state.SwHelloVerify? || s.state.SwSrvrHello?
    ensures var s', t' := Step(s, e), Told(t, s, e);
      LogFits(Next(s'), s'.hit, t') && RoundsFit(t'.rounds)
  {
    if s.state.SrClntHello? {
      ClientHelloTells(s, t, e);
    }
  }

  lemma {:induction false} ClientHelloTells(s: Server, t: Story, e: Input)
    requires LogFits(s.state, s.hit, t) && RoundsFit(t.rounds) && s.state.SrClntHello?
    ensures var s', t' := Step(s, e), Told(t, s, e);
      LogFits(Next(s'), s'.hit, t') && RoundsFit(t'.rounds)
  {
  }

  lemma {:induction false} FirstFlightTells(s: Server, t: Story, e: Input)
    requires LogFits(s.state, s.hit, t) && !s.hit
    requires s.state.SwCert? || s.state.SwCertStatus? || s.state.SwKeyExch? || s.state.SwCertReq? || s.state.SwSrvrDone?
    ensures var s', t' := Step(s, e), Told(t, s, e);
      LogFits(Next(s'), s'.hit, t') && t'.rounds == t.rounds
  {
    if s.state.SwCert? {
      ServerCertTells(s, t, e);
    } else {
      MoreTells(s, t, e);
    }
  }

  lemma {:induction false} ServerCertTells(s: Server, t: Story, e: Input)
    requires LogFits(s.state, s.hit, t) && !s.hit && s.state.SwCert?
    ensures var s', t' := Step(s, e), Told(t, s, e);
      LogFits(Next(s'), s'.hit, t') && t'.rounds == t.rounds
  {
  }

  lemma {:induction false} MoreTells(s: Server, t: Story, e: Input)
    requires LogFits(s.state, s.hit, t) && !s.hit
    requires s.state.SwCertStatus? || s.state.SwKeyExch? || s.state.SwCertReq? || s.state.SwSrvrDone?
    ensures var s', t' := Step(s, e), Told(t, s, e);
      LogFits(Next(s'), s'.hit, t') && t'.rounds == t.rounds
  {
  }

  /** A flag that is looked at later has no part in what was done before. */
  lemma {:induction false} ExcusedLater(c: Choices, b: bool)
    ensures ToClientCert(c.(excused := b)) == ToClientCert(c)
  {
  }

  lemma {:induction false} TicketLater(c: Choices, b: bool)
    ensures ToVerify(c.(ticket := b)) == ToVerify(c)
  {
  }

  lemma {:induction false} ClientFlightTells(s: Server, t: Story, e: Input)
    requires LogFits(s.state, s.hit, t) && !s.hit
    requires s.state.SrCert? || s.state.SrKeyExch? || s.state.SrCertVrfy?
    ensures var s', t' := Step(s, e), Told(t, s, e);
      LogFits(Next(s'), s'.hit, t') && t'.rounds == t.rounds
  {
    if s.state.SrKeyExch? {
      KeyExchangeTells(s, t, e);
    } else if s.state.SrCert? {
      CertificateTells(s, t, e);
    } else {
      VerifyTells(s, t, e);
    }
  }

  lemma {:induction false} CertificateTells(s: Server, t: Story, e: Input)
    requires LogFits(s.state, s.hit, t) && !s.hit && s.state.SrCert?
    ensures var s', t' := Step(s, e), Told(t, s, e);
      LogFits(Next(s'), s'.hit, t') && t'.rounds == t.rounds
  {
    AfterFirstFlight(t.met, !e.putBack);
    var goes := Succeeds(s, e) && !e.secondHello;
    var log := t.log + if goes then If(!e.putBack, ClientCertificate) else [];
    assert Told(t, s, e) == Story(t.rounds, log, t.met.(certifies := !e.putBack));
  }

  lemma {:induction false} AfterFirstFlight(met: Choices, certifies: bool)
    ensures var c, log := met.(certifies := certifies), DoneAt(SrCert, false, met);
      && log + [] == log && DoneAt(SrCert, false, c) == log
      && DoneAt(SrKeyExch, false, c) == log + If(certifies, ClientCertificate)
  {
  }

  lemma {:induction false} VerifyTells(s: Server, t: Story, e: Input)
    requires LogFits(s.state, s.hit, t) && !s.hit && s.state.SrCertVrfy?
    ensures var s', t' := Step(s, e), Told(t, s, e);
      LogFits(Next(s'), s'.hit, t') && t'.rounds == t.rounds
  {
    AfterClientKeys(t.met, !e.putBack);
    var log := t.log + if Succeeds(s, e) then If(!e.putBack, CertificateVerify) else [];
    assert Told(t, s, e) == Story(t.rounds, log, t.met.(verifies := !e.putBack));
  }

  lemma {:induction false} AfterClientKeys(met: Choices, verifies: bool)
    ensures var c, log := met.(verifies := verifies), DoneAt(SrCertVrfy, false, met);
      && log + [] == log && DoneAt(SrCertVrfy, false, c) == log
      && (!c.excused ==> DoneAt(SrFinished, false, c) == log + If(verifies, CertificateVerify))
  {
  }

  lemma {:induction false} KeyExchangeTells(s: Server, t: Story, e: Input)
    requires LogFits(s.state, s.hit, t) && !s.hit && s.state.SrKeyExch?
    ensures var s', t' := Step(s, e), Told(t, s, e);
      LogFits(Next(s'), s'.hit, t') && t'.rounds == t.rounds
  {
    AfterKeyExchange(t.met, e.noVerify);
    assert Told(t, s, e) == Story(t.rounds, t.log + Deeds(s, e), t.met.(excused := e.noVerify));
  }

  lemma {:induction false} AfterKeyExchange(met: Choices, excused: bool)
    ensures var c, log := met.(excused := excused), DoneAt(SrKeyExch, false, met);
      && DoneAt(SrKeyExch, false, c) == log == log + []
      && DoneAt(SrCertVrfy, false, c) == log + [ClientKeyExchange]
      && (excused ==> DoneAt(SrFinished, false, c) == log + [ClientKeyExchange])
  {
    ExcusedLater(met, excused);
    NoneOrOne(ToClientCert(met) + [ClientKeyExchange]);
  }

  lemma {:induction false} FinishedTells(s: Server, t: Story, e: Input)
    requires LogFits(s.state, s.hit, t) && s.state.SrFinished?
    ensures var s', t' := Step(s, e), Told(t, s, e);
      LogFits(Next(s'), s'.hit, t') && t'.rounds == t.rounds
  {
    if s.hit {
      ResumedFinishedTells(s, t, e);
    } else {
      FullFinishedTells(s, t, e);
    }
  }

  lemma {:induction false} FullFinishedTells(s: Server, t: Story, e: Input)
    requires LogFits(s.state, false, t) && s.state.SrFinished? && !s.hit
    ensures var s', t' := Step(s, e), Told(t, s, e);
      LogFits(Next(s'), s'.hit, t') && t'.rounds == t.rounds
  {
    var c := t.met.(ticket := e.ticketExpected);
    AfterVerify(t.met, e.ticketExpected);
    var s', t' := Step(s, e), Told(t, s, e);
    if Takes(Ready(s), e) && e.digestMatches {
      assert t' == Story(t.rounds, t.log + [ClientFinished], c);
    } else {
      assert t' == Story(t.rounds, t.log + [], c);
    }
  }

  lemma {:induction false} AfterVerify(met: Choices, ticket: bool)
    ensures var c, log := met.(ticket := ticket), DoneAt(SrFinished, false, met);
      && DoneAt(SrFinished, false, c) == log + [] && DoneAt(SwSessionTicket, false, c) == log + [ClientFinished]
      && (!ticket ==> DoneAt(SwChange, false, c) == log + [ClientFinished])
  {
    TicketLater(met, ticket);
    NoTicketYet(ToVerify(met) + [ClientFinished]);
  }

  lemma {:induction false} NoneOrOne(log: seq<Deed>)
    ensures log + If(false, CertificateVerify) == log
  {
  }

  lemma {:induction false} NoTicketYet(log: seq<Deed>)
    ensures log + If(false, NewSessionTicket) == log
  {
  }

  lemma {:induction false} ResumedFinishedTells(s: Server, t: Story, e: Input)
    requires LogFits(s.state, true, t) && s.state.SrFinished? && s.hit
    ensures var s', t' := Step(s, e), Told(t, s, e);
      LogFits(Next(s'), s'.hit, t') && t'.rounds == t.rounds
  {
  }

  lemma {:induction false} LastFlightTells(s: Server, t: Story, e: Input)
    requires LogFits(s.state, s.hit, t) && (s.state.SwSessionTicket? || s.state.SwChange? || s.state.SwFinished?)
    ensures var s', t' := Step(s, e), Told(t, s, e);
      LogFits(Next(s'), s'.hit, t') && t'.rounds == t.rounds
  {
    if s.state.SwSessionTicket? {
      assert t.met.ticket;
    } else {
      ChangeTells(s, t, e);
    }
  }

  lemma {:induction false} ChangeTells(s: Server, t: Story, e: Input)
    requires LogFits(s.state, s.hit, t) && (s.state.SwChange? || s.state.SwFinished?)
    ensures var s', t' := Step(s, e), Told(t, s, e);
      LogFits(Next(s'), s'.hit, t') && t'.rounds == t.rounds
  {
    AfterChange(s.hit, t.met);
    var d := Deeds(s, e);
    assert Told(t, s, e) == Story(t.rounds, t.log + d, t.met);
  }

  lemma {:induction false} AfterChange(hit: bool, c: Choices)
    ensures var log := DoneAt(SwChange, hit, c);
      && log + [] == log && DoneAt(SwFinished, hit, c) == log + [ChangeCipherSpec]
      && DoneAt(SwFinished, hit, c) + [] == DoneAt(SwFinished, hit, c)
      && DoneAt(if hit then SrFinished else Ok, hit, c) == DoneAt(SwFinished, hit, c) + [ServerFinished]
  {
    LastOne(ToChange(hit, c), ChangeCipherSpec, ServerFinished, ClientFinished);
  }

  lemma {:induction false} AskingGoesOn(s: Server, e: Input)
    requires Asks(s)
    ensures Asks(Step(s, e))
  {
  }

  lemma {:induction false} StepTells(s: Server, t: Story, e: Input)
    requires StoryFits(s, t)
    ensures StoryFits(Step(s, e), Told(t, s, e))
  {
    ControlKeeps(s, e);
    if Asks(s) {
      AskingGoesOn(s, e);
    } else {
      match s.state
      case Before | SrClntHello | SwHelloVerify | SwSrvrHello => HelloTells(s, t, e);
      case SwCert | SwCertStatus | SwKeyExch | SwCertReq | SwSrvrDone => FirstFlightTells(s, t, e);
      case SrCert | SrKeyExch | SrCertVrfy => ClientFlightTells(s, t, e);
      case SrFinished => FinishedTells(s, t, e);
      case SwSessionTicket | SwChange | SwFinished => LastFlightTells(s, t, e);
      case _ =>
    }
  }

  lemma {:induction false} RunTells(s: Server, t: Story, inputs: seq<Input>)
    requires StoryFits(s, t)
    ensures StoryFits(Run(s, inputs), StoryOf(t, s, inputs))
    decreases |inputs|
  {
    if inputs != [] {
      StepTells(s, t, inputs[0]);
      RunTells(Step(s, inputs[0]), Told(t, s, inputs[0]), inputs[1..]);
    }
  }

  /** Whatever comes in and whichever handlers fail meanwhile: a server that arrives has sent and taken, since the
      last ClientHello, exactly the messages of a full or of a resumed handshake, in their order, each optional
      one exactly when its flag was met. It was resumed exactly when that hello named a session the server
      has, and the hello brought a cookie if one is asked for. Before it there were only rounds. */
  lemma {:induction false} ServerFlights(start: Server, c: Choices, inputs: seq<Input>)
    requires IsStart(start) && Arrives(start, inputs)
    ensures var t := StoryOf(NothingYet(c), start, inputs);
      && t.log == (if t.met.resumes then ResumedHandshake(t.met) else FullHandshake(t.met))
      && Run(start, inputs).hit == t.met.resumes && !t.met.cookie
      && forall k | 0 <= k < |t.rounds| :: IsRound(t.rounds[k])
  {
    RunTells(start, NothingYet(c), inputs);
    ArrivedIs(Run(start, inputs).hit, StoryOf(NothingYet(c), start, inputs).met);
  }

  lemma {:induction false} ArrivedIs(hit: bool, c: Choices)
    ensures DoneAt(Ok, hit, c) == if hit then ResumedHandshake(c) else FullHandshake(c)
  {
    LastOne(ToChange(hit, c), ChangeCipherSpec, ServerFinished, ClientFinished);
  }

  lemma {:induction false} LastOne(log: seq<Deed>, a: Deed, b: Deed, d: Deed)
    ensures log + [a, b] + [d] == log + [a, b, d] && log + [a, b] + [] == log + [a, b]
    ensures log + [a] + [b] == log + [a, b]
  {
  }

  // ---- nothing is left unsent -----------------------------------------------------------------

  /** What is written stays in a buffer until it is flushed. */
  predicate Writes(w: Where) {
    match w
    case SwHelloReq | SwHelloVerify | SwSrvrHello | SwCert | SwCertStatus | SwKeyExch | SwCertReq | SwSrvrDone => true
    case SwSessionTicket | SwChange | SwFinished => true
    case _ => false
  }

  /** Something may be in the buffer after a turn, given whether it may have been before. */
  function Holds(held: bool, s: Server, e: Input): bool {
    if s.state.SwFlush? && e.works then false else held || (Writes(s.state) && Succeeds(s, e))
  }

  function HeldAfter(held: bool, s: Server, inputs: seq<Input>): bool
    decreases |inputs|
  {
    if inputs == [] then held else HeldAfter(Holds(held, s, inputs[0]), Step(s, inputs[0]), inputs[1..])
  }

  lemma {:induction false} StepFlushes(held: bool, s: Server, e: Input)
    requires held ==> Writes(s.state) || s.state.SwFlush?
    ensures Holds(held, s, e) ==> Writes(Step(s, e).state) || Step(s, e).state.SwFlush?
  {
  }

  /** A server that awaits a message or has arrived holds nothing back. */
  lemma {:induction false} ServerFlushes(held: bool, s: Server, inputs: seq<Input>)
    requires held ==> Writes(s.state) || s.state.SwFlush?
    ensures var w := Run(s, inputs).state; HeldAfter(held, s, inputs) ==> Writes(w) || w.SwFlush?
    decreases |inputs|
  {
    if inputs != [] {
      StepFlushes(held, s, inputs[0]);
      ServerFlushes(Holds(held, s, inputs[0]), Step(s, inputs[0]), inputs[1..]);
    }
  }
}
