/** The SMTP command loop. A session reads command lines and message bodies from one stream of
    octets; every reply that matters and every call to a handler is recorded in a ghost log, and what
    the loop may do is stated on that log alone. Parsing a line and the answers of handlers, of the
    chaos triggers and of the network are arbitrary. */
module SmtpSession {
  import opened Basics
  import opened Bytes
  import opened DotStuffing
  import opened SmtpData

  // ---------------------------------------------------------------- commands and answers

  datatype SizeParam = NoSize | BadSize | Size(size: int)

  datatype MailParams = NoParams | Params(validAuth: bool, size: SizeParam)

  datatype MailArgs = BadSender | Sender(address: string, params: MailParams)

  datatype RcptArgs = BadRecipient | Recipient(address: string)

  datatype Mechanism = Plain | Login | CramMd5

  datatype AuthArgs = NoMechanism | UnknownMechanism | Auth(mech: Mechanism, initial: bool)

  datatype Command =
    | Hello                       // HELO or EHLO
    | Mail(mail: MailArgs)
    | Rcpt(rcpt: RcptArgs)
    | Data
    | Quit
    | Rset
    | Other                       // NOOP, XCLIENT, HELP, VRFY, EXPN and unknown verbs
    | StartTls(noArgs: bool)
    | Authenticate(auth: AuthArgs)

  datatype Server = Server(
    tlsConfigured: bool,
    tlsRequired: bool,
    hasAuthHandler: bool,
    authRequired: bool,
    authMechs: map<Mechanism, bool>,
    maxSize: int,
    maxRecipients: int,
    hasRcptHandler: bool,
    ignoreRejectedRecipients: bool,
    hasMailHandler: bool,         // Handler or MsgIDHandler
    parse: bytes -> Command)
  {
    /** No limit on recipients given means the minimum that section 4.5.3.1.8 of RFC 5321 asks for. */
    function WithDefaults(): Server {
      if maxRecipients == 0 then this.(maxRecipients := 100) else this
    }

    predicate NeedsTls() { tlsConfigured && tlsRequired }

    predicate NeedsAuth() { hasAuthHandler && authRequired }

    /** A plaintext mechanism needs TLS unless the configuration overrides it. */
    predicate MechAllowed(mech: Mechanism, tls: bool) {
      if mech in authMechs then authMechs[mech] else mech.CramMd5? || tls
    }
  }

  /** Everything outside the session that one round of the loop may ask for. */
  datatype Answers = Answers(
    chaos: bool,
    approved: bool,               // HandlerRcpt
    received: bytes,              // the Received header
    handled: bool,                // Handler or MsgIDHandler returned no error
    handshake: bool,
    onward: bytes,                // what is read after a handshake: inside TLS, or left in clear if it failed
    decoded: bool, decodedNext: bool,
    credentials: bool)            // AuthHandler

  // ---------------------------------------------------------------- the log

  datatype Event =
    | Line(raw: bytes)                           // octets read as a command or AUTH line
    | Taken(raw: bytes)                          // octets read as a message
    | TooBig(raw: bytes)                         // octets of a message refused for its size
    | Cut(raw: bytes)                            // octets of a message the connection cut short
    | Greeted
    | MailAccepted(from: string)
    | MailRefused
    | RcptAsked(from: string, recipient: string, approved: bool)
    | RcptAccepted(recipient: string)
    | RcptSwallowed                              // refused, but answered 250
    | WasReset
    | TlsStarted
    | TlsFailed
    | AuthChecked(mech: Mechanism, granted: bool)
    | Handed(from: string, to: seq<string>, data: bytes, text: bytes, accepted: bool)
    | Dropped                                    // answered 250 without a handler call
  {
    predicate HasOctets() { Taken? || TooBig? || Cut? }
  }

  datatype Transaction = Transaction(from: string, to: seq<string>)

  datatype State = State(
    greeted: bool, tls: bool, authenticated: bool,
    mail: Option<Transaction>, swallowed: bool,
    octets: bytes)                               // read from the present stream

  function Update(st: State, e: Event): State {
    match e
    case Line(raw) => st.(octets := st.octets + raw)
    case Taken(raw) => st.(octets := st.octets + raw)
    case TooBig(raw) => st.(octets := st.octets + raw)
    case Cut(raw) => st.(octets := st.octets + raw)
    case Greeted => st.(greeted := true, mail := None, swallowed := false)
    case MailAccepted(from) => st.(mail := Some(Transaction(from, [])), swallowed := false)
    case MailRefused => st.(swallowed := false)
    case RcptAsked(_, _, _) => st
    case RcptAccepted(to) =>
      (match st.mail
       case None => st
       case Some(t) => st.(mail := Some(t.(to := t.to + [to]))))
    case RcptSwallowed => st.(swallowed := true)
    case WasReset => st.(mail := None, swallowed := false)
    case TlsStarted => st.(tls := true, mail := None, swallowed := false, octets := [])
    case TlsFailed => st.(octets := [])
    case AuthChecked(_, granted) => st.(authenticated := granted)
    case Handed(_, _, _, _, accepted) => if accepted then st.(mail := None, swallowed := false) else st
    case Dropped => st.(mail := None, swallowed := false)
  }

  function After(tls: bool, log: seq<Event>): State {
    if log == [] then State(false, tls, false, None, false, [])
    else Update(After(tls, log[..|log| - 1]), log[|log| - 1])
  }

  function Apply(st: State, es: seq<Event>): State
    decreases |es|
  {
    if es == [] then st else Apply(Update(st, es[0]), es[1..])
  }

  lemma {:induction false} AfterMore(tls: bool, log: seq<Event>, es: seq<Event>)
    ensures After(tls, log + es) == Apply(After(tls, log), es)
    decreases |es|
  {
    if es == [] {
      assert log + es == log;
    } else {
      assert (log + [es[0]])[..|log|] == log;
      AfterMore(tls, log + [es[0]], es[1..]);
      assert (log + [es[0]]) + es[1..] == log + es;
    }
  }

  /** A state, and the stream that the session reads in it. */
  datatype Place = Place(st: State, stream: bytes)
  {
    function Rest(): bytes {
      if |st.octets| <= |stream| then stream[|st.octets|..] else []
    }
  }

  predicate SwitchesStream(es: seq<Event>) {
    es != [] && (es[|es| - 1].TlsStarted? || es[|es| - 1].TlsFailed?)
  }

  function Advance(p: Place, a: Answers, es: seq<Event>): Place {
    Place(Apply(p.st, es), if SwitchesStream(es) then a.onward else p.stream)
  }

  predicate MayTransact(srv: Server, st: State) {
    (srv.NeedsTls() ==> st.tls) && (srv.NeedsAuth() ==> st.authenticated)
  }

  function Last(log: seq<Event>): Option<Event> {
    if log == [] then None else Some(log[|log| - 1])
  }

  /** The octets of one complete message. */
  ghost predicate IsMessage(raw: bytes) {
    |raw| >= 3 && FindEnd(raw, true) == Some(|raw| - 3)
  }

  function TextOf(raw: bytes): bytes
    requires |raw| >= 3
  {
    Unstuff(raw[..|raw| - 3], true)
  }

  ghost predicate IsTextOf(text: bytes, e: Event) {
    e.Taken? && |e.raw| >= 3 && IsMessage(e.raw) && text == TextOf(e.raw)
  }

  ghost predicate EndsWith(data: bytes, text: bytes) {
    |data| >= |text| && data[|data| - |text|..] == text
  }

  ghost predicate AllowedOctets(srv: Server, e: Event) {
    match e
    case Line(raw) => IsLine(raw) || NoLF(raw)
    case Taken(raw) => IsMessage(raw) && !OverLimit(|TextOf(raw)|, srv.maxSize)
    case TooBig(raw) => FindEnd(raw, true).Some? ==> IsMessage(raw) && OverLimit(|TextOf(raw)|, srv.maxSize)
    case Cut(raw) => FindEnd(raw, true).None?
    case _ => true
  }

  /** Whether the session may record e in the given state, just after the event `last`. */
  ghost predicate Allowed(srv: Server, st: State, last: Option<Event>, e: Event) {
    match e
    case Line(_) => AllowedOctets(srv, e)
    case Taken(_) => AllowedOctets(srv, e)
    case TooBig(_) => AllowedOctets(srv, e)
    case Cut(_) => AllowedOctets(srv, e)
    case MailAccepted(_) => MayTransact(srv, st) && st.greeted && (st.mail.Some? ==> st.mail.value.to == [])
    case RcptAsked(from, _, _) => st.mail.Some? && from == st.mail.value.from
    case RcptAccepted(to) =>
      && MayTransact(srv, st)
      && st.mail.Some?
      && |st.mail.value.to| < srv.maxRecipients
      && (srv.hasRcptHandler ==> last == Some(RcptAsked(st.mail.value.from, to, true)))
    case RcptSwallowed =>
      st.mail.Some? && srv.ignoreRejectedRecipients && last.Some? && last.value.RcptAsked? && !last.value.approved
    case AuthChecked(mech, _) =>
      !st.authenticated && st.mail.None? && (srv.NeedsTls() ==> st.tls) && srv.MechAllowed(mech, st.tls)
    case Handed(from, to, data, text, _) =>
      && MayTransact(srv, st)
      && st.mail == Some(Transaction(from, to))
      && to != []
      && last.Some? && IsTextOf(text, last.value)
      && EndsWith(data, text)
    case Dropped =>
      && MayTransact(srv, st)
      && st.mail.Some?
      && (if st.mail.value.to == [] then st.swallowed else !srv.hasMailHandler)
      && last.Some? && last.value.Taken?
    case TlsStarted => !st.tls && srv.tlsConfigured
    case TlsFailed => !st.tls && srv.tlsConfigured
    case _ => true
  }

  // ---------------------------------------------------------------- what each command does

  predicate ParamsRefused(srv: Server, params: MailParams) {
    params.Params?
    && (!params.validAuth || params.size.BadSize?
        || (params.size.Size? && srv.maxSize > 0 && params.size.size > srv.maxSize))
  }

  function MailReaction(srv: Server, st: State, args: MailArgs, a: Answers): seq<Event> {
    if !MayTransact(srv, st) || !st.greeted || (st.mail.Some? && st.mail.value.to != []) then []
    else if args.BadSender? then [MailRefused]
    else if a.chaos then []
    else if ParamsRefused(srv, args.params) then [MailRefused]
    else [MailAccepted(args.address)]
  }

  function RcptReaction(srv: Server, st: State, args: RcptArgs, a: Answers): seq<Event> {
    if !MayTransact(srv, st) || st.mail.None? || args.BadRecipient? || a.chaos
       || |st.mail.value.to| >= srv.maxRecipients then []
    else if !srv.hasRcptHandler then [RcptAccepted(args.address)]
    else
      [RcptAsked(st.mail.value.from, args.address, a.approved)]
      + (if a.approved then [RcptAccepted(args.address)]
         else if srv.ignoreRejectedRecipients then [RcptSwallowed]
         else [])
  }

  predicate DataAdmitted(srv: Server, st: State) {
    MayTransact(srv, st) && st.mail.Some? && (st.mail.value.to != [] || st.swallowed)
  }

  /** What follows the octets of an admitted message. */
  function DataReaction(srv: Server, st: State, octets: Event, a: Answers): seq<Event>
    requires st.mail.Some?
  {
    if !octets.Taken? || |octets.raw| < 3 then []
    else if st.mail.value.to != [] && srv.hasMailHandler then
      var text := TextOf(octets.raw);
      [Handed(st.mail.value.from, st.mail.value.to, a.received + text, text, a.handled)]
    else [Dropped]
  }

  function RsetReaction(srv: Server, st: State): seq<Event> {
    if srv.NeedsTls() && !st.tls then [] else [WasReset]
  }

  function StartTlsReaction(srv: Server, st: State, noArgs: bool, a: Answers): seq<Event> {
    if !noArgs || !srv.tlsConfigured || st.tls then []
    else if a.handshake then [TlsStarted]
    else [TlsFailed]
  }

  predicate AuthAdmitted(srv: Server, st: State, args: AuthArgs, a: Answers) {
    && (srv.NeedsTls() ==> st.tls) && srv.hasAuthHandler && !st.authenticated && st.mail.None?
    && args.Auth? && srv.MechAllowed(args.mech, st.tls) && !a.chaos
  }

  /** The first line of s, or all of it when no line feed comes. */
  function LineOctets(s: bytes): bytes {
    if IndexLF(s) < |s| then s[..IndexLF(s) + 1] else s
  }

  /** The octets of the message at the start of s: all of s when no end line comes. */
  ghost function MessageOctets(s: bytes): bytes {
    match FindEnd(s, true)
    case None => s
    case Some(p) => s[..p + 3]
  }

  /** The events are the reading of so many lines, one after the other. */
  predicate AreNextLines(rest: bytes, es: seq<Event>)
    decreases |es|
  {
    es == [] || (es[0] == Line(LineOctets(rest)) && AreNextLines(rest[|LineOctets(rest)|..], es[1..]))
  }

  function LinesNeeded(mech: Mechanism, initial: bool): nat {
    (if mech.CramMd5? || !initial then 1 else 0) + (if mech.Login? then 1 else 0)
  }

  predicate Decodes(mech: Mechanism, a: Answers) {
    a.decoded && (mech.Login? ==> a.decodedNext)
  }

  /** A line that fits the buffer: with its line feed, or, when the connection ends before one, with the place
      where it would be. */
  ghost predicate Fits(raw: bytes, capacity: nat) {
    raw != [] && |raw| <= (if IsLine(raw) then capacity else capacity - 1)
  }

  /** The first line is read if it was not sent with the command, and the second, of LOGIN alone, if the first could
      be read and decoded. */
  ghost predicate AreEnoughLines(capacity: nat, mech: Mechanism, initial: bool, a: Answers, lines: seq<Event>) {
    var prompted := mech.CramMd5? || !initial;
    && (prompted ==> |lines| >= 1 && lines[0].Line?)
    && |lines| == (if prompted then 1 else 0)
                  + (if mech.Login? && a.decoded && (prompted ==> Fits(lines[0].raw, capacity)) then 1 else 0)
  }

  /** An exchange of AUTH: the lines that the mechanism needs, and if all of them could be read and decoded,
      one call to the authentication handler. */
  ghost predicate IsExchange(capacity: nat, rest: bytes, mech: Mechanism, initial: bool, a: Answers, lines: seq<Event>,
      asked: bool) {
    && AreNextLines(rest, lines) && |lines| <= LinesNeeded(mech, initial)
    && AreEnoughLines(capacity, mech, initial, a, lines)
    && (asked ==> |lines| == LinesNeeded(mech, initial))
    && (asked <==> Decodes(mech, a) && forall k :: 0 <= k < |lines| ==> lines[k].Line? && Fits(lines[k].raw, capacity))
  }

  ghost predicate IsAuthReaction(srv: Server, capacity: nat, p: Place, args: AuthArgs, a: Answers, es: seq<Event>) {
    if !AuthAdmitted(srv, p.st, args, a) then es == []
    else if es != [] && es[|es| - 1].AuthChecked? then
      && es[|es| - 1] == AuthChecked(args.mech, a.credentials)
      && IsExchange(capacity, p.Rest(), args.mech, args.initial, a, es[..|es| - 1], true)
    else IsExchange(capacity, p.Rest(), args.mech, args.initial, a, es, false)
  }

  ghost predicate IsDataReaction(srv: Server, p: Place, a: Answers, es: seq<Event>) {
    if !DataAdmitted(srv, p.st) then es == []
    else
      && |es| > 0 && es[0].HasOctets() && es[0].raw == MessageOctets(p.Rest()) && AllowedOctets(srv, es[0])
      && es[1..] == DataReaction(srv, p.st, es[0], a)
  }

  ghost predicate IsReaction(srv: Server, capacity: nat, p: Place, cmd: Command, a: Answers, es: seq<Event>) {
    match cmd
    case Hello => es == [Greeted]
    case Mail(args) => es == MailReaction(srv, p.st, args, a)
    case Rcpt(args) => es == RcptReaction(srv, p.st, args, a)
    case Data => IsDataReaction(srv, p, a, es)
    case Rset => es == RsetReaction(srv, p.st)
    case StartTls(noArgs) => es == StartTlsReaction(srv, p.st, noArgs, a)
    case Authenticate(args) => IsAuthReaction(srv, capacity, p, args, a, es)
    case Quit => es == []
    case Other => es == []
  }

  /** A round reads the next line. One that fits the buffer is answered as its command demands, and no other
      is answered as a command. */
  ghost predicate IsRound(srv: Server, capacity: nat, p: Place, a: Answers, es: seq<Event>) {
    && |es| > 0 && es[0] == Line(LineOctets(p.Rest()))
    && var raw := es[0].raw;
    && var q := Place(Update(p.st, es[0]), p.stream);
    && (if Fits(raw, capacity) then IsReaction(srv, capacity, q, srv.parse(Chomp(raw)), a, es[1..]) else es[1..] == [])
  }

  /** Rounds after which no other follows: nothing was left to read, the command was QUIT, or the input ended inside
      a message. */
  ghost predicate MustEnd(srv: Server, capacity: nat, es: seq<Event>) {
    || (es != [] && es[0] == Line([]))
    || (es != [] && es[0].Line? && Fits(es[0].raw, capacity) && srv.parse(Chomp(es[0].raw)).Quit?)
    || (|es| > 1 && es[1].Cut?)
  }

  /** Rounds after which the loop ends: those, and possibly one whose line was too long when the input ended. */
  ghost predicate EndsSession(srv: Server, capacity: nat, es: seq<Event>) {
    || MustEnd(srv, capacity, es)
    || (es != [] && es[0].Line? && !IsLine(es[0].raw) && !Fits(es[0].raw, capacity))
  }

  // ---------------------------------------------------------------- runs

  function PlaceAt(p: Place, answers: seq<Answers>, rounds: seq<seq<Event>>, i: nat): Place
    requires i <= |rounds| <= |answers|
  {
    if i == 0 then p else Advance(PlaceAt(p, answers, rounds, i - 1), answers[i - 1], rounds[i - 1])
  }

  /** Each round follows from where those before it lead. */
  ghost predicate IsRun(srv: Server, capacity: nat, p: Place, answers: seq<Answers>, rounds: seq<seq<Event>>) {
    && |rounds| <= |answers|
    && forall i :: 0 <= i < |rounds| ==> IsRound(srv, capacity, PlaceAt(p, answers, rounds, i), answers[i], rounds[i])
  }

  function Flatten(rounds: seq<seq<Event>>): seq<Event> {
    if rounds == [] then [] else Flatten(rounds[..|rounds| - 1]) + rounds[|rounds| - 1]
  }

  lemma {:induction false} PlaceAtSame(p: Place, answers: seq<Answers>, rounds: seq<seq<Event>>, es: seq<Event>, i: nat)
    requires i <= |rounds| < |answers|
    ensures PlaceAt(p, answers, rounds + [es], i) == PlaceAt(p, answers, rounds, i)
  {
    if i > 0 {
      PlaceAtSame(p, answers, rounds, es, i - 1);
    }
  }

  lemma FlattenMore(rounds: seq<seq<Event>>, es: seq<Event>)
    ensures Flatten(rounds + [es]) == Flatten(rounds) + es
  {
    assert (rounds + [es])[..|rounds|] == rounds;
  }

  lemma NoRounds(srv: Server, capacity: nat, p: Place, answers: seq<Answers>)
    ensures IsRun(srv, capacity, p, answers, []) && PlaceAt(p, answers, [], 0) == p && Flatten([]) == []
  {
  }

  lemma RunGoesOn(srv: Server, capacity: nat, p: Place, answers: seq<Answers>, rounds: seq<seq<Event>>, es: seq<Event>)
    requires IsRun(srv, capacity, p, answers, rounds) && |rounds| < |answers|
    requires IsRound(srv, capacity, PlaceAt(p, answers, rounds, |rounds|), answers[|rounds|], es)
    ensures IsRun(srv, capacity, p, answers, rounds + [es])
    ensures PlaceAt(p, answers, rounds + [es], |rounds| + 1)
            == Advance(PlaceAt(p, answers, rounds, |rounds|), answers[|rounds|], es)
    ensures Flatten(rounds + [es]) == Flatten(rounds) + es
  {
    hide IsRound, Advance, Flatten;
    var more := rounds + [es];
    FlattenMore(rounds, es);
    PlaceAtSame(p, answers, rounds, es, |rounds|);
    forall i | 0 <= i < |more| ensures IsRound(srv, capacity, PlaceAt(p, answers, more, i), answers[i], more[i]) {
      PlaceAtSame(p, answers, rounds, es, i);
    }
  }

  /** Every event was allowed when it was recorded, and st is the state they lead to. */
  ghost predicate Leads(srv: Server, tls: bool, log: seq<Event>, st: State) {
    Proper(srv, tls, log) && st == After(tls, log)
  }

  ghost predicate Proper(srv: Server, tls: bool, log: seq<Event>) {
    log == []
    || (var before := log[..|log| - 1];
        Proper(srv, tls, before) && Allowed(srv, After(tls, before), Last(before), log[|log| - 1]))
  }

  lemma LeadsOn(srv: Server, tls: bool, log: seq<Event>, st: State, e: Event)
    requires Leads(srv, tls, log, st) && Allowed(srv, st, Last(log), e)
    ensures Leads(srv, tls, log + [e], Update(st, e))
  {
    assert (log + [e])[..|log|] == log;
  }

  // ---------------------------------------------------------------- the loop

  datatype LineResult = Text(line: bytes) | TooLong | Lost

  /** Takes one line off the stream. A line ended by a line feed is refused exactly when it does not
      fit the buffer, and is gone from the stream in either case. */
  method ReadLine(br: Reader) returns (result: LineResult, ghost raw: bytes)
    requires br.capacity >= 3
    modifies br
    ensures old(br.pending) == raw + br.pending && raw == LineOctets(old(br.pending))
    ensures IsLine(raw) || (NoLF(raw) && br.pending == [])
    ensures result.Text? <==> Fits(raw, br.capacity)
    ensures IsLine(raw) ==> (result.TooLong? <==> |raw| > br.capacity) && !result.Lost?
    ensures result.Text? ==> result.line == Chomp(raw)
    ensures raw == [] ==> result.Lost?
  {
    hide LineOctets;
    ghost var before := br.pending;
    ghost var part;
    var line, isPrefix, lost;
    line, isPrefix, lost, part := br.ReadLine();
    raw := part;
    if lost {
      LineOctetsAre(before, raw, br.pending);
      return Lost, raw;
    }
    if !isPrefix {
      LineOctetsAre(before, raw, br.pending);
      return Text(line), raw;
    }
    while isPrefix
      invariant before == raw + br.pending
      invariant raw != []
      invariant isPrefix ==> NoLF(raw)
      invariant !isPrefix ==> IsLine(raw) || (NoLF(raw) && br.pending == [])
      decreases |br.pending|, isPrefix
    {
      ghost var soFar := raw;
      line, isPrefix, lost, part := br.ReadLine();
      raw := raw + part;
      if lost {
        LineOctetsAre(before, raw, br.pending);
        return Lost, raw;
      }
      if IsLine(part) {
        assert raw[..|raw| - 1] == soFar + part[..|part| - 1];
      }
    }
    assert 0 < |raw| <= br.capacity ==> before[..br.capacity][|raw| - 1] == raw[|raw| - 1];
    LineOctetsAre(before, raw, br.pending);
    return TooLong, raw;
  }

  lemma LineOctetsAre(s: bytes, raw: bytes, rest: bytes)
    requires s == raw + rest && (IsLine(raw) || (NoLF(raw) && rest == []))
    ensures LineOctets(s) == raw
  {
    var i := IndexLF(s);
    if IsLine(raw) {
      var text := raw[..|raw| - 1];
      assert forall k :: 0 <= k < |text| ==> s[k] == text[k];
      assert s[|raw| - 1] == LF;
      assert i == |raw| - 1;
      assert s[..|raw|] == raw;
    } else {
      assert s == raw;
    }
  }

  lemma MessageOctetsEnd(s: bytes)
    ensures s == MessageOctets(s) + AfterEnd(s, true)
    ensures match FindEnd(s, true)
            case None => FindEnd(MessageOctets(s), true).None?
            case Some(p) => IsMessage(MessageOctets(s)) && TextOf(MessageOctets(s)) == Unstuff(s[..p], true)
  {
    hide FindEnd, Unstuff;
    if FindEnd(s, true).Some? {
      var p := FindEnd(s, true).value;
      var raw := s[..p + 3];
      forall q: nat | q <= p ensures EndsAt(raw, q, true) <==> EndsAt(s, q, true) {
        assert raw[q..q + 3] == s[q..q + 3];
      }
      assert EndsAt(s, p, true) && EndsAt(raw, p, true);
      assert raw[..p] == s[..p];
    }
  }

  method ReadMessage(br: Reader, srv: Server) returns (result: Result<bytes, DataError>, ghost e: Event)
    requires br.capacity >= 3
    modifies br
    ensures e.HasOctets() && old(br.pending) == e.raw + br.pending && e.raw == MessageOctets(old(br.pending))
    ensures AllowedOctets(srv, e)
    ensures result.Ok? ==> IsTextOf(result.value, e)
    ensures result.Err? ==> !e.Taken? && (e.Cut? <==> result.error.ConnectionLost?)
  {
    ghost var before := br.pending;
    result := ReadData(br, srv.maxSize);
    MessageOctetsEnd(before);
    ghost var raw := MessageOctets(before);
    e := if result.Ok? then Taken(raw) else if result.error.MaxSizeExceeded? then TooBig(raw) else Cut(raw);
  }

  lemma ConcatAssociates(a: bytes, b: bytes, c: bytes)
    ensures (a + b) + c == a + (b + c)
  {
  }

  lemma LineAllowed(srv: Server, raw: bytes)
    requires IsLine(raw) || NoLF(raw)
    ensures AllowedOctets(srv, Line(raw))
  {
  }

  lemma PrefixedEndsWith(head: bytes, text: bytes)
    ensures EndsWith(head + text, text)
  {
  }

  class Session {
    const srv: Server
    const startsInTls: bool
    const capacity: nat
    var br: Reader
    var tls: bool
    var authenticated: bool
    var gotEHLO: bool
    var from: string
    var gotFROM: bool
    var to: seq<string>
    var hasRejectedRecipients: bool

    ghost var log: seq<Event>
    ghost var st: State            // what the log leads to
    ghost var stream: bytes        // all the octets of the current stream

    ghost predicate Valid()
      reads this, br
    {
      && capacity >= 3 && br.capacity == capacity
      && Leads(srv, startsInTls, log, st)
      && stream == st.octets + br.pending
      && tls == st.tls && authenticated == st.authenticated && gotEHLO == st.greeted
      && hasRejectedRecipients == st.swallowed
      && gotFROM == st.mail.Some?
      && (if gotFROM then st.mail == Some(Transaction(from, to)) else to == [] && from == "")
    }

    constructor (srv: Server, startsInTls: bool, capacity: nat, input: bytes)
      requires capacity >= 3
      ensures Valid() && fresh(br) && log == [] && stream == input
      ensures this.srv == srv.WithDefaults() && this.startsInTls == startsInTls && this.capacity == capacity
    {
      this.srv, this.startsInTls, this.capacity := srv.WithDefaults(), startsInTls, capacity;
      br := new Reader(capacity, input);
      tls, authenticated, gotEHLO := startsInTls, false, false;
      from, gotFROM, to, hasRejectedRecipients := "", false, [], false;
      log, stream := [], input;
      st := After(startsInTls, []);
    }

    /** Appends to the log. The fields are brought in line with it by the caller. */
    ghost method Record(e: Event)
      requires Leads(srv, startsInTls, log, st) && Allowed(srv, st, Last(log), e)
      modifies `log, `st
      ensures log == old(log) + [e] && st == Update(old(st), e) && Leads(srv, startsInTls, log, st)
    {
      LeadsOn(srv, startsInTls, log, st, e);
      log, st := log + [e], Update(st, e);
    }

    method NextLine() returns (result: LineResult, ghost raw: bytes)
      requires Valid()
      modifies br, `log, `st
      ensures Valid() && log == old(log) + [Line(raw)] && st == Update(old(st), Line(raw))
      ensures raw == LineOctets(old(br.pending)) && old(br.pending) == raw + br.pending
      ensures if raw == [] then result.Lost? else result.Lost? ==> !IsLine(raw)
      ensures result.Text? ==> result.line == Chomp(raw)
      ensures result.Text? <==> Fits(raw, capacity)
    {
      hide Leads, AllowedOctets, IsTextOf, EndsWith;
      result, raw := ReadLine(br);
      LineAllowed(srv, raw);
      ConcatAssociates(st.octets, raw, br.pending);
      Record(Line(raw));
    }

    /** Reads the message after DATA and records its octets. */
    method TakeMessage() returns (result: Result<bytes, DataError>, ghost e: Event)
      requires Valid()
      modifies br, `log, `st
      ensures Valid() && st == old(st).(octets := st.octets)
      ensures log == old(log) + [e] && e.HasOctets() && e.raw == MessageOctets(old(br.pending)) && AllowedOctets(srv, e)
      ensures result.Ok? ==> e.Taken? && IsTextOf(result.value, e)
      ensures result.Err? ==> !e.Taken? && (e.Cut? <==> result.error.ConnectionLost?)
    {
      hide Leads, AllowedOctets, IsTextOf, EndsWith;
      result, e := ReadMessage(br, srv);
      ConcatAssociates(st.octets, e.raw, br.pending);
      Record(e);
    }

    method EndTransaction(ghost e: Event)
      requires Valid()
      requires e.WasReset? || e.Dropped? || (e.Handed? && e.accepted)
      requires Allowed(srv, st, Last(log), e)
      modifies this`from, this`gotFROM, this`to, this`hasRejectedRecipients, `log, `st
      ensures Valid() && log == old(log) + [e]
    {
      hide Leads, AllowedOctets, IsTextOf, EndsWith;
      Record(e);
      from, gotFROM, to, hasRejectedRecipients := "", false, [], false;
    }

    method HandleHello()
      requires Valid()
      modifies this`gotEHLO, this`from, this`gotFROM, this`to, this`hasRejectedRecipients, `log, `st
      ensures Valid() && log == old(log) + [Greeted]
    {
      hide Leads, AllowedOctets, IsTextOf, EndsWith;
      Record(Greeted);
      gotEHLO := true;
      from, gotFROM, to, hasRejectedRecipients := "", false, [], false;
    }

    predicate MustSecureFirst()
      reads this
    {
      srv.tlsConfigured && srv.tlsRequired && !tls
    }

    predicate MustAuthenticateFirst()
      reads this
    {
      srv.hasAuthHandler && srv.authRequired && !authenticated
    }

    method RefuseMail()
      requires Valid()
      modifies this`to, this`hasRejectedRecipients, `log, `st
      ensures Valid() && log == old(log) + [MailRefused]
    {
      hide Leads, AllowedOctets, IsTextOf, EndsWith;
      Record(MailRefused);
      hasRejectedRecipients := false;
    }

    method AcceptMail(address: string)
      requires Valid() && MayTransact(srv, st) && gotEHLO && to == []
      modifies this`from, this`gotFROM, this`hasRejectedRecipients, `log, `st
      ensures Valid() && log == old(log) + [MailAccepted(address)]
    {
      hide Leads, AllowedOctets, IsTextOf, EndsWith;
      Record(MailAccepted(address));
      from, gotFROM, hasRejectedRecipients := address, true, false;
    }

    /** A refusal of the address or of its parameters forgets the swallowed recipients, and keeps the
        sender of an earlier MAIL. */
    method HandleMail(args: MailArgs, a: Answers)
      requires Valid()
      modifies this`from, this`gotFROM, this`to, this`hasRejectedRecipients, `log, `st
      ensures Valid() && log == old(log) + MailReaction(srv, old(st), args, a)
    {
      hide Leads, Allowed;
      if MustSecureFirst() || MustAuthenticateFirst() || !gotEHLO || to != [] {
      } else if args.BadSender? {
        RefuseMail();
      } else if a.chaos {
      } else if ParamsRefused(srv, args.params) {
        RefuseMail();
      } else {
        AcceptMail(args.address);
      }
    }

    method AddRecipient(address: string)
      requires Valid() && MayTransact(srv, st) && gotFROM && |to| < srv.maxRecipients
      requires srv.hasRcptHandler ==> Last(log) == Some(RcptAsked(from, address, true))
      modifies this`to, `log, `st
      ensures Valid() && log == old(log) + [RcptAccepted(address)]
    {
      hide Leads, AllowedOctets, IsTextOf, EndsWith;
      Record(RcptAccepted(address));
      to := to + [address];
    }

    method SwallowRecipient()
      requires Valid() && gotFROM && srv.ignoreRejectedRecipients
      requires Last(log).Some? && Last(log).value.RcptAsked? && !Last(log).value.approved
      modifies this`hasRejectedRecipients, `log, `st
      ensures Valid() && log == old(log) + [RcptSwallowed]
    {
      hide Leads, AllowedOctets, IsTextOf, EndsWith;
      Record(RcptSwallowed);
      hasRejectedRecipients := true;
    }

    method HandleRcpt(args: RcptArgs, a: Answers)
      requires Valid()
      modifies this`to, this`hasRejectedRecipients, `log, `st
      ensures Valid() && log == old(log) + RcptReaction(srv, old(st), args, a)
    {
      hide Leads, AllowedOctets, IsTextOf, EndsWith;
      if MustSecureFirst() || MustAuthenticateFirst() || !gotFROM || args.BadRecipient? || a.chaos
         || |to| >= srv.maxRecipients {
        return;
      }
      var accept := true;
      if srv.hasRcptHandler {
        accept := a.approved;
        Record(RcptAsked(from, args.address, accept));
      }
      if accept {
        AddRecipient(args.address);
      } else if srv.ignoreRejectedRecipients {
        SwallowRecipient();
      }
    }

    /** Hands a message over, or drops it when no recipient was approved. A refusal by the handler leaves
        the transaction open for another DATA. */
    method HandOver(data: bytes, a: Answers, ghost octets: Event)
      requires Valid() && DataAdmitted(srv, st)
      requires Last(log) == Some(octets) && IsTextOf(data, octets)
      modifies this`from, this`gotFROM, this`to, this`hasRejectedRecipients, `log, `st
      ensures Valid() && log == old(log) + DataReaction(srv, old(st), octets, a)
    {
      hide Leads, AllowedOctets, IsMessage, EndsWith;
      if |to| > 0 && srv.hasMailHandler {
        var buffer := a.received + data;
        PrefixedEndsWith(a.received, data);
        if a.handled {
          EndTransaction(Handed(from, to, buffer, data, true));
        } else {
          Record(Handed(from, to, buffer, data, false));
        }
      } else {
        EndTransaction(Dropped);
      }
    }

    predicate MayTakeData()
      reads this
    {
      !MustSecureFirst() && !MustAuthenticateFirst() && gotFROM && (|to| > 0 || hasRejectedRecipients)
    }

    lemma DataIsAdmitted()
      requires Valid()
      ensures MayTakeData() <==> DataAdmitted(srv, st)
      ensures DataAdmitted(srv, st) ==> st.mail.Some? && forall octets :: DataAdmitted(srv, st.(octets := octets))
    {
      hide Leads;
    }

    method HandleData(a: Answers) returns (done: bool, ghost es: seq<Event>)
      requires Valid()
      modifies br, this`from, this`gotFROM, this`to, this`hasRejectedRecipients, `log, `st
      ensures Valid() && log == old(log) + es && IsDataReaction(srv, old(Where()), a, es)
      ensures done <==> es != [] && es[0].Cut?
    {
      hide Leads, AllowedOctets, IsTextOf, DataReaction, EndsWith, Allowed, MessageOctets, IsDataReaction,
        DataAdmitted, MayTransact, Session.MayTakeData, Update;
      RestIsPending();
      DataIsAdmitted();
      ghost var p := Where();
      if !MayTakeData() {
        NotAdmitted(srv, p, a);
        return false, [];
      }
      var data, e := TakeMessage();
      done := data.Err? && data.error.ConnectionLost?;
      es := DataReaction(srv, st, e, a);
      StateForData(srv, p.st, st, e, a);
      if !e.Taken? {
        NothingHandedOver(srv, st, e, a);
      }
      if data.Ok? {
        HandOver(data.value, a, e);
      }
      MessageReaction(srv, p, a, e, es);
      es := [e] + es;
    }

    method HandleRset()
      requires Valid()
      modifies this`from, this`gotFROM, this`to, this`hasRejectedRecipients, `log, `st
      ensures Valid() && log == old(log) + RsetReaction(srv, old(st))
    {
      if !MustSecureFirst() {
        EndTransaction(WasReset);
      }
    }

    /** The stream goes on inside TLS; what was sent in clear before the handshake is forgotten. */
    method BeginTls(secured: bytes)
      requires Valid() && !tls && srv.tlsConfigured
      modifies this
      ensures Valid() && log == old(log) + [TlsStarted] && stream == secured && fresh(br)
    {
      hide Leads, AllowedOctets, IsTextOf, EndsWith, MayTransact, After;
      Record(TlsStarted);
      br := new Reader(capacity, secured);
      stream, tls := secured, true;
      from, gotFROM, to, hasRejectedRecipients := "", false, [], false;
    }

    /** The handshake took an unknown part of what was sent in clear, and the transaction goes on. */
    method GoOnInClear(left: bytes)
      requires Valid() && !tls && srv.tlsConfigured
      modifies br, `log, `st, `stream
      ensures Valid() && log == old(log) + [TlsFailed] && stream == left
    {
      hide Leads, AllowedOctets, IsTextOf, EndsWith, MayTransact, After;
      Record(TlsFailed);
      br.pending := left;
      stream := left;
    }

    method HandleStartTls(noArgs: bool, a: Answers)
      requires Valid()
      modifies this, br
      ensures Valid() && log == old(log) + StartTlsReaction(srv, old(st), noArgs, a) && (br == old(br) || fresh(br))
      ensures stream == if SwitchesStream(StartTlsReaction(srv, old(st), noArgs, a)) then a.onward else old(stream)
    {
      hide Leads, AllowedOctets, IsTextOf, EndsWith, MayTransact, After;
      if noArgs && srv.tlsConfigured && !tls {
        if a.handshake {
          BeginTls(a.onward);
        } else {
          GoOnInClear(a.onward);
        }
      }
    }

    /** A prompt, if it is needed, and the line that answers it. */
    method Prompt(needed: bool) returns (ok: bool, ghost es: seq<Event>)
      requires Valid()
      modifies br, `log, `st
      ensures Valid() && st == old(st).(octets := st.octets) && log == old(log) + es
      ensures if needed then |es| == 1 && es[0].Line? && old(br.pending) == es[0].raw + br.pending
              else es == [] && br.pending == old(br.pending)
      ensures AreNextLines(old(br.pending), es)
      ensures ok <==> (needed ==> Fits(es[0].raw, capacity))
    {
      hide Leads, AllowedOctets, IsTextOf, EndsWith, Allowed, LineOctets, IsLine;
      ok, es := true, [];
      if needed {
        var line, raw := NextLine();
        es := [Line(raw)];
        ok := line.Text?;
        assert [Line(raw)][1..] == [];
      }
    }

    /** Prompts for what the mechanism needs and asks the authentication handler. */
    method CheckCredentials(mech: Mechanism, initial: bool, a: Answers)
      returns (granted: bool, asked: bool, ghost es: seq<Event>)
      requires Valid()
      modifies br, `log, `st
      ensures Valid() && st == old(st).(octets := st.octets)
      ensures log == old(log) + es && forall k :: 0 <= k < |es| ==> es[k].Line?
      ensures IsExchange(capacity, old(br.pending), mech, initial, a, es, asked)
      ensures granted == (asked && a.credentials)
    {
      hide Session.Valid, IsExchange, AreNextLines, Fits, IsLine, Decodes;
      ghost var rest := br.pending;
      var ok;
      granted, asked := false, false;
      ok, es := Prompt(mech.CramMd5? || !initial);
      if !ok || !a.decoded {
        CutShort(capacity, rest, mech, initial, a, es);
        return;
      }
      ghost var first, between, second := es, br.pending, [];
      ok, second := Prompt(mech.Login?);
      LinesJoin(rest, first, between, second);
      es := first + second;
      granted, asked := a.credentials, true;
      if !ok || (mech.Login? && !a.decodedNext) {
        granted, asked := false, false;
      }
      Completed(capacity, rest, mech, initial, a, first, second, ok);
    }

    predicate MayAuthenticate(args: AuthArgs, a: Answers)
      reads this
    {
      && !(MustSecureFirst() || !srv.hasAuthHandler || authenticated || gotFROM || |to| > 0)
      && !(!args.Auth? || !srv.MechAllowed(args.mech, tls) || a.chaos)
    }

    lemma AuthIsAdmitted(args: AuthArgs, a: Answers)
      requires Valid()
      ensures MayAuthenticate(args, a) <==> AuthAdmitted(srv, st, args, a)
    {
      hide Leads;
    }

    method SetAuthenticated(args: AuthArgs, a: Answers, granted: bool)
      requires Valid() && AuthAdmitted(srv, st, args, a)
      modifies this`authenticated, `log, `st
      ensures Valid() && log == old(log) + [AuthChecked(args.mech, granted)]
    {
      hide Leads, AllowedOctets, IsTextOf, EndsWith;
      Record(AuthChecked(args.mech, granted));
      authenticated := granted;
    }

    /** Nobody is authenticated before; who is not asked for stays so. When the input ends here, the next round finds
        nothing to read and ends the loop. */
    method HandleAuth(args: AuthArgs, a: Answers) returns (ghost es: seq<Event>)
      requires Valid()
      modifies br, this`authenticated, `log, `st
      ensures Valid() && log == old(log) + es && IsAuthReaction(srv, capacity, old(Where()), args, a, es)
      ensures es != [] ==> !es[0].Cut?
    {
      hide Session.Valid, Session.MayAuthenticate, IsExchange, IsAuthReaction, IsLine, AuthAdmitted;
      RestIsPending();
      AuthIsAdmitted(args, a);
      ghost var p := Where();
      es := [];
      if !MayAuthenticate(args, a) {
        AuthRefused(srv, capacity, p, args, a);
        return;
      }
      AuthNamesMechanism(srv, st, args, a);
      var granted, asked;
      granted, asked, es := CheckCredentials(args.mech, args.initial, a);
      AuthReacts(srv, capacity, p, args, a, es, asked);
      AuthStillAdmitted(srv, p.st, st, args, a);
      if asked {
        SetAuthenticated(args, a, granted);
        es := es + [AuthChecked(args.mech, granted)];
      }
    }

    ghost function Where(): Place
      reads this
    {
      Place(st, stream)
    }

    lemma RestIsPending()
      requires Valid()
      ensures Where().Rest() == br.pending
    {
    }

    method Execute(cmd: Command, a: Answers) returns (done: bool, ghost es: seq<Event>)
      requires Valid()
      modifies this, br
      ensures Valid() && log == old(log) + es && (br == old(br) || fresh(br))
      ensures stream == if SwitchesStream(es) then a.onward else old(stream)
      ensures IsReaction(srv, capacity, old(Where()), cmd, a, es)
      ensures done <==> cmd.Quit? || (es != [] && es[0].Cut?)
    {
      hide Leads, Allowed, IsAuthReaction, IsDataReaction, Update, IsLine;
      done, es := false, [];
      ghost var p := Where();
      match cmd {
        case Hello => HandleHello(); es := [Greeted];
        case Mail(args) => es := MailReaction(srv, st, args, a); HandleMail(args, a);
        case Rcpt(args) => es := RcptReaction(srv, st, args, a); HandleRcpt(args, a);
        case Data => done, es := HandleData(a);
        case Quit => done := true;
        case Rset => es := RsetReaction(srv, st); HandleRset();
        case Other =>
        case StartTls(noArgs) => es := StartTlsReaction(srv, st, noArgs, a); HandleStartTls(noArgs, a);
        case Authenticate(args) => es := HandleAuth(args, a);
      }
      if !cmd.StartTls? {
        StreamStays(srv, capacity, p, cmd, a, es);
      }
    }

    /** One round of the command loop: a line is read, and if it is a command it has its reaction. */
    method Round(a: Answers) returns (done: bool, ghost es: seq<Event>)
      requires Valid()
      modifies this, br
      ensures Valid() && log == old(log) + es && (br == old(br) || fresh(br))
      ensures IsRound(srv, capacity, old(Where()), a, es)
      ensures Where() == Advance(old(Where()), a, es)
      ensures if done then EndsSession(srv, capacity, es) else !MustEnd(srv, capacity, es)
    {
      hide Leads, Allowed, IsReaction, Update, LineOctets, IsLine, IsRound, Advance, EndsSession, SwitchesStream,
        MustEnd, Session.Valid, Chomp, Apply;
      ghost var before, p, more := log, Where(), [];
      RestIsPending();
      LogLeads();
      done := false;
      var line, raw := NextLine();
      match line {
        case Lost =>
          done := true;
        case TooLong =>
        case Text(text) =>
          done, more := Execute(srv.parse(text), a);
      }
      es := [Line(raw)] + more;
      assert log == before + es;
      LogLeads();
      NothingSwitches();
      RoundIs(srv, capacity, p, a, raw, more);
      StateFollows(srv, startsInTls, before, es, p.st, st);
      RoundAdvances(p, a, raw, more);
      RoundEnds(srv, capacity, raw, more, line, done);
    }

    /** The command loop, for as many rounds as there are answers, or until one that ends it. */
    method Serve(answers: seq<Answers>) returns (ghost rounds: seq<seq<Event>>)
      requires Valid()
      modifies this, br
      ensures Proper(srv, startsInTls, log) && log == old(log) + Flatten(rounds)
      ensures IsRun(srv, capacity, old(Where()), answers, rounds)
      ensures Where() == PlaceAt(old(Where()), answers, rounds, |rounds|)
      ensures |rounds| < |answers| ==> rounds != [] && EndsSession(srv, capacity, rounds[|rounds| - 1])
      ensures forall i :: 0 <= i < |rounds| - 1 ==> !MustEnd(srv, capacity, rounds[i])
      ensures stream == After(startsInTls, log).octets + br.pending
    {
      hide IsRound, Advance, EndsSession, MustEnd, IsRun, PlaceAt, Flatten, Session.Valid, After;
      ghost var p := Where();
      var done := false;
      var i := 0;
      rounds := [];
      NoRounds(srv, capacity, p, answers);
      while i < |answers| && !done
        invariant 0 <= i == |rounds| <= |answers|
        invariant Valid() && log == old(log) + Flatten(rounds) && (br == old(br) || fresh(br))
        invariant IsRun(srv, capacity, p, answers, rounds) && Where() == PlaceAt(p, answers, rounds, |rounds|)
        invariant done ==> rounds != [] && EndsSession(srv, capacity, rounds[|rounds| - 1])
        invariant forall k :: 0 <= k < |rounds| - (if done then 1 else 0) ==> !MustEnd(srv, capacity, rounds[k])
      {
        var finished, es := Round(answers[i]);
        assert log == old(log) + (Flatten(rounds) + es);
        RunGoesOn(srv, capacity, p, answers, rounds, es);
        rounds := rounds + [es];
        done := finished;
        i := i + 1;
      }
      ValidMeans();
    }

    lemma LogLeads()
      requires Valid()
      ensures Leads(srv, startsInTls, log, st) && capacity >= 3
    {
    }

    lemma ValidMeans()
      requires Valid()
      ensures Proper(srv, startsInTls, log) && stream == After(startsInTls, log).octets + br.pending
    {
    }
  }

  lemma NothingSwitches()
    ensures !SwitchesStream([])
  {
  }

  lemma RoundIs(srv: Server, capacity: nat, p: Place, a: Answers, raw: bytes, more: seq<Event>)
    requires raw == LineOctets(p.Rest())
    requires if Fits(raw, capacity)
             then IsReaction(srv, capacity, Place(Update(p.st, Line(raw)), p.stream), srv.parse(Chomp(raw)), a, more)
             else more == []
    ensures IsRound(srv, capacity, p, a, [Line(raw)] + more)
  {
    hide LineOctets, IsReaction, IsLine;
    assert ([Line(raw)] + more)[1..] == more;
  }

  lemma RoundAdvances(p: Place, a: Answers, raw: bytes, more: seq<Event>)
    ensures Advance(p, a, [Line(raw)] + more)
            == Place(Apply(p.st, [Line(raw)] + more), if SwitchesStream(more) then a.onward else p.stream)
  {
    var es := [Line(raw)] + more;
    assert es[|es| - 1] == if more == [] then Line(raw) else more[|more| - 1];
  }

  lemma RoundEnds(srv: Server, capacity: nat, raw: bytes, more: seq<Event>, line: LineResult, done: bool)
    requires line.Text? <==> Fits(raw, capacity)
    requires if raw == [] then line.Lost? else line.Lost? ==> !IsLine(raw)
    requires if line.Text? then done <==> srv.parse(Chomp(raw)).Quit? || (more != [] && more[0].Cut?)
             else more == [] && (done <==> line.Lost?)
    ensures if done then EndsSession(srv, capacity, [Line(raw)] + more) else !MustEnd(srv, capacity, [Line(raw)] + more)
  {
    hide IsLine;
    var es := [Line(raw)] + more;
    assert es[0] == Line(raw) && (more != [] ==> es[1] == more[0]);
  }

  lemma NotAdmitted(srv: Server, p: Place, a: Answers)
    requires !DataAdmitted(srv, p.st)
    ensures IsDataReaction(srv, p, a, [])
  {
  }

  lemma StateForData(srv: Server, st: State, st': State, e: Event, a: Answers)
    requires st.mail.Some? && st' == st.(octets := st'.octets)
    ensures DataReaction(srv, st', e, a) == DataReaction(srv, st, e, a)
  {
  }

  lemma NothingHandedOver(srv: Server, st: State, e: Event, a: Answers)
    requires st.mail.Some? && !e.Taken?
    ensures DataReaction(srv, st, e, a) == []
  {
  }

  lemma MessageReaction(srv: Server, p: Place, a: Answers, e: Event, es: seq<Event>)
    requires DataAdmitted(srv, p.st) && e.HasOctets() && e.raw == MessageOctets(p.Rest()) && AllowedOctets(srv, e)
    requires es == DataReaction(srv, p.st, e, a)
    ensures IsDataReaction(srv, p, a, [e] + es)
  {
    hide AllowedOctets, DataReaction, MessageOctets, DataAdmitted;
    assert ([e] + es)[1..] == es;
  }

  lemma AuthRefused(srv: Server, capacity: nat, p: Place, args: AuthArgs, a: Answers)
    requires !AuthAdmitted(srv, p.st, args, a)
    ensures IsAuthReaction(srv, capacity, p, args, a, [])
  {
  }

  lemma AuthNamesMechanism(srv: Server, st: State, args: AuthArgs, a: Answers)
    requires AuthAdmitted(srv, st, args, a)
    ensures args.Auth?
  {
  }

  lemma AuthStillAdmitted(srv: Server, st: State, st': State, args: AuthArgs, a: Answers)
    requires AuthAdmitted(srv, st, args, a) && st' == st.(octets := st'.octets)
    ensures AuthAdmitted(srv, st', args, a)
  {
  }

  lemma AuthReacts(srv: Server, capacity: nat, p: Place, args: AuthArgs, a: Answers, lines: seq<Event>, asked: bool)
    requires args.Auth? && AuthAdmitted(srv, p.st, args, a)
    requires IsExchange(capacity, p.Rest(), args.mech, args.initial, a, lines, asked)
    requires forall k :: 0 <= k < |lines| ==> lines[k].Line?
    ensures IsAuthReaction(srv, capacity, p, args, a,
                           if asked then lines + [AuthChecked(args.mech, a.credentials)] else lines)
  {
    hide IsExchange, AuthAdmitted;
    assert (lines + [AuthChecked(args.mech, a.credentials)])[..|lines|] == lines;
  }

  lemma LinesJoin(rest: bytes, first: seq<Event>, between: bytes, second: seq<Event>)
    requires |first| <= 1 && AreNextLines(rest, first) && AreNextLines(between, second)
    requires if first == [] then between == rest else first[0].Line? && rest == first[0].raw + between
    ensures AreNextLines(rest, first + second)
  {
    if first == [] {
      assert first + second == second;
    } else {
      assert (first + second)[1..] == second;
      assert rest[|first[0].raw|..] == between;
    }
  }

  lemma CutShort(capacity: nat, rest: bytes, mech: Mechanism, initial: bool, a: Answers, lines: seq<Event>)
    requires AreNextLines(rest, lines) && |lines| == (if mech.CramMd5? || !initial then 1 else 0)
    requires lines != [] ==> lines[0].Line?
    requires (lines != [] && !Fits(lines[0].raw, capacity)) || !a.decoded
    ensures IsExchange(capacity, rest, mech, initial, a, lines, false)
  {
    hide Fits, AreNextLines;
  }

  lemma Completed(capacity: nat, rest: bytes, mech: Mechanism, initial: bool, a: Answers, first: seq<Event>,
      second: seq<Event>, ok: bool)
    requires AreNextLines(rest, first + second) && a.decoded
    requires |first| == (if mech.CramMd5? || !initial then 1 else 0) && |second| == (if mech.Login? then 1 else 0)
    requires first != [] ==> first[0].Line? && Fits(first[0].raw, capacity)
    requires second != [] ==> second[0].Line? && (ok <==> Fits(second[0].raw, capacity))
    requires second == [] ==> ok
    ensures IsExchange(capacity, rest, mech, initial, a, first + second, ok && (mech.Login? ==> a.decodedNext))
  {
    hide Fits, AreNextLines;
    var lines := first + second;
    assert second != [] ==> lines[|first|] == second[0];
    assert forall k :: 0 <= k < |lines| ==> lines[k] == if k < |first| then first[0] else second[0];
  }

  lemma {:induction false} NextLinesAreLines(rest: bytes, es: seq<Event>)
    requires AreNextLines(rest, es)
    ensures forall k :: 0 <= k < |es| ==> es[k].Line?
    decreases |es|
  {
    if es != [] {
      NextLinesAreLines(rest[|LineOctets(rest)|..], es[1..]);
      assert forall k :: 0 < k < |es| ==> es[k] == es[1..][k - 1];
    }
  }

  /** Only STARTTLS goes over to another stream. */
  lemma StreamStays(srv: Server, capacity: nat, p: Place, cmd: Command, a: Answers, es: seq<Event>)
    requires IsReaction(srv, capacity, p, cmd, a, es) && !cmd.StartTls?
    ensures !SwitchesStream(es)
  {
    hide LineOctets, MessageOctets, AllowedOctets, MayTransact, AreNextLines;
    match cmd {
      case Authenticate(_) =>
        if es != [] && !es[|es| - 1].AuthChecked? {
          NextLinesAreLines(p.Rest(), es);
        }
      case Data =>
        assert DataAdmitted(srv, p.st) ==> es[|es| - 1] == if |es| == 1 then es[0] else es[1..][|es| - 2];
      case _ =>
    }
  }

  lemma StateFollows(srv: Server, tls: bool, before: seq<Event>, es: seq<Event>, st: State, st': State)
    requires Leads(srv, tls, before, st) && Leads(srv, tls, before + es, st')
    ensures st' == Apply(st, es)
  {
    AfterMore(tls, before, es);
  }
}
