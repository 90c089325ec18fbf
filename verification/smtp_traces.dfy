/** What a session's log means: for every run of the command loop, what a mail handler has been given
    and when. */
module SmtpTraces {
  import opened Basics
  import opened Bytes
  import opened DotStuffing
  import opened SmtpData
  import opened SmtpSession

  /** Events after which no transaction is open. */
  predicate Ends(e: Event) {
    e.Greeted? || e.WasReset? || e.TlsStarted? || e.Dropped? || (e.Handed? && e.accepted)
  }

  /** The recipients accepted in es, in order. */
  function Recipients(es: seq<Event>): seq<string> {
    if es == [] then []
    else
      var last := es[|es| - 1];
      var before := Recipients(es[..|es| - 1]);
      if last.RcptAccepted? then before + [last.recipient] else before
  }

  /** The transaction open at the end of the log began at position m. */
  ghost predicate OpenSince(log: seq<Event>, m: nat) {
    && m < |log|
    && log[m].MailAccepted?
    && forall k :: m < k < |log| ==> !log[k].MailAccepted? && !Ends(log[k])
  }

  lemma {:induction false} OpenMeans(tls: bool, log: seq<Event>, m: nat)
    requires OpenSince(log, m)
    ensures After(tls, log).mail == Some(Transaction(log[m].from, Recipients(log[m + 1..])))
  {
    var before := log[..|log| - 1];
    if m == |log| - 1 {
      assert log[m + 1..] == [];
    } else {
      OpenMeans(tls, before, m);
      var since := log[m + 1..];
      assert since[..|since| - 1] == before[m + 1..];
      assert since[|since| - 1] == log[|log| - 1];
    }
  }

  lemma {:induction false} OpenExists(tls: bool, log: seq<Event>) returns (m: nat)
    requires After(tls, log).mail.Some?
    ensures OpenSince(log, m)
  {
    var before := log[..|log| - 1];
    if log[|log| - 1].MailAccepted? {
      m := |log| - 1;
    } else {
      m := OpenExists(tls, before);
    }
  }

  lemma {:induction false} ProperAt(srv: Server, tls: bool, log: seq<Event>, i: nat)
    requires Proper(srv, tls, log) && i < |log|
    ensures Proper(srv, tls, log[..i])
    ensures Allowed(srv, After(tls, log[..i]), Last(log[..i]), log[i])
  {
    var before := log[..|log| - 1];
    if i == |log| - 1 {
      assert log[..i] == before;
    } else {
      ProperAt(srv, tls, before, i);
      assert before[..i] == log[..i];
    }
  }

  lemma {:induction false} WhatTheStateRemembers(tls: bool, log: seq<Event>)
    ensures After(tls, log).greeted ==> Greeted in log
    ensures After(tls, log).tls ==> tls || TlsStarted in log
    ensures After(tls, log).authenticated ==> exists e :: e in log && e.AuthChecked? && e.granted
  {
    if log != [] {
      WhatTheStateRemembers(tls, log[..|log| - 1]);
      assert log == log[..|log| - 1] + [log[|log| - 1]];
    }
  }

  /** The handler call at position i is justified by what came before it. */
  ghost predicate Justified(srv: Server, tls: bool, log: seq<Event>, m: nat, i: nat)
    requires i < |log| && log[i].Handed?
  {
    && OpenSince(log[..i], m)
    && log[i].from == log[m].from
    && log[i].to == Recipients(log[m + 1..i])
    && 1 <= |log[i].to| <= srv.maxRecipients
    && (srv.hasRcptHandler ==>
          forall k :: m < k < i && log[k].RcptAccepted? ==>
                        log[k - 1] == RcptAsked(log[m].from, log[k].recipient, true))
    && Greeted in log[..m]
    && (srv.NeedsTls() ==> tls || TlsStarted in log[..i])
    && (srv.NeedsAuth() ==> exists e :: e in log[..i] && e.AuthChecked? && e.granted)
    && log[i - 1].Taken? && IsTextOf(log[i].text, log[i - 1])
    && EndsWith(log[i].data, log[i].text)
    && !OverLimit(|log[i].text|, srv.maxSize)
  }

  lemma AcceptedRecipient(srv: Server, tls: bool, log: seq<Event>, m: nat, k: nat)
    requires Proper(srv, tls, log) && OpenSince(log, m) && m < k < |log| && log[k].RcptAccepted?
    ensures |Recipients(log[m + 1..k])| < srv.maxRecipients
    ensures srv.hasRcptHandler ==> log[k - 1] == RcptAsked(log[m].from, log[k].recipient, true)
  {
    ProperAt(srv, tls, log, k);
    assert OpenSince(log[..k], m);
    OpenMeans(tls, log[..k], m);
    assert log[..k][m + 1..] == log[m + 1..k];
  }

  lemma {:induction false} RecipientsBounded(srv: Server, tls: bool, log: seq<Event>, m: nat)
    requires Proper(srv, tls, log) && OpenSince(log, m)
    ensures Recipients(log[m + 1..]) != [] ==> |Recipients(log[m + 1..])| <= srv.maxRecipients
  {
    var last := |log| - 1;
    if m < last {
      assert log[m + 1..][..last - m - 1] == log[..last][m + 1..] == log[m + 1..last];
      if log[last].RcptAccepted? {
        AcceptedRecipient(srv, tls, log, m, last);
      } else {
        RecipientsBounded(srv, tls, log[..last], m);
      }
    } else {
      assert log[m + 1..] == [];
    }
  }

  lemma EnvelopeIsJustified(srv: Server, tls: bool, log: seq<Event>, m: nat, i: nat)
    requires Proper(srv, tls, log) && i < |log| && log[i].Handed? && OpenSince(log[..i], m)
    ensures log[i].from == log[m].from && log[i].to == Recipients(log[m + 1..i])
            && 1 <= |log[i].to| <= srv.maxRecipients
    ensures srv.hasRcptHandler ==>
              forall k :: m < k < i && log[k].RcptAccepted? ==>
                            log[k - 1] == RcptAsked(log[m].from, log[k].recipient, true)
    ensures MayTransact(srv, After(tls, log[..i])) && Greeted in log[..m]
  {
    hide Proper, Recipients, IsTextOf, EndsWith, After;
    var before := log[..i];
    ProperAt(srv, tls, log, i);
    OpenMeans(tls, before, m);
    assert before[m + 1..] == log[m + 1..i];
    RecipientsBounded(srv, tls, before, m);
    forall k | m < k < i && log[k].RcptAccepted?
      ensures srv.hasRcptHandler ==> log[k - 1] == RcptAsked(log[m].from, log[k].recipient, true)
    {
      AcceptedRecipient(srv, tls, before, m, k);
    }
    OpenedAfterGreeting(srv, tls, log, m, i);
  }

  lemma OpenedAfterGreeting(srv: Server, tls: bool, log: seq<Event>, m: nat, i: nat)
    requires Proper(srv, tls, log) && i < |log| && OpenSince(log[..i], m)
    ensures Greeted in log[..m]
  {
    hide Proper, After;
    ProperAt(srv, tls, log, m);
    WhatTheStateRemembers(tls, log[..m]);
  }

  lemma TextIsJustified(srv: Server, tls: bool, log: seq<Event>, i: nat)
    requires Proper(srv, tls, log) && i < |log| && log[i].Handed?
    ensures i > 0 && log[i - 1].Taken? && IsTextOf(log[i].text, log[i - 1])
    ensures EndsWith(log[i].data, log[i].text) && !OverLimit(|log[i].text|, srv.maxSize)
  {
    hide Proper, After, EndsWith, IsMessage, TextOf;
    ProperAt(srv, tls, log, i);
    ProperAt(srv, tls, log, i - 1);
  }

  /** Every call to a mail handler carries the sender of the last accepted MAIL and the recipients
      accepted since, in order, each approved under that sender; TLS and authentication are in force when
      they are required; and the text is what the octets of one complete message stand for. */
  lemma HandlerCallsAreJustified(srv: Server, tls: bool, log: seq<Event>, i: nat) returns (m: nat)
    requires Proper(srv, tls, log) && i < |log| && log[i].Handed?
    ensures Justified(srv, tls, log, m, i)
  {
    hide Proper, OpenSince, Recipients, IsTextOf, EndsWith, After, OverLimit;
    var before := log[..i];
    m := OpenSinceWhen(srv, tls, log, i);
    EnvelopeIsJustified(srv, tls, log, m, i);
    TextIsJustified(srv, tls, log, i);
    WhatTheStateRemembers(tls, before);
  }

  lemma OpenSinceWhen(srv: Server, tls: bool, log: seq<Event>, i: nat) returns (m: nat)
    requires Proper(srv, tls, log) && i < |log| && log[i].Handed?
    ensures m < i && OpenSince(log[..i], m)
  {
    hide Proper, After, IsTextOf, EndsWith;
    ProperAt(srv, tls, log, i);
    m := OpenExists(tls, log[..i]);
  }

  /** Between two deliveries there is a MAIL: no accepted transaction is delivered twice. */
  lemma DeliveredOnce(srv: Server, tls: bool, log: seq<Event>, i: nat, j: nat) returns (m: nat)
    requires Proper(srv, tls, log) && i < j < |log|
    requires log[i].Handed? && log[i].accepted && log[j].Handed?
    ensures i < m < j && log[m].MailAccepted? && log[m].from == log[j].from
    ensures log[j].to == Recipients(log[m + 1..j])
  {
    m := HandlerCallsAreJustified(srv, tls, log, j);
    assert Ends(log[..j][i]);
  }

  // ---------------------------------------------------------------- what a client can rely on

  lemma ApplyShort(st: State, d: Event, e: Event)
    ensures Apply(st, [e]) == Update(st, e)
    ensures Apply(st, [d, e]) == Update(Update(st, d), e)
  {
    assert forall s: State :: Apply(s, [e]) == Apply(Update(s, e), [e][1..]) == Update(s, e);
    assert Apply(st, [d, e]) == Apply(Update(st, d), [d, e][1..]);
    assert [d, e][1..] == [e];
  }

  lemma ApprovedRecipient(srv: Server, st: State, recipient: string, a: Answers)
    requires MayTransact(srv, st) && st.mail.Some? && !a.chaos && a.approved
    requires |st.mail.value.to| < srv.maxRecipients
    ensures var es := RcptReaction(srv, st, Recipient(recipient), a);
            && Apply(st, es) == st.(mail := Some(st.mail.value.(to := st.mail.value.to + [recipient])))
            && forall k :: 0 <= k < |es| ==> !es[k].Cut? && !es[k].Line? && !es[k].TlsStarted? && !es[k].TlsFailed?
  {
    hide Apply, MayTransact, Update;
    var asked := RcptAsked(st.mail.value.from, recipient, true);
    RecipientAdded(st, asked, recipient);
    if srv.hasRcptHandler {
      assert RcptReaction(srv, st, Recipient(recipient), a) == [asked, RcptAccepted(recipient)];
    } else {
      assert RcptReaction(srv, st, Recipient(recipient), a) == [RcptAccepted(recipient)];
    }
  }

  lemma RecipientAdded(st: State, asked: Event, recipient: string)
    requires st.mail.Some? && asked.RcptAsked?
    ensures Apply(st, [RcptAccepted(recipient)]) == Apply(st, [asked, RcptAccepted(recipient)])
            == st.(mail := Some(st.mail.value.(to := st.mail.value.to + [recipient])))
  {
    hide Apply;
    ApplyShort(st, asked, RcptAccepted(recipient));
    ApplyShort(st, RcptAccepted(recipient), RcptAccepted(recipient));
  }

  lemma StuffedWireIsMessage(text: bytes, more: bytes)
    requires LineStartAfter(text, true)
    ensures var wire := Stuff(text, true) + END;
            IsMessage(wire) && TextOf(wire) == text && MessageOctets(wire + more) == wire
  {
    var wire := Stuff(text, true) + END;
    StuffedTextIsRecovered(text, []);
    assert wire + [] == wire;
    assert wire[..|wire| - 3] == Stuff(text, true);
    StuffedTextIsRecovered(text, more);
    assert (wire + more)[..|wire|] == wire;
  }

  /** The line fits the buffer and is read as the command. */
  ghost predicate Means(srv: Server, capacity: nat, line: bytes, cmd: Command) {
    IsLine(line) && |line| <= capacity && srv.parse(Chomp(line)) == cmd
  }

  /** What is left to read. */
  ghost predicate Reads(p: Place, rest: bytes) {
    |p.st.octets| <= |p.stream| && p.Rest() == rest
  }

  lemma ReadOn(p: Place, st: State, front: bytes, more: bytes)
    requires Reads(p, front + more) && st.octets == p.st.octets + front
    ensures Reads(Place(st, p.stream), more)
  {
    var n := |p.st.octets|;
    assert p.stream[n..][|front|..] == p.stream[n + |front|..];
    assert (front + more)[|front|..] == more;
  }

  /** A command line is read, and what follows is its reaction. */
  lemma CommandRound(srv: Server, capacity: nat, p: Place, a: Answers, es: seq<Event>, line: bytes, more: bytes,
      cmd: Command)
    requires IsRound(srv, capacity, p, a, es) && Reads(p, line + more) && Means(srv, capacity, line, cmd)
    ensures |es| > 0 && es[0] == Line(line)
    ensures var q := Place(Update(p.st, es[0]), p.stream);
            && Reads(q, more) && IsReaction(srv, capacity, q, cmd, a, es[1..])
            && Apply(p.st, es) == Apply(q.st, es[1..])
  {
    hide IsReaction, LineOctets;
    LineOctetsAre(line + more, line, more);
    ReadOn(p, Update(p.st, Line(line)), line, more);
  }

  /** A round that reads no more than its line and does not end the session. */
  lemma QuietRound(srv: Server, capacity: nat, p: Place, a: Answers, es: seq<Event>, line: bytes, more: bytes,
      cmd: Command, st: State)
    requires |es| > 0 && es[0] == Line(line) && Means(srv, capacity, line, cmd) && !cmd.Quit?
    requires Reads(p, line + more) && Apply(p.st, es) == st && st.octets == p.st.octets + line
    requires forall k :: 0 < k < |es| ==> !es[k].Cut? && !es[k].Line? && !es[k].TlsStarted? && !es[k].TlsFailed?
    ensures Advance(p, a, es) == Place(st, p.stream) && Reads(Advance(p, a, es), more)
    ensures !EndsSession(srv, capacity, es)
  {
    hide Apply;
    ReadOn(p, st, line, more);
  }

  ghost predicate SizeFits(srv: Server, size: SizeParam) {
    match size
    case NoSize => true
    case BadSize => false
    case Size(n) => srv.maxSize > 0 ==> n <= srv.maxSize
  }

  ghost predicate ParamsFit(srv: Server, params: MailParams) {
    params.Params? ==> params.validAuth && SizeFits(srv, params.size)
  }

  lemma MailRound(srv: Server, capacity: nat, p: Place, a: Answers, es: seq<Event>, line: bytes, more: bytes,
      from: string, params: MailParams)
    requires IsRound(srv, capacity, p, a, es) && Reads(p, line + more)
    requires Means(srv, capacity, line, Mail(Sender(from, params)))
    requires p.st.greeted && p.st.mail.None? && MayTransact(srv, p.st) && !a.chaos && ParamsFit(srv, params)
    ensures Reads(Advance(p, a, es), more) && !EndsSession(srv, capacity, es)
    ensures Advance(p, a, es).st
            == p.st.(octets := p.st.octets + line, mail := Some(Transaction(from, [])), swallowed := false)
  {
    hide IsRound, Apply, Reads, EndsSession;
    CommandRound(srv, capacity, p, a, es, line, more, Mail(Sender(from, params)));
    var st := Update(p.st, es[0]);
    assert es[1..] == [MailAccepted(from)];
    assert forall k :: 0 < k < |es| ==> es[k] == es[1..][k - 1];
    ApplyShort(st, MailAccepted(from), MailAccepted(from));
    QuietRound(srv, capacity, p, a, es, line, more, Mail(Sender(from, params)), Apply(p.st, es));
  }

  lemma RcptRound(srv: Server, capacity: nat, p: Place, a: Answers, es: seq<Event>, line: bytes, more: bytes,
      recipient: string)
    requires IsRound(srv, capacity, p, a, es) && Reads(p, line + more)
    requires Means(srv, capacity, line, Rcpt(Recipient(recipient)))
    requires MayTransact(srv, p.st) && p.st.mail.Some? && !a.chaos && a.approved
    requires |p.st.mail.value.to| < srv.maxRecipients
    ensures Reads(Advance(p, a, es), more) && !EndsSession(srv, capacity, es)
    ensures Advance(p, a, es).st
            == p.st.(octets := p.st.octets + line,
                     mail := Some(p.st.mail.value.(to := p.st.mail.value.to + [recipient])))
  {
    hide IsRound, Apply, Reads, EndsSession, RcptReaction;
    CommandRound(srv, capacity, p, a, es, line, more, Rcpt(Recipient(recipient)));
    ApprovedRecipient(srv, Update(p.st, es[0]), recipient, a);
    assert forall k :: 0 < k < |es| ==> es[k] == es[1..][k - 1];
    QuietRound(srv, capacity, p, a, es, line, more, Rcpt(Recipient(recipient)), Apply(p.st, es));
  }

  /** DATA and a stuffed text within the limit: exactly that text is handed over, under the envelope of the
      transaction, and what follows the end line is left to read. */
  lemma DataRound(srv: Server, capacity: nat, p: Place, a: Answers, es: seq<Event>, line: bytes, text: bytes,
      more: bytes)
    requires IsRound(srv, capacity, p, a, es) && Reads(p, line + (Stuff(text, true) + END + more))
    requires Means(srv, capacity, line, Data)
    requires MayTransact(srv, p.st) && p.st.mail.Some? && p.st.mail.value.to != [] && srv.hasMailHandler
    requires LineStartAfter(text, true) && !OverLimit(|text|, srv.maxSize)
    ensures es == [Line(line), Taken(Stuff(text, true) + END),
                   Handed(p.st.mail.value.from, p.st.mail.value.to, a.received + text, text, a.handled)]
    ensures Reads(Advance(p, a, es), more)
  {
    hide *;
    var wire := Stuff(text, true) + END;
    CommandRound(srv, capacity, p, a, es, line, wire + more, Data);
    var q := Place(Update(p.st, es[0]), p.stream);
    LineKeeps(srv, p.st, es[0]);
    MessageRound(srv, capacity, q, a, es[1..], text, more);
    assert es == [es[0]] + es[1..];
    AdvanceInPlace(p, a, es);
  }

  lemma AdvanceInPlace(p: Place, a: Answers, es: seq<Event>)
    requires es != [] && es[|es| - 1].Handed?
    ensures Advance(p, a, es) == Place(Apply(p.st, es), p.stream)
  {
  }

  lemma LineKeeps(srv: Server, st: State, e: Event)
    requires e.Line?
    ensures Update(st, e) == st.(octets := st.octets + e.raw)
    ensures MayTransact(srv, Update(st, e)) == MayTransact(srv, st)
  {
  }

  lemma MessageRound(srv: Server, capacity: nat, q: Place, a: Answers, es: seq<Event>, text: bytes, more: bytes)
    requires IsReaction(srv, capacity, q, Data, a, es) && Reads(q, Stuff(text, true) + END + more)
    requires MayTransact(srv, q.st) && q.st.mail.Some? && q.st.mail.value.to != [] && srv.hasMailHandler
    requires LineStartAfter(text, true) && !OverLimit(|text|, srv.maxSize)
    ensures es == [Taken(Stuff(text, true) + END),
                   Handed(q.st.mail.value.from, q.st.mail.value.to, a.received + text, text, a.handled)]
    ensures Reads(Place(Apply(q.st, es), q.stream), more)
    ensures !SwitchesStream(es)
  {
    hide Apply, Stuff, MessageOctets, IsMessage, TextOf, AllowedOctets, MayTransact;
    var wire := Stuff(text, true) + END;
    StuffedWireIsMessage(text, more);
    MessageTaken(srv, wire, es[0]);
    var handed := Handed(q.st.mail.value.from, q.st.mail.value.to, a.received + text, text, a.handled);
    assert es[1..] == [handed];
    assert es == [es[0]] + es[1..] == [Taken(wire), handed];
    ApplyShort(q.st, Taken(wire), handed);
    ReadOn(q, Apply(q.st, es), wire, more);
  }

  lemma MessageTaken(srv: Server, wire: bytes, e: Event)
    requires e.HasOctets() && e.raw == wire && AllowedOctets(srv, e)
    requires IsMessage(wire) && !OverLimit(|TextOf(wire)|, srv.maxSize)
    ensures e == Taken(wire)
  {
    hide FindEnd, TextOf;
  }

  function Lines(lines: seq<bytes>): bytes {
    if lines == [] then [] else lines[0] + Lines(lines[1..])
  }

  /** After some of the recipients. */
  ghost predicate HasTaken(srv: Server, p: Place, from: string, to: seq<string>, rest: bytes) {
    && MayTransact(srv, p.st)
    && p.st.mail == Some(Transaction(from, to))
    && Reads(p, rest)
  }

  /** The run has not ended at round i, and what has gone before has left these. */
  ghost predicate GoesOn(
    srv: Server, capacity: nat, p: Place, answers: seq<Answers>, rounds: seq<seq<Event>>, i: nat,
    from: string, to: seq<string>, rest: bytes)
  {
    && IsRun(srv, capacity, p, answers, rounds) && 0 < i <= |rounds|
    && (|rounds| < |answers| ==> rounds != [] && EndsSession(srv, capacity, rounds[|rounds| - 1]))
    && !EndsSession(srv, capacity, rounds[i - 1])
    && HasTaken(srv, PlaceAt(p, answers, rounds, i), from, to, rest)
  }

  lemma RecipientTaken(
    srv: Server, capacity: nat, p: Place, answers: seq<Answers>, rounds: seq<seq<Event>>, i: nat,
    from: string, to: seq<string>, recipient: string, line: bytes, more: bytes)
    requires GoesOn(srv, capacity, p, answers, rounds, i, from, to, line + more) && i < |answers|
    requires Means(srv, capacity, line, Rcpt(Recipient(recipient)))
    requires !answers[i].chaos && answers[i].approved && |to| < srv.maxRecipients
    ensures GoesOn(srv, capacity, p, answers, rounds, i + 1, from, to + [recipient], more)
  {
    hide IsRound, EndsSession, Reads, Means, Advance;
    assert i < |rounds|;
    RcptRound(srv, capacity, PlaceAt(p, answers, rounds, i), answers[i], rounds[i], line, more, recipient);
  }

  /** Approved recipients, no more than the maximum, are accepted in order, one by one. */
  lemma {:induction false} RecipientsAccumulate(
    srv: Server, capacity: nat, p: Place, answers: seq<Answers>, rounds: seq<seq<Event>>, i: nat,
    from: string, to: seq<string>, recipients: seq<string>, lines: seq<bytes>, more: bytes)
    requires |lines| == |recipients| && i + |recipients| <= |answers|
    requires GoesOn(srv, capacity, p, answers, rounds, i, from, to, Lines(lines) + more)
    requires forall k :: 0 <= k < |recipients| ==> Means(srv, capacity, lines[k], Rcpt(Recipient(recipients[k])))
    requires forall k :: 0 <= k < |answers| ==> !answers[k].chaos && answers[k].approved
    requires |to| + |recipients| <= srv.maxRecipients
    ensures GoesOn(srv, capacity, p, answers, rounds, i + |recipients|, from, to + recipients, more)
    decreases |recipients|
  {
    hide GoesOn, Means;
    if recipients == [] {
      assert Lines(lines) + more == more && to + recipients == to;
    } else {
      assert Lines(lines) + more == lines[0] + (Lines(lines[1..]) + more);
      hide Lines;
      RecipientTaken(srv, capacity, p, answers, rounds, i, from, to, recipients[0], lines[0], Lines(lines[1..]) + more);
      RecipientsAccumulate(srv, capacity, p, answers, rounds, i + 1,
                           from, to + [recipients[0]], recipients[1..], lines[1..], more);
      assert (to + [recipients[0]]) + recipients[1..] == to + recipients;
    }
  }

  lemma SenderTaken(
    srv: Server, capacity: nat, p: Place, answers: seq<Answers>, rounds: seq<seq<Event>>, from: string,
    params: MailParams, line: bytes, more: bytes)
    requires IsRun(srv, capacity, p, answers, rounds) && answers != []
    requires |rounds| < |answers| ==> rounds != [] && EndsSession(srv, capacity, rounds[|rounds| - 1])
    requires p.st.greeted && p.st.mail.None? && MayTransact(srv, p.st) && !answers[0].chaos
    requires ParamsFit(srv, params)
    requires Means(srv, capacity, line, Mail(Sender(from, params))) && Reads(p, line + more)
    ensures GoesOn(srv, capacity, p, answers, rounds, 1, from, [], more)
  {
    hide IsRound, EndsSession, Reads, Means, Advance;
    assert 0 < |rounds|;
    assert PlaceAt(p, answers, rounds, 0) == p;
    MailRound(srv, capacity, p, answers[0], rounds[0], line, more, from, params);
    assert PlaceAt(p, answers, rounds, 1) == Advance(p, answers[0], rounds[0]);
  }

  /** After the sender and the recipients, what follows them is to be read. */
  lemma EnvelopeTaken(
    srv: Server, capacity: nat, p: Place, answers: seq<Answers>, rounds: seq<seq<Event>>,
    from: string, params: MailParams, recipients: seq<string>, mailLine: bytes, rcptLines: seq<bytes>, tail: bytes)
    requires IsRun(srv, capacity, p, answers, rounds) && |answers| >= |recipients| + 2
    requires |rounds| < |answers| ==> rounds != [] && EndsSession(srv, capacity, rounds[|rounds| - 1])
    requires p.st.greeted && p.st.mail.None? && MayTransact(srv, p.st)
    requires forall k :: 0 <= k < |answers| ==> !answers[k].chaos && answers[k].approved
    requires ParamsFit(srv, params) && |recipients| <= srv.maxRecipients && |rcptLines| == |recipients|
    requires Means(srv, capacity, mailLine, Mail(Sender(from, params)))
    requires forall k :: 0 <= k < |recipients| ==> Means(srv, capacity, rcptLines[k], Rcpt(Recipient(recipients[k])))
    requires Reads(p, mailLine + (Lines(rcptLines) + tail))
    ensures GoesOn(srv, capacity, p, answers, rounds, |recipients| + 1, from, recipients, tail)
  {
    hide *;
    SenderTaken(srv, capacity, p, answers, rounds, from, params, mailLine, Lines(rcptLines) + tail);
    RecipientsAccumulate(srv, capacity, p, answers, rounds, 1, from, [], recipients, rcptLines, tail);
    assert [] + recipients == recipients;
  }

  lemma TextTaken(
    srv: Server, capacity: nat, p: Place, answers: seq<Answers>, rounds: seq<seq<Event>>, i: nat,
    from: string, to: seq<string>, line: bytes, text: bytes, more: bytes)
    requires GoesOn(srv, capacity, p, answers, rounds, i, from, to, line + (Stuff(text, true) + END + more))
             && i < |answers|
    requires Means(srv, capacity, line, Data) && to != [] && srv.hasMailHandler
    requires LineStartAfter(text, true) && !OverLimit(|text|, srv.maxSize)
    ensures i < |rounds|
    ensures rounds[i] == [Line(line), Taken(Stuff(text, true) + END),
                          Handed(from, to, answers[i].received + text, text, answers[i].handled)]
    ensures Reads(PlaceAt(p, answers, rounds, i + 1), more)
  {
    hide IsRound, EndsSession, Reads, Means, Advance, Stuff;
    assert i < |rounds|;
    DataRound(srv, capacity, PlaceAt(p, answers, rounds, i), answers[i], rounds[i], line, text, more);
  }

  /** A client that has greeted, in a session that may take mail, sends a sender with parameters that fit, one to
      the maximum of recipients that are approved, and a stuffed text within the limit. On every run in which it is
      answered, exactly that text is handed over with exactly that envelope, and what it sends next is what is
      read next. */
  lemma CompliantMailIsHandedOver(
    srv: Server, capacity: nat, p: Place, answers: seq<Answers>, rounds: seq<seq<Event>>,
    from: string, params: MailParams, recipients: seq<string>, text: bytes, mailLine: bytes,
    rcptLines: seq<bytes>, dataLine: bytes, more: bytes)
    requires IsRun(srv, capacity, p, answers, rounds) && |answers| >= |recipients| + 2
    requires |rounds| < |answers| ==> rounds != [] && EndsSession(srv, capacity, rounds[|rounds| - 1])
    requires p.st.greeted && p.st.mail.None? && MayTransact(srv, p.st) && srv.hasMailHandler
    requires forall k :: 0 <= k < |answers| ==> !answers[k].chaos && answers[k].approved
    requires ParamsFit(srv, params)
    requires 1 <= |recipients| <= srv.maxRecipients && |rcptLines| == |recipients|
    requires Means(srv, capacity, mailLine, Mail(Sender(from, params))) && Means(srv, capacity, dataLine, Data)
    requires forall k :: 0 <= k < |recipients| ==> Means(srv, capacity, rcptLines[k], Rcpt(Recipient(recipients[k])))
    requires LineStartAfter(text, true) && !OverLimit(|text|, srv.maxSize)
    requires Reads(p, mailLine + (Lines(rcptLines) + (dataLine + (Stuff(text, true) + END + more))))
    ensures var n := |recipients| + 1;
            && n < |rounds|
            && rounds[n] == [Line(dataLine), Taken(Stuff(text, true) + END),
                             Handed(from, recipients, answers[n].received + text, text, answers[n].handled)]
            && Reads(PlaceAt(p, answers, rounds, n + 1), more)
  {
    hide *;
    var n := |recipients| + 1;
    EnvelopeTaken(srv, capacity, p, answers, rounds, from, params, recipients, mailLine, rcptLines,
                  dataLine + (Stuff(text, true) + END + more));
    TextTaken(srv, capacity, p, answers, rounds, n, from, recipients, dataLine, text, more);
  }
}
