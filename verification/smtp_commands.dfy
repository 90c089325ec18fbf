/** What each command does in a round of the loop, in the words of the protocol: which events it records and what
    becomes of the transaction, in every state. */
module SmtpCommands {
  import opened Basics
  import opened Bytes
  import opened DotStuffing
  import opened SmtpData
  import opened SmtpSession
  import opened SmtpTraces

  /** The round at p reads the line as this command. */
  ghost predicate IsRoundOf(
    srv: Server, capacity: nat, p: Place, a: Answers, es: seq<Event>, line: bytes, more: bytes, cmd: Command)
  {
    IsRound(srv, capacity, p, a, es) && Reads(p, line + more) && Means(srv, capacity, line, cmd)
  }

  /** TLS and authentication are in force where they are required. */
  ghost predicate Secured(srv: Server, st: State) {
    && (srv.tlsConfigured && srv.tlsRequired ==> st.tls)
    && (srv.hasAuthHandler && srv.authRequired ==> st.authenticated)
  }

  lemma SecuredMeans(srv: Server, st: State)
    ensures Secured(srv, st) <==> MayTransact(srv, st)
  {
  }

  /** The events after the line that was read. */
  lemma RoundIsReaction(
    srv: Server, capacity: nat, p: Place, a: Answers, es: seq<Event>, line: bytes, more: bytes, cmd: Command)
    requires IsRoundOf(srv, capacity, p, a, es, line, more, cmd)
    ensures es != [] && es == [Line(line)] + es[1..]
    ensures var q := Place(p.st.(octets := p.st.octets + line), p.stream);
            && Reads(q, more) && IsReaction(srv, capacity, q, cmd, a, es[1..])
            && Advance(p, a, es).st == Apply(q.st, es[1..])
            && Advance(p, a, es).stream == if SwitchesStream(es[1..]) then a.onward else p.stream
  {
    hide IsReaction, LineOctets, IsRound, Reads, Means, Apply;
    CommandRound(srv, capacity, p, a, es, line, more, cmd);
  }

  // ---------------------------------------------------------------- MAIL

  /** MAIL is accepted exactly for a valid address with parameters that fit, after a greeting, before any recipient,
      and where security is in force; it is refused exactly for what does not fit, and then the earlier sender stays. */
  lemma MailIsAcceptedExactlyWhen(
    srv: Server, capacity: nat, p: Place, a: Answers, es: seq<Event>, line: bytes, more: bytes, args: MailArgs)
    requires IsRoundOf(srv, capacity, p, a, es, line, more, Mail(args))
    ensures var admitted := Secured(srv, p.st) && p.st.greeted && (p.st.mail.Some? ==> p.st.mail.value.to == []);
            var accepted := admitted && args.Sender? && !a.chaos && ParamsFit(srv, args.params);
            var refused := admitted && (args.BadSender? || (!a.chaos && !ParamsFit(srv, args.params)));
            && (forall from :: MailAccepted(from) in es <==> accepted && from == args.address)
            && (MailRefused in es <==> refused)
            && Advance(p, a, es).st
               == p.st.(octets := p.st.octets + line,
                        mail := if accepted then Some(Transaction(args.address, [])) else p.st.mail,
                        swallowed := p.st.swallowed && !accepted && !refused)
  {
    hide IsRound, Reads, Means, Advance, Apply, LineOctets;
    RoundIsReaction(srv, capacity, p, a, es, line, more, Mail(args));
    var st := p.st.(octets := p.st.octets + line);
    ApplyNone(st);
    ApplyShort(st, MailRefused, MailRefused);
    if args.Sender? {
      ApplyShort(st, MailAccepted(args.address), MailAccepted(args.address));
    }
  }

  lemma ApplyNone(st: State)
    ensures Apply(st, []) == st
  {
  }

  // ---------------------------------------------------------------- RCPT

  /** RCPT asks the handler exactly for a valid recipient in a transaction that is not full, and then the recipient is
      added if it is approved, and swallowed if it is not and that is configured. */
  lemma RcptIsAcceptedExactlyWhen(
    srv: Server, capacity: nat, p: Place, a: Answers, es: seq<Event>, line: bytes, more: bytes, args: RcptArgs)
    requires IsRoundOf(srv, capacity, p, a, es, line, more, Rcpt(args))
    ensures var admitted := Secured(srv, p.st) && p.st.mail.Some? && args.Recipient? && !a.chaos
                            && |p.st.mail.value.to| < srv.maxRecipients;
            var approved := srv.hasRcptHandler ==> a.approved;
            var accepted, swallowed := admitted && approved, admitted && !approved && srv.ignoreRejectedRecipients;
            && (forall from, to, ok :: RcptAsked(from, to, ok) in es
                  <==> admitted && srv.hasRcptHandler && from == p.st.mail.value.from && to == args.address
                       && ok == a.approved)
            && (forall to :: RcptAccepted(to) in es <==> accepted && to == args.address)
            && (RcptSwallowed in es <==> swallowed)
            && Advance(p, a, es).st
               == p.st.(octets := p.st.octets + line,
                        mail := if accepted
                        then Some(p.st.mail.value.(to := p.st.mail.value.to + [args.address]))
                        else p.st.mail,
                        swallowed := p.st.swallowed || swallowed)
  {
    hide IsRound, Reads, Means, Advance, Apply, LineOctets, RcptReaction;
    RoundIsReaction(srv, capacity, p, a, es, line, more, Rcpt(args));
    RcptEvents(srv, p.st.(octets := p.st.octets + line), args, a);
    RcptApplies(srv, p.st.(octets := p.st.octets + line), args, a);
    hide Secured;
    assert forall e: Event :: !e.Line? ==> (e in es <==> e in es[1..]);
  }

  ghost predicate RcptAdmitted(srv: Server, st: State, args: RcptArgs, a: Answers) {
    Secured(srv, st) && st.mail.Some? && args.Recipient? && !a.chaos && |st.mail.value.to| < srv.maxRecipients
  }

  lemma RcptEvents(srv: Server, st: State, args: RcptArgs, a: Answers)
    ensures var r, admitted, approved := RcptReaction(srv, st, args, a), RcptAdmitted(srv, st, args, a),
                                         srv.hasRcptHandler ==> a.approved;
            && (forall from, to, ok :: RcptAsked(from, to, ok) in r
                  <==> admitted && srv.hasRcptHandler && from == st.mail.value.from && to == args.address
                       && ok == a.approved)
            && (forall to :: RcptAccepted(to) in r <==> admitted && approved && to == args.address)
            && (RcptSwallowed in r <==> admitted && !approved && srv.ignoreRejectedRecipients)
  {
    hide RcptReaction, Secured;
    if st.mail.Some? && args.Recipient? {
      RcptReactionIs(srv, st, args, a, RcptAsked(st.mail.value.from, args.address, a.approved));
    } else {
      NoRcpt(srv, st, args, a);
    }
  }

  lemma RcptApplies(srv: Server, st: State, args: RcptArgs, a: Answers)
    ensures var admitted, approved := RcptAdmitted(srv, st, args, a), srv.hasRcptHandler ==> a.approved;
            Apply(st, RcptReaction(srv, st, args, a))
            == if admitted && approved
               then st.(mail := Some(st.mail.value.(to := st.mail.value.to + [args.address])))
               else st.(swallowed := st.swallowed || (admitted && srv.ignoreRejectedRecipients))
  {
    hide Apply, RcptReaction, Secured;
    ApplyNone(st);
    if st.mail.Some? && args.Recipient? {
      var asked, accepted := RcptAsked(st.mail.value.from, args.address, a.approved), RcptAccepted(args.address);
      RcptReactionIs(srv, st, args, a, asked);
      ApplyShort(st, asked, accepted);
      ApplyShort(st, asked, RcptSwallowed);
      ApplyShort(st, asked, asked);
      ApplyShort(st, accepted, accepted);
    } else {
      NoRcpt(srv, st, args, a);
    }
  }

  lemma NoRcpt(srv: Server, st: State, args: RcptArgs, a: Answers)
    requires st.mail.None? || args.BadRecipient?
    ensures RcptReaction(srv, st, args, a) == []
  {
  }

  lemma RcptReactionIs(srv: Server, st: State, args: RcptArgs, a: Answers, asked: Event)
    requires st.mail.Some? && args.Recipient? && asked == RcptAsked(st.mail.value.from, args.address, a.approved)
    ensures RcptReaction(srv, st, args, a)
            == if !Secured(srv, st) || a.chaos || |st.mail.value.to| >= srv.maxRecipients then []
               else if !srv.hasRcptHandler then [RcptAccepted(args.address)]
               else if a.approved then [asked, RcptAccepted(args.address)]
               else if srv.ignoreRejectedRecipients then [asked, RcptSwallowed]
               else [asked]
  {
  }

  // ---------------------------------------------------------------- HELO, RSET, STARTTLS

  lemma GreetingExactly(
    srv: Server, capacity: nat, p: Place, a: Answers, es: seq<Event>, line: bytes, more: bytes)
    requires IsRoundOf(srv, capacity, p, a, es, line, more, Hello)
    ensures es == [Line(line), Greeted]
    ensures Advance(p, a, es).st
            == p.st.(octets := p.st.octets + line, greeted := true, mail := None, swallowed := false)
  {
    hide IsRound, Reads, Means, Advance, Apply, LineOctets;
    RoundIsReaction(srv, capacity, p, a, es, line, more, Hello);
    ApplyShort(p.st.(octets := p.st.octets + line), Greeted, Greeted);
  }

  /** RSET is carried out exactly when no TLS is owed. */
  lemma ResetExactlyWhen(
    srv: Server, capacity: nat, p: Place, a: Answers, es: seq<Event>, line: bytes, more: bytes)
    requires IsRoundOf(srv, capacity, p, a, es, line, more, Rset)
    ensures var carriedOut := srv.tlsConfigured && srv.tlsRequired ==> p.st.tls;
            && (WasReset in es <==> carriedOut)
            && Advance(p, a, es).st
               == p.st.(octets := p.st.octets + line, mail := if carriedOut then None else p.st.mail,
                        swallowed := p.st.swallowed && !carriedOut)
  {
    hide IsRound, Reads, Means, Advance, Apply, LineOctets;
    RoundIsReaction(srv, capacity, p, a, es, line, more, Rset);
    var st := p.st.(octets := p.st.octets + line);
    ApplyNone(st);
    ApplyShort(st, WasReset, WasReset);
  }

  /** TLS begins exactly after a handshake that succeeds, made where TLS is configured and not in force; then nothing of
      what was before is left but the greeting and the authentication. After one that fails the transaction goes on. */
  lemma TlsStartsExactlyWhen(
    srv: Server, capacity: nat, p: Place, a: Answers, es: seq<Event>, line: bytes, more: bytes, noArgs: bool)
    requires IsRoundOf(srv, capacity, p, a, es, line, more, StartTls(noArgs))
    ensures var tried, q := noArgs && srv.tlsConfigured && !p.st.tls, Advance(p, a, es);
            && (TlsStarted in es <==> tried && a.handshake)
            && (TlsFailed in es <==> tried && !a.handshake)
            && q.stream == (if tried then a.onward else p.stream)
            && q.st.octets == (if tried then [] else p.st.octets + line)
            && q.st.greeted == p.st.greeted && q.st.authenticated == p.st.authenticated
            && (q.st.tls <==> p.st.tls || (tried && a.handshake))
            && (if tried && a.handshake then q.st.mail == None && !q.st.swallowed
                else q.st.mail == p.st.mail && q.st.swallowed == p.st.swallowed)
  {
    hide IsRound, Reads, Means, Advance, Apply, LineOctets;
    RoundIsReaction(srv, capacity, p, a, es, line, more, StartTls(noArgs));
    var st := p.st.(octets := p.st.octets + line);
    ApplyNone(st);
    ApplyShort(st, TlsStarted, TlsStarted);
    ApplyShort(st, TlsFailed, TlsFailed);
  }

  // ---------------------------------------------------------------- DATA

  /** DATA reads a message exactly in a transaction with a recipient, approved or swallowed, where security is in
      force. What is read is all up to the first end line, or all there is; it is handed over unstuffed, under the
      sender and recipients of the transaction, if it is whole, within the limit and there is somebody to hand it to,
      and without an approved recipient it is dropped. */
  lemma DataIsHandedOverExactlyWhen(
    srv: Server, capacity: nat, p: Place, a: Answers, es: seq<Event>, line: bytes, more: bytes)
    requires IsRoundOf(srv, capacity, p, a, es, line, more, Data)
    ensures var admitted := Secured(srv, p.st) && p.st.mail.Some? && (p.st.mail.value.to != [] || p.st.swallowed);
            if !admitted then es == [Line(line)]
            else
              var end, to := FindEnd(more, true), p.st.mail.value.to;
              if end.None? then es == [Line(line), Cut(more)] || es == [Line(line), TooBig(more)]
              else
                var raw, text := more[..end.value + 3], Unstuff(more[..end.value], true);
                if srv.maxSize > 0 && |text| > srv.maxSize then es == [Line(line), TooBig(raw)]
                else if to == [] || !srv.hasMailHandler then es == [Line(line), Taken(raw), Dropped]
                else es == [Line(line), Taken(raw),
                            Handed(p.st.mail.value.from, to, a.received + text, text, a.handled)]
  {
    hide IsRound, Reads, Means, Advance, Apply, LineOctets, MayTransact, FindEnd, Unstuff, IsMessage;
    RoundIsReaction(srv, capacity, p, a, es, line, more, Data);
    SecuredMeans(srv, p.st);
    var q := Place(p.st.(octets := p.st.octets + line), p.stream);
    SecuredMeans(srv, q.st);
    RestIsRead(q, more);
    if DataAdmitted(srv, q.st) {
      MessageOctetsAre(more);
      hide MessageOctets, TextOf;
      var e, rest := es[1..][0], es[1..][1..];
      assert es[1..] == [e] + rest && rest == DataReaction(srv, q.st, e, a);
      assert es == [Line(line)] + ([e] + rest);
      OctetsExactly(srv, e, more);
    }
  }

  lemma RestIsRead(p: Place, rest: bytes)
    requires Reads(p, rest)
    ensures p.Rest() == rest
  {
  }

  lemma MessageOctetsAre(s: bytes)
    ensures FindEnd(s, true).None? ==> MessageOctets(s) == s && !IsMessage(s)
    ensures FindEnd(s, true).Some? ==>
              var n := FindEnd(s, true).value;
              && n + 3 <= |s| && MessageOctets(s) == s[..n + 3] && IsMessage(s[..n + 3])
              && TextOf(s[..n + 3]) == Unstuff(s[..n], true)
  {
    hide FindEnd, Unstuff;
    MessageOctetsEnd(s);
    if FindEnd(s, true).Some? {
      var n := FindEnd(s, true).value;
      assert s[..n + 3][..n] == s[..n];
    }
  }

  lemma OctetsExactly(srv: Server, e: Event, s: bytes)
    requires e.HasOctets() && e.raw == MessageOctets(s) && AllowedOctets(srv, e)
    ensures FindEnd(s, true).None? ==> e == Cut(s) || e == TooBig(s)
    ensures FindEnd(s, true).Some? ==>
              e == if srv.maxSize > 0 && |TextOf(e.raw)| > srv.maxSize then TooBig(e.raw) else Taken(e.raw)
  {
    hide FindEnd, Unstuff, TextOf;
    MessageOctetsEnd(s);
  }

  /** The transaction is over after DATA exactly when its message was dropped or the handler has taken it. */
  lemma TransactionAfterData(
    srv: Server, capacity: nat, p: Place, a: Answers, es: seq<Event>, line: bytes, more: bytes)
    requires IsRoundOf(srv, capacity, p, a, es, line, more, Data)
    ensures var over := es[|es| - 1].Dropped? || (es[|es| - 1].Handed? && a.handled);
            && (Advance(p, a, es).st.mail == if over then None else p.st.mail)
            && (Advance(p, a, es).st.swallowed <==> p.st.swallowed && !over)
  {
    hide IsRound, Reads, Means, Advance, Apply, LineOctets, FindEnd, Unstuff, IsReaction, Secured;
    DataIsHandedOverExactlyWhen(srv, capacity, p, a, es, line, more);
    RoundIsReaction(srv, capacity, p, a, es, line, more, Data);
    var st, r := p.st.(octets := p.st.octets + line), es[1..];
    ApplyNone(st);
    if r != [] {
      ApplyShort(st, r[0], r[|r| - 1]);
      ApplyShort(st, r[0], r[0]);
      assert r == [r[0]] || r == [r[0], r[1]];
    }
  }

  // ---------------------------------------------------------------- AUTH

  /** AUTH is answered by the handler exactly where authentication is possible, outside a transaction and not yet
      granted, by a mechanism that is allowed, when all the lines that the mechanism needs could be read and decoded.
      The lines are the next ones. */
  lemma AuthIsAskedExactlyWhen(
    srv: Server, capacity: nat, p: Place, a: Answers, es: seq<Event>, line: bytes, more: bytes, args: AuthArgs)
    requires IsRoundOf(srv, capacity, p, a, es, line, more, Authenticate(args))
    ensures var allowed := args.Auth? && if args.mech in srv.authMechs then srv.authMechs[args.mech]
                                         else args.mech.CramMd5? || p.st.tls;
            var admitted := allowed && (srv.tlsConfigured && srv.tlsRequired ==> p.st.tls) && srv.hasAuthHandler
                            && !p.st.authenticated && p.st.mail.None? && !a.chaos;
            var asked := es[|es| - 1].AuthChecked?;
            var lines := if asked then es[1..|es| - 1] else es[1..];
            if !admitted then es == [Line(line)]
            else
              && AreNextLines(more, lines) && AreEnoughLines(capacity, args.mech, args.initial, a, lines)
              && (asked <==> a.decoded && (args.mech.Login? ==> a.decodedNext)
                             && forall k :: 0 <= k < |lines| ==> lines[k].Line? && Fits(lines[k].raw, capacity))
              && (asked ==> es[|es| - 1] == AuthChecked(args.mech, a.credentials))
  {
    hide IsRound, Reads, Means, Advance, Apply, LineOctets, AreNextLines, AreEnoughLines, Fits;
    RoundIsReaction(srv, capacity, p, a, es, line, more, Authenticate(args));
    var q := Place(p.st.(octets := p.st.octets + line), p.stream);
    RestIsRead(q, more);
    assert es[|es| - 1] == if es[1..] == [] then Line(line) else es[1..][|es[1..]| - 1];
    assert |es| > 1 ==> es[1..|es| - 1] == es[1..][..|es[1..]| - 1];
  }

  // ---------------------------------------------------------------- the rest

  /** QUIT and the other commands record nothing and change nothing. */
  lemma OthersDoNothing(
    srv: Server, capacity: nat, p: Place, a: Answers, es: seq<Event>, line: bytes, more: bytes, cmd: Command)
    requires IsRoundOf(srv, capacity, p, a, es, line, more, cmd) && (cmd.Quit? || cmd.Other?)
    ensures es == [Line(line)] && Advance(p, a, es) == Place(p.st.(octets := p.st.octets + line), p.stream)
  {
    hide IsRound, Reads, Means, Apply, LineOctets;
    RoundIsReaction(srv, capacity, p, a, es, line, more, cmd);
    ApplyNone(p.st.(octets := p.st.octets + line));
  }
}
