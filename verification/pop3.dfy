/** The POP3 session: login, the commands on the snapshot taken at login, and the deletion marks that
    are carried out when the session ends with QUIT. */
module Pop3 {
  import opened Basics
  import opened Bytes
  import opened DotStuffing
  import opened Pop3Text

  datatype Message = Message(id: string, size: nat)

  /** A command argument, with its value if it is a number. */
  datatype Arg = Arg(text: string, number: Option<int>)

  datatype Command =
    | Capa
    | User(args: seq<Arg>)
    | Pass(args: seq<Arg>, valid: bool, list: seq<Message>)   // the answers of authUser and getMessages
    | Stat
    | List(args: seq<Arg>)
    | Uidl(args: seq<Arg>)
    | Retr(args: seq<Arg>, raw: Option<bytes>)                 // the answer of GetMessageRaw
    | Top(args: seq<Arg>, raw: Option<bytes>)
    | Noop
    | Dele(args: seq<Arg>)
    | Rset
    | Quit
    | Unknown

  datatype Reply =
    | Refused
    | Accepted
    | LoggedIn(snapshot: seq<Message>)
    | LoginFailed
    | Hangup                                            // an error after which the session ends
    | Totals(count: nat, size: nat)
    | One(number: int, size: nat)
    | Listing(count: nat, total: nat, rows: seq<(int, nat)>)
    | OneId(number: int, id: string)
    | IdListing(ids: seq<(int, string)>)
    | Text(octets: nat, wire: bytes)
    | TopText(wire: bytes)
    | Marked(id: string)
    | Unmarked

  // ---------------------------------------------------------------- the snapshot minus the marks

  predicate IsMarked(messages: seq<Message>, marked: seq<string>, number: int)
    requires 1 <= number <= |messages|
  {
    messages[number - 1].id in marked
  }

  predicate IsVisible(messages: seq<Message>, marked: seq<string>, number: int) {
    1 <= number <= |messages| && !IsMarked(messages, marked, number)
  }

  /** The numbers of the unmarked messages among the first n, ascending. */
  function Visible(messages: seq<Message>, marked: seq<string>, n: nat): (r: seq<int>)
    requires n <= |messages|
    ensures |r| <= n
    ensures forall k :: 0 <= k < |r| ==> 1 <= r[k] <= n
  {
    if n == 0 then []
    else
      var before := Visible(messages, marked, n - 1);
      if IsMarked(messages, marked, n) then before else before + [n]
  }

  ghost predicate Ascending(r: seq<int>) {
    forall j, k :: 0 <= j < k < |r| ==> r[j] < r[k]
  }

  lemma {:induction false} VisibleAscends(messages: seq<Message>, marked: seq<string>, n: nat)
    requires n <= |messages|
    ensures Ascending(Visible(messages, marked, n))
  {
    if n > 0 {
      VisibleAscends(messages, marked, n - 1);
      var before := Visible(messages, marked, n - 1);
      assert Ascending(before + [n]);
    }
  }

  lemma {:induction false} VisibleIsComplete(messages: seq<Message>, marked: seq<string>, n: nat, number: int)
    requires n <= |messages|
    ensures number in Visible(messages, marked, n) <==> number <= n && IsVisible(messages, marked, number)
  {
    if n > 0 {
      VisibleIsComplete(messages, marked, n - 1, number);
    }
  }

  function TotalSize(messages: seq<Message>, numbers: seq<int>): nat
    requires forall k :: 0 <= k < |numbers| ==> 1 <= numbers[k] <= |messages|
  {
    if numbers == [] then 0
    else TotalSize(messages, numbers[..|numbers| - 1]) + messages[numbers[|numbers| - 1] - 1].size
  }

  lemma TotalSizeAppend(messages: seq<Message>, numbers: seq<int>, number: int)
    requires forall k :: 0 <= k < |numbers| ==> 1 <= numbers[k] <= |messages|
    requires 1 <= number <= |messages|
    ensures TotalSize(messages, numbers + [number]) == TotalSize(messages, numbers) + messages[number - 1].size
  {
    var more := numbers + [number];
    assert more[|more| - 1] == number && more[..|more| - 1] == numbers;
  }

  function Rows(messages: seq<Message>, numbers: seq<int>): (r: seq<(int, nat)>)
    requires forall k :: 0 <= k < |numbers| ==> 1 <= numbers[k] <= |messages|
  {
    seq(|numbers|, k requires 0 <= k < |numbers| => (numbers[k], messages[numbers[k] - 1].size))
  }

  function Ids(messages: seq<Message>, numbers: seq<int>): (r: seq<(int, string)>)
    requires forall k :: 0 <= k < |numbers| ==> 1 <= numbers[k] <= |messages|
  {
    seq(|numbers|, k requires 0 <= k < |numbers| => (numbers[k], messages[numbers[k] - 1].id))
  }

  lemma RowsAppend(messages: seq<Message>, numbers: seq<int>, number: int)
    requires forall k :: 0 <= k < |numbers| ==> 1 <= numbers[k] <= |messages|
    requires 1 <= number <= |messages|
    ensures Rows(messages, numbers + [number]) == Rows(messages, numbers) + [(number, messages[number - 1].size)]
    ensures Ids(messages, numbers + [number]) == Ids(messages, numbers) + [(number, messages[number - 1].id)]
  {
  }

  // ---------------------------------------------------------------- what each command answers

  function ArgNumber(args: seq<Arg>, k: nat): Option<int> {
    if k < |args| then args[k].number else None
  }

  /** The message a numeric argument names, if it is there and unmarked. */
  predicate Names(messages: seq<Message>, marked: seq<string>, number: Option<int>) {
    number.Some? && IsVisible(messages, marked, number.value)
  }

  function Answer(messages: seq<Message>, marked: seq<string>, cmd: Command): Reply {
    var visible := Visible(messages, marked, |messages|);
    match cmd
    case Stat => Totals(|visible|, TotalSize(messages, visible))
    case List(args) =>
      if args == [] then Listing(|visible|, TotalSize(messages, visible), Rows(messages, visible))
      else if Names(messages, marked, args[0].number)
      then One(args[0].number.value, messages[args[0].number.value - 1].size)
      else Refused
    case Uidl(args) =>
      if |args| > 1 then Refused
      else if args == [] then IdListing(Ids(messages, visible))
      else if Names(messages, marked, args[0].number)
      then OneId(args[0].number.value, messages[args[0].number.value - 1].id)
      else Refused
    case Retr(args, raw) =>
      if |args| == 1 && Names(messages, marked, args[0].number) && raw.Some?
      then Text(|raw.value|, RetrWire(raw.value)) else Refused
    case Top(args, raw) =>
      if Names(messages, marked, ArgNumber(args, 0)) && ArgNumber(args, 1).Some? && raw.Some?
      then TopText(TopWire(raw.value, args[1].number.value)) else Refused
    case Dele(args) =>
      if Names(messages, marked, ArgNumber(args, 0)) then Marked(messages[args[0].number.value - 1].id) else Refused
    case Rset => Unmarked
    case Noop => Accepted
    case _ => Refused
  }

  // ---------------------------------------------------------------- the transcript

  datatype Exchange = Exchange(cmd: Command, reply: Reply)

  /** The snapshot of the login in a transcript. */
  function Snapshot(h: seq<Exchange>): Option<seq<Message>> {
    if h == [] then None
    else if h[|h| - 1].reply.LoggedIn? then Some(h[|h| - 1].reply.snapshot)
    else Snapshot(h[..|h| - 1])
  }

  /** The ids answered as marked since the last RSET, in order. */
  function Marks(h: seq<Exchange>): seq<string> {
    if h == [] then [] else MarksAfter(Marks(h[..|h| - 1]), h[|h| - 1].reply)
  }

  function MarksAfter(marks: seq<string>, reply: Reply): seq<string> {
    match reply
    case Marked(id) => marks + [id]
    case Unmarked => []
    case _ => marks
  }

  function Failures(h: seq<Exchange>): nat {
    if h == [] then 0 else Failures(h[..|h| - 1]) + (if h[|h| - 1].reply.LoginFailed? then 1 else 0)
  }

  /** The user named last. */
  function UserNamed(h: seq<Exchange>): string {
    if h == [] then "" else UserAfter(UserNamed(h[..|h| - 1]), h[|h| - 1])
  }

  function UserAfter(user: string, e: Exchange): string {
    if e.cmd.User? && e.reply.Accepted? && |e.cmd.args| == 1 then e.cmd.args[0].text else user
  }

  /** The session has ended: with QUIT, with an error that ends it, or with the fifth failed login. */
  predicate Over(h: seq<Exchange>) {
    EndedWithQuit(h) || (h != [] && h[|h| - 1].reply.Hangup?) || Failures(h) >= MAX_FAILURES
  }

  predicate EndedWithQuit(h: seq<Exchange>) {
    h != [] && h[|h| - 1].cmd.Quit?
  }

  const MAX_FAILURES: nat := 5

  predicate NeedsLogin(cmd: Command) {
    cmd.Stat? || cmd.List? || cmd.Uidl? || cmd.Retr? || cmd.Top? || cmd.Noop? || cmd.Dele? || cmd.Rset?
  }

  /** What USER and PASS are answered. */
  function LoginAnswer(loggedIn: bool, user: string, cmd: Command): Reply
    requires cmd.User? || cmd.Pass?
  {
    if loggedIn then Refused
    else match cmd
      case User(args) => if |args| == 1 then Accepted else Hangup
      case Pass(args, valid, list) =>
        if user == "" || args == [] then Hangup else if valid then LoggedIn(list) else LoginFailed
  }

  /** The reply to one command after a transcript. */
  ghost predicate Follows(h: seq<Exchange>, e: Exchange) {
    && !Over(h)
    && (NeedsLogin(e.cmd) ==>
          e.reply == if Snapshot(h).None? then Refused else Answer(Snapshot(h).value, Marks(h), e.cmd))
    && (e.cmd.User? || e.cmd.Pass? ==> e.reply == LoginAnswer(Snapshot(h).Some?, UserNamed(h), e.cmd))
    && (e.cmd.Capa? || e.cmd.Quit? || e.cmd.Unknown? ==> e.reply.Accepted? || e.reply.Refused?)
  }

  ghost predicate Faithful(h: seq<Exchange>) {
    h == [] || (Faithful(h[..|h| - 1]) && Follows(h[..|h| - 1], h[|h| - 1]))
  }

  lemma AnswerKind(messages: seq<Message>, marked: seq<string>, cmd: Command)
    requires NeedsLogin(cmd)
    ensures var reply := Answer(messages, marked, cmd);
            && !reply.LoggedIn? && !reply.LoginFailed? && !reply.Hangup?
            && (reply.Marked? ==> cmd.Dele?) && (reply.Unmarked? <==> cmd.Rset?) && (reply.Accepted? <==> cmd.Noop?)
  {
  }

  lemma Extends(h: seq<Exchange>, e: Exchange)
    requires Faithful(h) && Follows(h, e)
    ensures Faithful(h + [e])
    ensures Snapshot(h + [e]) == if e.reply.LoggedIn? then Some(e.reply.snapshot) else Snapshot(h)
    ensures Marks(h + [e]) == MarksAfter(Marks(h), e.reply)
    ensures Failures(h + [e]) == Failures(h) + (if e.reply.LoginFailed? then 1 else 0)
    ensures UserNamed(h + [e]) == UserAfter(UserNamed(h), e)
  {
    assert (h + [e])[..|h|] == h;
  }

  lemma LoginReplies(loggedIn: bool, user: string, cmd: Command)
    ensures cmd.User? || cmd.Pass? ==>
              var reply := LoginAnswer(loggedIn, user, cmd);
              && (reply.LoggedIn? || reply.LoginFailed? ==> !loggedIn && cmd.Pass?)
              && !reply.Marked? && !reply.Unmarked?
  {
  }

  lemma MarksOfLogin(marks: seq<string>, reply: Reply)
    ensures !reply.Marked? && !reply.Unmarked? ==> MarksAfter(marks, reply) == marks
  {
  }

  lemma NotOverAtFirst()
    ensures !Over([])
  {
  }

  lemma {:induction false} FaithfulAt(h: seq<Exchange>, k: nat)
    requires Faithful(h) && k < |h|
    ensures Faithful(h[..k]) && Follows(h[..k], h[k])
  {
    var before := h[..|h| - 1];
    if k == |h| - 1 {
      assert h[..k] == before;
    } else {
      FaithfulAt(before, k);
      assert before[..k] == h[..k];
    }
  }

  /** A session has one login: after a USER that names somebody, with an accepted password, and before it no
      command has access to messages. */
  lemma {:induction false} LoginIsJustified(h: seq<Exchange>) returns (k: nat)
    requires Faithful(h) && Snapshot(h).Some?
    ensures k < |h| && h[k].reply == LoggedIn(Snapshot(h).value)
    ensures h[k].cmd.Pass? && h[k].cmd.valid && h[k].cmd.args != [] && h[k].cmd.list == Snapshot(h).value
    ensures UserNamed(h[..k]) != "" && Snapshot(h[..k]).None?
    ensures forall j :: 0 <= j < |h| && j != k ==> !h[j].reply.LoggedIn?
    ensures forall j :: 0 <= j < k && NeedsLogin(h[j].cmd) ==> h[j].reply.Refused?
  {
    var before, e := h[..|h| - 1], h[|h| - 1];
    if e.reply.LoggedIn? {
      k := |h| - 1;
      LoggedInNow(before, e);
      NoLoginYet(before);
    } else {
      k := LoginIsJustified(before);
      assert before[..k] == h[..k];
    }
  }

  /** A PASS is answered with the snapshot exactly in a session that has no login yet, after a user was named, with an
      accepted password; with another password it fails, and without a user or a password the session ends. */
  lemma LoginSucceedsExactlyWhen(h: seq<Exchange>, e: Exchange)
    requires Follows(h, e) && e.cmd.Pass?
    ensures var possible := Snapshot(h).None? && UserNamed(h) != "" && e.cmd.args != [];
            && (e.reply.LoggedIn? <==> possible && e.cmd.valid)
            && (e.reply.LoggedIn? ==> e.reply.snapshot == e.cmd.list)
            && (e.reply.LoginFailed? <==> possible && !e.cmd.valid)
            && (e.reply.Hangup? <==> Snapshot(h).None? && !possible)
            && (e.reply.Refused? <==> Snapshot(h).Some?)
  {
  }

  /** USER names the user of the logins that follow, if it has one argument; with any other number the session ends. */
  lemma UserIsNamed(h: seq<Exchange>, e: Exchange)
    requires Follows(h, e) && e.cmd.User?
    ensures Snapshot(h).Some? ==> e.reply.Refused? && UserNamed(h + [e]) == UserNamed(h)
    ensures Snapshot(h).None? && |e.cmd.args| == 1 ==>
              e.reply.Accepted? && UserNamed(h + [e]) == e.cmd.args[0].text
    ensures Snapshot(h).None? && |e.cmd.args| != 1 ==> e.reply.Hangup? && UserNamed(h + [e]) == UserNamed(h)
  {
    assert (h + [e])[..|h|] == h;
  }

  /** After RSET nothing is marked. */
  lemma ResetUnmarksAll(h: seq<Exchange>)
    requires Faithful(h) && h != [] && h[|h| - 1].cmd.Rset? && Snapshot(h).Some?
    ensures Marks(h) == [] && h[|h| - 1].reply.Unmarked?
  {
    var before, e := h[..|h| - 1], h[|h| - 1];
    assert h == before + [e];
    Extends(before, e);
    hide Answer, Snapshot, Marks, Faithful;
    if Snapshot(before).Some? {
      AnswerKind(Snapshot(before).value, Marks(before), e.cmd);
    }
  }

  /** Only replies to PASS count as failures, and each of them once. */
  lemma {:induction false} FailuresAreCounted(h: seq<Exchange>)
    ensures Failures(h) == |set k | 0 <= k < |h| && h[k].reply.LoginFailed?|
  {
    if h != [] {
      FailuresAreCounted(h[..|h| - 1]);
      OneMoreFailure(h);
    }
  }

  lemma OneMoreFailure(h: seq<Exchange>)
    requires h != []
    ensures var before, last := h[..|h| - 1], |h| - 1;
            |set k | 0 <= k < |h| && h[k].reply.LoginFailed?|
            == |set k | 0 <= k < |before| && before[k].reply.LoginFailed?|
               + (if h[last].reply.LoginFailed? then 1 else 0)
  {
    var before, last := h[..|h| - 1], |h| - 1;
    var all := set k | 0 <= k < |h| && h[k].reply.LoginFailed?;
    var some := set k | 0 <= k < |before| && before[k].reply.LoginFailed?;
    assert forall k :: 0 <= k < |before| ==> before[k] == h[k];
    assert last !in some;
    if h[last].reply.LoginFailed? {
      assert all == some + {last};
    } else {
      assert all == some;
    }
  }

  lemma LoggedInNow(h: seq<Exchange>, e: Exchange)
    requires Follows(h, e) && e.reply.LoggedIn?
    ensures Snapshot(h).None? && UserNamed(h) != ""
    ensures e.cmd.Pass? && e.cmd.valid && e.cmd.args != [] && e.cmd.list == e.reply.snapshot
  {
    hide Answer, Snapshot, UserNamed;
    if NeedsLogin(e.cmd) && Snapshot(h).Some? {
      AnswerKind(Snapshot(h).value, Marks(h), e.cmd);
    }
  }

  lemma {:induction false} NoLoginYet(h: seq<Exchange>)
    requires Faithful(h) && Snapshot(h).None?
    ensures forall j :: 0 <= j < |h| ==> !h[j].reply.LoggedIn? && (NeedsLogin(h[j].cmd) ==> h[j].reply.Refused?)
  {
    if h != [] {
      NoLoginYet(h[..|h| - 1]);
    }
  }

  /** Nothing is answered after QUIT, after an error that ends the session, or after the fifth failed login. */
  lemma NothingAfterTheEnd(h: seq<Exchange>)
    requires Faithful(h)
    ensures Failures(h) <= MAX_FAILURES
    ensures forall k :: 0 <= k < |h| ==> !Over(h[..k])
  {
    forall k | 0 <= k < |h| ensures !Over(h[..k]) {
      FaithfulAt(h, k);
    }
    if h != [] {
      assert !Over(h[..|h| - 1]);
    }
  }

  /** The marks of any session are distinct ids of messages in the snapshot. */
  lemma {:induction false} MarksAreOfTheSnapshot(h: seq<Exchange>)
    requires Faithful(h)
    ensures Snapshot(h).None? ==> Marks(h) == []
    ensures Distinct(Marks(h))
    ensures Snapshot(h).Some? ==>
              forall id :: id in Marks(h) ==> exists m :: m in Snapshot(h).value && m.id == id
  {
    if h != [] {
      var before, e := h[..|h| - 1], h[|h| - 1];
      MarksAreOfTheSnapshot(before);
      assert h == before + [e];
      if e.reply.Marked? {
        var messages, number := Snapshot(before).value, ArgNumber(e.cmd.args, 0).value;
        assert messages[number - 1] in messages && messages[number - 1].id == e.reply.id;
      }
    }
  }

  /** RSET makes every message of the snapshot visible again, under its own number. */
  lemma {:induction false} NothingMarkedAllVisible(messages: seq<Message>, n: nat)
    requires n <= |messages|
    ensures Visible(messages, [], n) == seq(n, k => k + 1)
  {
    if n > 0 {
      NothingMarkedAllVisible(messages, n - 1);
    }
  }

  /** The sum of the sizes that LIST shows. */
  function SumOfRows(rows: seq<(int, nat)>): nat {
    if rows == [] then 0 else SumOfRows(rows[..|rows| - 1]) + rows[|rows| - 1].1
  }

  lemma {:induction false} TotalIsSumOfRows(messages: seq<Message>, numbers: seq<int>)
    requires forall k :: 0 <= k < |numbers| ==> 1 <= numbers[k] <= |messages|
    ensures TotalSize(messages, numbers) == SumOfRows(Rows(messages, numbers))
  {
    if numbers != [] {
      var before := numbers[..|numbers| - 1];
      TotalIsSumOfRows(messages, before);
      assert Rows(messages, numbers)[..|numbers| - 1] == Rows(messages, before);
    }
  }

  /** STAT, LIST and UIDL describe the same messages: STAT and the first line of LIST give the count and the
      sum of LIST's rows, and UIDL has the same numbers. */
  lemma ListingsAgree(messages: seq<Message>, marked: seq<string>)
    ensures var list := Answer(messages, marked, List([]));
            var ids := Answer(messages, marked, Uidl([]));
            && Answer(messages, marked, Stat) == Totals(|list.rows|, SumOfRows(list.rows))
            && list.count == |list.rows| && list.total == SumOfRows(list.rows)
            && |ids.ids| == |list.rows|
            && (forall k :: 0 <= k < |ids.ids| ==> ids.ids[k].0 == list.rows[k].0)
  {
    hide Visible, TotalSize, SumOfRows;
    TotalIsSumOfRows(messages, Visible(messages, marked, |messages|));
  }

  /** and those are the messages of the snapshot that are not marked, under their own numbers. */
  lemma ListingIsExact(messages: seq<Message>, marked: seq<string>, number: int, size: nat)
    ensures (number, size) in Answer(messages, marked, List([])).rows
            <==> IsVisible(messages, marked, number) && messages[number - 1].size == size
  {
    hide TotalSize;
    var visible := Visible(messages, marked, |messages|);
    VisibleIsComplete(messages, marked, |messages|, number);
    hide Visible;
    var rows := Rows(messages, visible);
    if IsVisible(messages, marked, number) {
      var k :| 0 <= k < |visible| && visible[k] == number;
      assert rows[k] == (number, messages[number - 1].size);
    }
  }

  /** and UIDL names them. */
  lemma IdListingIsExact(messages: seq<Message>, marked: seq<string>, number: int, id: string)
    ensures (number, id) in Answer(messages, marked, Uidl([])).ids
            <==> IsVisible(messages, marked, number) && messages[number - 1].id == id
  {
    hide TotalSize;
    var visible := Visible(messages, marked, |messages|);
    VisibleIsComplete(messages, marked, |messages|, number);
    hide Visible;
    var ids := Ids(messages, visible);
    if IsVisible(messages, marked, number) {
      var k :| 0 <= k < |visible| && visible[k] == number;
      assert ids[k] == (number, messages[number - 1].id);
    }
  }

  /** LIST with a number gives the row that the full listing has for it, and is refused when it has none. */
  lemma ListOfOneIsItsRow(messages: seq<Message>, marked: seq<string>, args: seq<Arg>, number: int, size: nat)
    requires args != []
    ensures var one, all := Answer(messages, marked, List(args)), Answer(messages, marked, List([]));
            && (one == One(number, size) <==> args[0].number == Some(number) && (number, size) in all.rows)
            && (one.Refused? <==> forall row :: row in all.rows ==> args[0].number != Some(row.0))
            && (one.One? || one.Refused?)
  {
    hide Rows, Visible, TotalSize;
    ListingIsExact(messages, marked, number, size);
    if args[0].number.Some? {
      var n := args[0].number.value;
      if IsVisible(messages, marked, n) {
        ListingIsExact(messages, marked, n, messages[n - 1].size);
      }
      forall row | row in Answer(messages, marked, List([])).rows ensures IsVisible(messages, marked, row.0) {
        ListingIsExact(messages, marked, row.0, row.1);
      }
    }
  }

  /** and so does UIDL with one number. */
  lemma UidlOfOneIsItsRow(messages: seq<Message>, marked: seq<string>, args: seq<Arg>, number: int, id: string)
    requires args != []
    ensures var one, all := Answer(messages, marked, Uidl(args)), Answer(messages, marked, Uidl([]));
            && (one == OneId(number, id)
                <==> |args| == 1 && args[0].number == Some(number) && (number, id) in all.ids)
            && (one.Refused? <==> |args| > 1 || forall row :: row in all.ids ==> args[0].number != Some(row.0))
            && (one.OneId? || one.Refused?)
  {
    hide Ids, Visible, TotalSize;
    IdListingIsExact(messages, marked, number, id);
    if args[0].number.Some? {
      var n := args[0].number.value;
      if IsVisible(messages, marked, n) {
        IdListingIsExact(messages, marked, n, messages[n - 1].id);
      }
      forall row | row in Answer(messages, marked, Uidl([])).ids ensures IsVisible(messages, marked, row.0) {
        IdListingIsExact(messages, marked, row.0, row.1);
      }
    }
  }

  // ---------------------------------------------------------------- single messages

  /** RETR sends a message exactly if its number is visible and the message can be read, and then the client
      receives the message and a line ending, if and only if the message does not begin with a dot. */
  lemma RetrSendsTheMessage(messages: seq<Message>, marked: seq<string>, arg: Arg, raw: Option<bytes>)
    ensures var reply := Answer(messages, marked, Retr([arg], raw));
            && (reply.Text? || reply.Refused?)
            && (reply.Text? <==> Names(messages, marked, arg.number) && raw.Some?)
            && (reply.Text? ==> reply.octets == |raw.value|
                                && (Received(reply.wire) == Some(raw.value + CRLF) <==> !StartsWithDot(raw.value)))
  {
    hide Visible, RetrWire, Received;
    if raw.Some? {
      RetrRoundTrip(raw.value);
    }
  }

  /** Likewise for TOP, whose answer is its header section and its body, or nothing of it if no lines are
      asked for, apart by two empty lines. */
  lemma TopSendsTheMessage(messages: seq<Message>, marked: seq<string>, arg: Arg, lines: Arg, raw: Option<bytes>)
    ensures var reply := Answer(messages, marked, Top([arg, lines], raw));
            && (reply.TopText? || reply.Refused?)
            && (reply.TopText? <==> Names(messages, marked, arg.number) && lines.number.Some? && raw.Some?)
            && (reply.TopText? ==>
                  var headers := raw.value[..IndexOf(raw.value, BLANK)];
                  var body := if lines.number.value > 0 then BodyOf(raw.value) else [];
                  Received(reply.wire) == Some(headers + BLANK + CRLF + body + CRLF)
                  <==> !StartsWithDot(headers) && !StartsWithDot(body))
  {
    hide Visible, TopWire, Received, IndexOf, SplitN;
    if raw.Some? && lines.number.Some? {
      TopRoundTrip(raw.value, lines.number.value);
      TopSendsBody(raw.value, lines.number.value);
      TopSendsHeaders(raw.value, lines.number.value);
    }
  }

  /** After DELE exactly one number less is visible: no other message is hidden, and none is renumbered. */
  lemma DeleHidesOne(messages: seq<Message>, marked: seq<string>, arg: Arg, other: int)
    requires forall i, j :: 0 <= i < j < |messages| ==> messages[i].id != messages[j].id
    ensures var reply := Answer(messages, marked, Dele([arg]));
            var after := MarksAfter(marked, reply);
            && (reply.Marked? <==> Names(messages, marked, arg.number))
            && (other in Visible(messages, after, |messages|)
                <==> other in Visible(messages, marked, |messages|) && !(reply.Marked? && other == arg.number.value))
  {
    var after := MarksAfter(marked, Answer(messages, marked, Dele([arg])));
    VisibleIsComplete(messages, marked, |messages|, other);
    VisibleIsComplete(messages, after, |messages|, other);
    hide Visible;
  }

  /** The number that a command on one message gives. */
  function Target(cmd: Command): Option<int> {
    match cmd
    case List(args) => ArgNumber(args, 0)
    case Uidl(args) => ArgNumber(args, 0)
    case Retr(args, _) => ArgNumber(args, 0)
    case Top(args, _) => ArgNumber(args, 0)
    case Dele(args) => ArgNumber(args, 0)
    case _ => None
  }

  /** A marked message is invisible to every command until RSET. */
  lemma MarkedIsInvisible(h: seq<Exchange>, j: nat, k: nat)
    requires Faithful(h) && j < k < |h| && h[j].reply.Marked?
    requires forall i :: j < i < k ==> !h[i].cmd.Rset?
    ensures Snapshot(h[..k]).Some?
    ensures var messages := Snapshot(h[..k]).value;
            forall number ::
              (Target(h[k].cmd) == Some(number) && 1 <= number <= |messages|
               && messages[number - 1].id == h[j].reply.id)
              ==> h[k].reply == Refused
  {
    FaithfulAt(h, k);
    MarkStays(h, j, k);
    hide Faithful, Marks, Snapshot;
  }

  lemma {:induction false} MarkStays(h: seq<Exchange>, j: nat, k: nat)
    requires Faithful(h) && j < k <= |h| && h[j].reply.Marked?
    requires forall i :: j < i < k ==> !h[i].cmd.Rset?
    ensures h[j].reply.id in Marks(h[..k]) && Snapshot(h[..k]).Some?
    decreases k
  {
    hide Faithful, Snapshot, Answer, Marks, LoginAnswer, Over;
    var before, last := h[..k - 1], h[k - 1];
    FaithfulAt(h, k - 1);
    Extends(before, last);
    assert h[..k] == before + [last];
    if j < k - 1 {
      MarkStays(h, j, k - 1);
    }
    LoginReplies(Snapshot(before).Some?, UserNamed(before), last.cmd);
    if NeedsLogin(last.cmd) && Snapshot(before).Some? {
      AnswerKind(Snapshot(before).value, Marks(before), last.cmd);
    }
  }

  // ---------------------------------------------------------------- the session

  datatype Phase = Authorization | Transaction | Update

  class Client {
    var user: string
    var state: Phase
    var toDelete: seq<string>
    var messages: seq<Message>
    var failedLogins: nat
    ghost var history: seq<Exchange>

    ghost predicate Valid()
      reads this
    {
      && Faithful(history)
      && (state == Update <==> EndedWithQuit(history))
      && (state == Authorization ==> Snapshot(history).None? && Marks(history) == [])
      && (state == Transaction ==> Snapshot(history) == Some(messages))
      && user == UserNamed(history)
      && toDelete == Marks(history)
      && failedLogins == Failures(history)
    }

    constructor ()
      ensures Valid() && history == [] && state == Authorization && failedLogins == 0
    {
      user, state, toDelete, messages, failedLogins, history := "", Authorization, [], [], 0, [];
    }

    method CountVisible() returns (count: nat, totalSize: nat)
      ensures count == |Visible(messages, toDelete, |messages|)|
      ensures totalSize == TotalSize(messages, Visible(messages, toDelete, |messages|))
    {
      count, totalSize := 0, 0;
      for i := 0 to |messages|
        invariant count == |Visible(messages, toDelete, i)|
        invariant totalSize == TotalSize(messages, Visible(messages, toDelete, i))
      {
        if !IsMarked(messages, toDelete, i + 1) {
          TotalSizeAppend(messages, Visible(messages, toDelete, i), i + 1);
          count, totalSize := count + 1, totalSize + messages[i].size;
        }
      }
    }

    method ListVisible() returns (rows: seq<(int, nat)>)
      ensures rows == Rows(messages, Visible(messages, toDelete, |messages|))
    {
      rows := [];
      for i := 0 to |messages|
        invariant rows == Rows(messages, Visible(messages, toDelete, i))
      {
        if !IsMarked(messages, toDelete, i + 1) {
          RowsAppend(messages, Visible(messages, toDelete, i), i + 1);
          rows := rows + [(i + 1, messages[i].size)];
        }
      }
    }

    method ListIds() returns (ids: seq<(int, string)>)
      ensures ids == Ids(messages, Visible(messages, toDelete, |messages|))
    {
      ids := [];
      for i := 0 to |messages|
        invariant ids == Ids(messages, Visible(messages, toDelete, i))
      {
        if !IsMarked(messages, toDelete, i + 1) {
          RowsAppend(messages, Visible(messages, toDelete, i), i + 1);
          ids := ids + [(i + 1, messages[i].id)];
        }
      }
    }

    method HandleList(args: seq<Arg>) returns (reply: Reply)
      ensures reply == Answer(messages, toDelete, List(args))
    {
      hide Rows, Visible, TotalSize;
      if args == [] {
        var count, size := CountVisible();
        var rows := ListVisible();
        reply := Listing(count, size, rows);
      } else if Names(messages, toDelete, args[0].number) {
        reply := One(args[0].number.value, messages[args[0].number.value - 1].size);
      } else {
        reply := Refused;
      }
    }

    method HandleUidl(args: seq<Arg>) returns (reply: Reply)
      ensures reply == Answer(messages, toDelete, Uidl(args))
    {
      hide Ids, Visible, TotalSize;
      if |args| > 1 {
        reply := Refused;
      } else if |args| == 1 {
        if Names(messages, toDelete, args[0].number) {
          reply := OneId(args[0].number.value, messages[args[0].number.value - 1].id);
        } else {
          reply := Refused;
        }
      } else {
        var ids := ListIds();
        reply := IdListing(ids);
      }
    }

    method HandleRetr(args: seq<Arg>, raw: Option<bytes>) returns (reply: Reply)
      ensures reply == Answer(messages, toDelete, Retr(args, raw))
    {
      hide Visible, TotalSize, Rows, Ids, RetrWire;
      if |args| != 1 || !Names(messages, toDelete, args[0].number) || raw.None? {
        reply := Refused;
      } else {
        reply := Text(|raw.value|, RetrWire(raw.value));
      }
    }

    method HandleTop(args: seq<Arg>, raw: Option<bytes>) returns (reply: Reply)
      ensures reply == Answer(messages, toDelete, Top(args, raw))
    {
      hide Visible, TotalSize, Rows, Ids, TopWire;
      if !Names(messages, toDelete, ArgNumber(args, 0)) || ArgNumber(args, 1).None? || raw.None? {
        reply := Refused;
      } else {
        reply := TopText(TopWire(raw.value, args[1].number.value));
      }
    }

    method HandleDele(args: seq<Arg>) returns (reply: Reply)
      modifies this`toDelete
      ensures reply == Answer(messages, old(toDelete), Dele(args))
      ensures toDelete == MarksAfter(old(toDelete), reply)
    {
      hide Visible, TotalSize, Rows, Ids;
      if !Names(messages, toDelete, ArgNumber(args, 0)) {
        reply := Refused;
      } else {
        reply := Marked(messages[args[0].number.value - 1].id);
        toDelete := toDelete + [messages[args[0].number.value - 1].id];
      }
    }

    method HandleTransactionCommand(cmd: Command) returns (reply: Reply)
      requires NeedsLogin(cmd)
      modifies this`toDelete
      ensures reply == Answer(messages, old(toDelete), cmd)
      ensures toDelete == MarksAfter(old(toDelete), reply)
    {
      hide Rows, Ids, Visible, TotalSize, Names;
      match cmd
      case Stat =>
        var count, size := CountVisible();
        reply := Totals(count, size);
      case List(args) => reply := HandleList(args);
      case Uidl(args) => reply := HandleUidl(args);
      case Retr(args, raw) => reply := HandleRetr(args, raw);
      case Top(args, raw) => reply := HandleTop(args, raw);
      case Noop => reply := Accepted;
      case Dele(args) => reply := HandleDele(args);
      case Rset =>
        toDelete := [];
        reply := Unmarked;
    }

    method HandleUser(args: seq<Arg>) returns (reply: Reply, done: bool)
      modifies this`user
      ensures reply == if state != Authorization then Refused else if |args| != 1 then Hangup else Accepted
      ensures done <==> reply.Hangup?
      ensures user == if reply.Accepted? then args[0].text else old(user)
    {
      done := false;
      if state != Authorization {
        reply := Refused;
      } else if |args| != 1 {
        reply, done := Hangup, true;
      } else {
        reply, user := Accepted, args[0].text;
      }
    }

    method HandlePass(args: seq<Arg>, valid: bool, list: seq<Message>) returns (reply: Reply, done: bool)
      modifies this`messages, this`state, this`failedLogins
      ensures reply == if old(state) != Authorization then Refused
                       else if user == "" || args == [] then Hangup
                       else if valid then LoggedIn(list)
                       else LoginFailed
      ensures (messages, state) == if reply.LoggedIn? then (list, Transaction) else (old(messages), old(state))
      ensures failedLogins == old(failedLogins) + (if reply.LoginFailed? then 1 else 0)
      ensures done <==> reply.Hangup? || (reply.LoginFailed? && failedLogins >= MAX_FAILURES)
    {
      done := false;
      if state != Authorization {
        reply := Refused;
      } else if user == "" || |args| < 1 {
        reply, done := Hangup, true;
      } else if valid {
        reply, messages, state := LoggedIn(list), list, Transaction;
      } else {
        failedLogins := failedLogins + 1;
        reply, done := LoginFailed, failedLogins >= MAX_FAILURES;
      }
    }

    /** The reply to one command, and what it changes. */
    method Respond(cmd: Command) returns (reply: Reply, done: bool)
      requires state != Update
      modifies this`user, this`messages, this`state, this`failedLogins, this`toDelete
      ensures NeedsLogin(cmd) ==>
                reply == if old(state) == Transaction then Answer(old(messages), old(toDelete), cmd) else Refused
      ensures cmd.User? || cmd.Pass? ==> reply == LoginAnswer(old(state) != Authorization, old(user), cmd)
      ensures cmd.Capa? || cmd.Quit? || cmd.Unknown? ==> reply.Accepted? || reply.Refused?
      ensures toDelete == MarksAfter(old(toDelete), reply) && user == UserAfter(old(user), Exchange(cmd, reply))
      ensures messages == if reply.LoggedIn? then reply.snapshot else old(messages)
      ensures state == if cmd.Quit? then Update else if reply.LoggedIn? then Transaction else old(state)
      ensures failedLogins == old(failedLogins) + (if reply.LoginFailed? then 1 else 0)
      ensures done <==> cmd.Quit? || reply.Hangup? || (reply.LoginFailed? && failedLogins >= MAX_FAILURES)
    {
      hide Answer;
      done := false;
      if NeedsLogin(cmd) {
        AnswerKind(messages, toDelete, cmd);
        if state == Transaction {
          reply := HandleTransactionCommand(cmd);
        } else {
          reply := Refused;
        }
        return;
      }
      match cmd {
        case User(args) => reply, done := HandleUser(args);
        case Pass(args, valid, list) => reply, done := HandlePass(args, valid, list);
        case Quit => reply, state, done := Accepted, Update, true;
        case Capa => reply := Accepted;
        case Unknown => reply := Refused;
      }
    }

    /** One command; `done` when the session ends. */
    method Handle(cmd: Command) returns (reply: Reply, done: bool)
      requires Valid() && !Over(history)
      modifies this
      ensures Valid() && history == old(history) + [Exchange(cmd, reply)]
      ensures done <==> Over(history)
    {
      hide Faithful, Answer, Marks, Snapshot, Failures, UserNamed, LoginAnswer, UserAfter, MarksAfter;
      reply, done := Respond(cmd);
      LoginReplies(Snapshot(history).Some?, UserNamed(history), cmd);
      MarksOfLogin(Marks(history), reply);
      if NeedsLogin(cmd) && Snapshot(history).Some? {
        AnswerKind(Snapshot(history).value, Marks(history), cmd);
      }
      Extends(history, Exchange(cmd, reply));
      history := history + [Exchange(cmd, reply)];
    }

    /** The session: commands are answered in turn until one ends it or the connection does; then the marked
        messages are deleted if it was QUIT that ended it. */
    method HandleClient(commands: seq<Command>) returns (deleted: seq<string>)
      requires Valid() && history == []
      modifies this
      ensures Faithful(history)
      ensures |history| <= |commands| && forall k :: 0 <= k < |history| ==> history[k].cmd == commands[k]
      ensures |history| < |commands| ==> Over(history)
      ensures deleted == if EndedWithQuit(history) then Marks(history) else []
    {
      hide Faithful, Failures;
      NotOverAtFirst();
      var i := 0;
      while i < |commands|
        invariant 0 <= i == |history| <= |commands|
        invariant forall k :: 0 <= k < i ==> history[k].cmd == commands[k]
        invariant Valid() && !Over(history)
      {
        var reply, done := Handle(commands[i]);
        if done {
          break;
        }
        i := i + 1;
      }
      deleted := if state == Update then toDelete else [];
    }
  }
}
