/** The websocket hub: who is registered, what is queued for whom, and when a client's channel is
    closed. Sending on a closed channel, or closing it again, would bring the program down: those are
    preconditions here. */
module WebsocketHub {
  import opened Basics

  type Msg = string

  const CAPACITY: nat := 256

  /** A connection, with its buffered channel. */
  class Client {
    var send: seq<Msg>
    var closed: bool

    ghost var queued: seq<Msg>      // everything ever put into the channel
    ghost var received: seq<Msg>    // everything taken out of it
    ghost const joined: nat         // how many broadcasts came before the registration
    ghost var left: nat             // and before the removal

    constructor (ghost history: seq<Msg>)
      ensures Sound(history, true)
      ensures joined == |history| && View() == Conn([], false, [])
    {
      joined := |history|;
      send, closed := [], false;
      queued, received, left := [], [], 0;
    }

    /** The client has been queued exactly the broadcasts between its registration and its removal, and has
        received a prefix of them. */
    ghost predicate Sound(history: seq<Msg>, registered: bool)
      reads this
    {
      var end := if closed then left else |history|;
      && |send| <= CAPACITY
      && queued == received + send
      && registered == !closed
      && joined <= end <= |history|
      && queued == history[joined..end]
    }

    ghost function View(): Conn
      reads this
    {
      Conn(send, closed, received)
    }

    /** A send that does not block. */
    method TrySend(msg: Msg) returns (sent: bool)
      requires !closed
      modifies this`send, this`queued
      ensures sent <==> |old(send)| < CAPACITY
      ensures send == (if sent then old(send) + [msg] else old(send))
      ensures queued == (if sent then old(queued) + [msg] else old(queued))
    {
      sent := |send| < CAPACITY;
      if sent {
        send := send + [msg];
        queued := queued + [msg];
      }
    }

    method Close(ghost at: nat)
      requires !closed
      modifies this`closed, this`left
      ensures closed && left == at
    {
      closed := true;
      left := at;
    }

    /** The write pump takes a message; None is the closing of the channel, after all that was queued. */
    method Receive() returns (r: Option<Msg>)
      requires send != [] || closed
      modifies this`send, this`received
      ensures old(send) == [] ==> r.None? && closed && send == [] && received == old(received)
      ensures old(send) != [] ==>
                && r == Some(old(send)[0]) && send == old(send)[1..] && received == old(received) + [old(send)[0]]
    {
      if send == [] {
        return None;
      }
      r := Some(send[0]);
      received := received + [send[0]];
      send := send[1..];
    }
  }

  class Hub {
    var Clients: set<Client>
    var clientCount: int
    ghost var history: seq<Msg>     // the broadcasts, in the order the hub took them
    ghost var all: set<Client>      // every client there has been

    ghost predicate Valid()
      reads this, all
    {
      && Clients <= all
      && clientCount == |Clients|
      && forall c :: c in all ==> c.Sound(history, c in Clients)
    }

    constructor ()
      ensures Valid() && Clients == {} && all == {} && history == []
    {
      Clients, clientCount, history, all := {}, 0, [], {};
    }

    /** ServeWs: a new client is registered, once. */
    method Register() returns (client: Client)
      requires Valid()
      modifies this
      ensures Valid() && fresh(client)
      ensures Clients == old(Clients) + {client} && all == old(all) + {client} && history == old(history)
      ensures client.joined == |history| && client.View() == Conn([], false, [])
    {
      hide Client.Sound;
      client := new Client(history);
      Clients := Clients + {client};
      clientCount := clientCount + 1;
      all := all + {client};
    }

    /** Both pumps of a client ask for this when they end. */
    method Unregister(client: Client)
      requires Valid() && client in all
      modifies this`Clients, this`clientCount, client`closed, client`left
      ensures Valid()
      ensures Clients == old(Clients) - {client}
      ensures client in old(Clients) ==> client.left == |history|
      ensures client !in old(Clients) ==> client.left == old(client.left)
      ensures client.closed
    {
      if client in Clients {
        Clients := Clients - {client};
        client.Close(|history|);
        clientCount := clientCount - 1;
      }
    }

    /** The write pump of a client that is registered, or has been. */
    method Deliver(client: Client) returns (r: Option<Msg>)
      requires Valid() && client in all && (client.send != [] || client.closed)
      modifies client`send, client`received
      ensures Valid() && client.View() == Received(old(client.View()))
    {
      r := client.Receive();
      assert client.queued == client.received + client.send;
    }

    method OfferTo(client: Client, msg: Msg)
      requires client in Clients && clientCount == |Clients| && client.Sound(history, true)
      modifies this`Clients, this`clientCount, client`send, client`queued, client`closed, client`left
      ensures clientCount == |Clients|
      ensures Clients == if |old(client.send)| < CAPACITY then old(Clients) else old(Clients) - {client}
      ensures client.Sound(history + [msg], client in Clients)
      ensures client !in Clients ==> client.left == |history|
      ensures client.View() == Offered(old(client.View()), msg)
    {
      var sent := client.TrySend(msg);
      if sent {
        assert client.queued == (history + [msg])[client.joined..|history| + 1];
      } else {
        client.Close(|history|);
        Clients := Clients - {client};
        clientCount := clientCount - 1;
        assert client.queued == (history + [msg])[client.joined..|history|];
      }
    }

    /** Every registered client has the message queued, or, if its queue is full, is removed. */
    method BroadcastMessage(msg: Msg)
      requires Valid()
      modifies this, Clients
      ensures Valid()
      ensures history == old(history) + [msg] && all == old(all)
      ensures Clients == set c | c in old(Clients) && |old(c.send)| < CAPACITY
      ensures forall c :: c in old(Clients) && c !in Clients ==> c.left == |old(history)|
      ensures forall c :: c in all && c !in old(Clients) ==> c.left == old(c.left)
      ensures forall c :: c in old(Clients) ==> c.View() == Offered(old(c.View()), msg)
    {
      hide Client.Sound;
      RemovedStaySound(all - Clients, history, msg);
      var todo := Clients;
      while todo != {}
        invariant todo <= Clients <= old(Clients) && all == old(all) && history == old(history)
        invariant clientCount == |Clients|
        invariant forall c :: c in todo ==> c.Sound(history, true) && c.View() == old(c.View())
        invariant forall c :: c in old(Clients) && c !in todo ==> c.View() == Offered(old(c.View()), msg)
        invariant forall c :: c in all && c !in todo ==> c.Sound(history + [msg], c in Clients)
        invariant forall c :: c in old(Clients) && c !in todo ==> (c in Clients <==> |old(c.send)| < CAPACITY)
        invariant forall c :: c in old(Clients) && c !in Clients ==> c.left == |history|
        invariant forall c :: c in all && c !in old(Clients) ==> c.left == old(c.left)
        decreases todo
      {
        var client :| client in todo;
        OfferTo(client, msg);
        todo := todo - {client};
      }
      history := history + [msg];
    }

    /** The clients there have been, in the order of their registration. */
    ghost predicate Knows(known: seq<Client>)
      reads this
    {
      Distinct(known) && (forall c :: c in all ==> c in known) && (forall c :: c in known ==> c in all)
    }

    /** A client that is registered is open, and no other is. */
    lemma OpenIsRegistered()
      requires Valid()
      ensures forall c :: c in all ==> (c in Clients <==> !c.closed)
    {
    }

    method Join(known: seq<Client>) returns (known': seq<Client>)
      requires Valid() && Knows(known)
      modifies this
      ensures Valid() && Knows(known') && history == old(history)
      ensures |known'| == |known| + 1 && known'[..|known|] == known && fresh(all - old(all))
      ensures Views(known') == Next(old(Views(known)), Joins) && EndsFollow(known)
      ensures known'[|known|].joined == |history| && !known'[|known|].closed
    {
      hide Client.Sound, Valid;
      var client := Register();
      known' := known + [client];
      assert client !in known;
      assert Views(known') == Views(known) + [client.View()];
    }

    method Leave(k: nat, known: seq<Client>)
      requires Valid() && Knows(known)
      modifies this, all
      ensures Valid() && Knows(known) && history == old(history) && all == old(all)
      ensures Views(known) == Next(old(Views(known)), Leaves(k)) && EndsFollow(known)
    {
      hide Client.Sound;
      if k < |known| {
        OpenIsRegistered();
        Unregister(known[k]);
      }
    }

    method Pump(k: nat, known: seq<Client>)
      requires Valid() && Knows(known)
      modifies all
      ensures Valid() && Knows(known)
      ensures Views(known) == Next(old(Views(known)), Receives(k)) && EndsFollow(known)
    {
      hide Client.Sound, Valid;
      if k < |known| && (known[k].send != [] || known[k].closed) {
        var _ := Deliver(known[k]);
      }
    }

    method Broadcast(msg: Msg, known: seq<Client>)
      requires Valid() && Knows(known)
      modifies this, all
      ensures Valid() && Knows(known) && history == old(history) + [msg] && all == old(all)
      ensures Views(known) == Next(old(Views(known)), Broadcasts(msg)) && EndsFollow(known)
    {
      hide Client.Sound;
      OpenIsRegistered();
      assert forall k :: 0 <= k < |known| ==> known[k] in known;
      BroadcastMessage(msg);
    }

    /** A client that is closed now has the place at which it was closed. */
    twostate predicate EndsFollow(known: seq<Client>)
      reads this, known
    {
      && (forall k :: 0 <= k < |known| && !old(known[k].closed) && known[k].closed ==>
                        known[k].left == |old(history)|)
      && (forall k :: 0 <= k < |known| && old(known[k].closed) ==> known[k].left == old(known[k].left))
    }

    /** One step, and what it does to every client. */
    method Take(step: Step, known: seq<Client>) returns (known': seq<Client>)
      requires Valid() && Knows(known)
      modifies this, all
      ensures Valid() && Knows(known') && fresh(all - old(all))
      ensures |known| <= |known'| && known'[..|known|] == known
      ensures history == old(history) + MessageOf(step)
      ensures Views(known') == Next(old(Views(known)), step) && EndsFollow(known)
      ensures forall k :: |known| <= k < |known'| ==> known'[k].joined == |old(history)| && !known'[k].closed
    {
      hide Client.Sound, Valid;
      known' := known;
      match step {
        case Joins => known' := Join(known);
        case Leaves(k) => Leave(k, known);
        case Receives(k) => Pump(k, known);
        case Broadcasts(msg) => Broadcast(msg, known);
      }
    }

    /** Every run of the hub and of the pumps: every client there has been is as the steps say, and the hub counts
        those that are open. */
    method Run(steps: seq<Step>) returns (known: seq<Client>)
      requires Valid() && all == {} && history == []
      modifies this
      ensures Valid() && Knows(known) && history == Messages(steps)
      ensures Views(known) == ConnsAfter(steps)
      ensures forall c :: c in Clients <==> c in known && !c.closed
      ensures forall k :: 0 <= k < |known| ==>
                            && known[k].joined == JoinedAt(steps, k)
                            && (known[k].closed ==> known[k].left == LeftAt(steps, k))
    {
      hide Client.Sound, Messages, Next, JoinedAt, LeftAt;
      known := [];
      NothingYet();
      assert steps[..0] == [];
      for i := 0 to |steps|
        invariant Valid() && Knows(known) && forall c :: c in all ==> fresh(c)
        invariant history == Messages(steps[..i]) && Views(known) == ConnsAfter(steps[..i])
        invariant forall k :: 0 <= k < |known| ==> EndsAre(known[k], steps[..i], k)
      {
        ghost var before := known;
        label step:
        known := Take(steps[i], known);
        assert steps[..i + 1] == steps[..i] + [steps[i]];
        OneStep(steps[..i], steps[i]);
        forall k | 0 <= k < |known| ensures EndsAre(known[k], steps[..i + 1], k) {
          EndsAfter(steps[..i], steps[i], k);
          if k < |before| {
            assert known[..|before|][k] == before[k] && old@step(EndsAre(before[k], steps[..i], k));
            assert old@step(Views(before))[k] == old@step(before[k].View());
          }
          assert Views(known)[k] == known[k].View();
        }
      }
      assert steps[..|steps|] == steps;
      OpenIsRegistered();
    }
  }

  ghost function Views(known: seq<Client>): seq<Conn>
    reads known
  {
    seq(|known|, i requires 0 <= i < |known| reads known => known[i].View())
  }

  ghost predicate EndsAre(c: Client, steps: seq<Step>, k: nat)
    reads c
  {
    c.joined == JoinedAt(steps, k) && (c.closed ==> c.left == LeftAt(steps, k))
  }

  // ---------------------------------------------------------------- what the steps say

  /** Clients are counted in the order of their registration. */
  datatype Step = Joins | Leaves(client: nat) | Receives(client: nat) | Broadcasts(msg: Msg)

  function MessageOf(step: Step): seq<Msg> {
    if step.Broadcasts? then [step.msg] else []
  }

  function Messages(steps: seq<Step>): seq<Msg> {
    if steps == [] then [] else Messages(steps[..|steps| - 1]) + MessageOf(steps[|steps| - 1])
  }

  /** A connection as it is seen from outside: its queue, whether that is closed, and what was taken out of it. */
  datatype Conn = Conn(send: seq<Msg>, closed: bool, received: seq<Msg>)

  function Received(c: Conn): Conn {
    if c.send == [] then c else Conn(c.send[1..], c.closed, c.received + [c.send[0]])
  }

  function Offered(c: Conn, msg: Msg): Conn {
    if c.closed then c else if |c.send| < CAPACITY then c.(send := c.send + [msg]) else c.(closed := true)
  }

  function Next(conns: seq<Conn>, step: Step): seq<Conn> {
    match step
    case Joins => conns + [Conn([], false, [])]
    case Leaves(k) => if k < |conns| then conns[k := conns[k].(closed := true)] else conns
    case Receives(k) => if k < |conns| then conns[k := Received(conns[k])] else conns
    case Broadcasts(msg) => seq(|conns|, i requires 0 <= i < |conns| => Offered(conns[i], msg))
  }

  function ConnsAfter(steps: seq<Step>): seq<Conn> {
    if steps == [] then [] else Next(ConnsAfter(steps[..|steps| - 1]), steps[|steps| - 1])
  }

  /** How many broadcasts there were before a client came, */
  function JoinedAt(steps: seq<Step>, k: nat): nat {
    if steps == [] || k >= |ConnsAfter(steps)| then 0
    else
      var before := steps[..|steps| - 1];
      if k < |ConnsAfter(before)| then JoinedAt(before, k) else |Messages(before)|
  }

  /** and before it was closed. */
  function LeftAt(steps: seq<Step>, k: nat): nat {
    if steps == [] || k >= |ConnsAfter(steps)| || !ConnsAfter(steps)[k].closed then 0
    else
      var before := steps[..|steps| - 1];
      if k < |ConnsAfter(before)| && ConnsAfter(before)[k].closed then LeftAt(before, k) else |Messages(before)|
  }

  /** The step closes client k: it leaves, or its queue is full when something is broadcast. */
  ghost predicate Closes(steps: seq<Step>, i: nat, k: nat)
    requires i < |steps|
  {
    var before := ConnsAfter(steps[..i]);
    && k < |before| && !before[k].closed
    && (steps[i] == Leaves(k) || (steps[i].Broadcasts? && |before[k].send| >= CAPACITY))
  }

  lemma {:induction false} NothingUndone(steps: seq<Step>, n: nat, k: nat)
    requires n <= |steps| && k < |ConnsAfter(steps[..n])|
    ensures k < |ConnsAfter(steps)|
    ensures ConnsAfter(steps[..n])[k].closed ==> ConnsAfter(steps)[k].closed
    ensures JoinedAt(steps, k) == JoinedAt(steps[..n], k)
    ensures ConnsAfter(steps[..n])[k].closed ==> LeftAt(steps, k) == LeftAt(steps[..n], k)
  {
    hide Messages;
    if n == |steps| {
      assert steps[..n] == steps;
    } else {
      var before, last := steps[..|steps| - 1], steps[|steps| - 1];
      assert before[..n] == steps[..n] && steps == before + [last];
      NothingUndone(before, n, k);
      OneStep(before, last);
      EndsAfter(before, last, k);
    }
  }

  /** Client k comes with the step that registers it: it is open, with nothing queued and nothing received, and what is
      broadcast from then on concerns it. */
  lemma ComesWith(steps: seq<Step>, i: nat)
    requires i < |steps| && steps[i].Joins?
    ensures var k := |ConnsAfter(steps[..i])|;
            && ConnsAfter(steps[..i + 1]) == ConnsAfter(steps[..i]) + [Conn([], false, [])]
            && k < |ConnsAfter(steps)| && JoinedAt(steps, k) == |Messages(steps[..i])|
  {
    var before := steps[..i];
    assert steps[..i + 1] == before + [steps[i]];
    OneStep(before, steps[i]);
    EndsAfter(before, steps[i], |ConnsAfter(before)|);
    NothingUndone(steps, i + 1, |ConnsAfter(before)|);
  }

  /** Nobody else comes. */
  lemma {:induction false} ClientsAreJoins(steps: seq<Step>)
    ensures |ConnsAfter(steps)| == |set i | 0 <= i < |steps| && steps[i].Joins?|
  {
    if steps != [] {
      var before, last := steps[..|steps| - 1], |steps| - 1;
      ClientsAreJoins(before);
      var all, some := set i | 0 <= i < |steps| && steps[i].Joins?, set i | 0 <= i < |before| && before[i].Joins?;
      assert all == some + (if steps[last].Joins? then {last} else {});
    }
  }

  /** A client is closed exactly if a step has closed it, and that step is where it left. */
  lemma {:induction false} ClosedExactlyWhen(steps: seq<Step>, k: nat)
    requires k < |ConnsAfter(steps)|
    ensures ConnsAfter(steps)[k].closed <==> exists i :: 0 <= i < |steps| && Closes(steps, i, k)
    ensures forall i :: 0 <= i < |steps| && Closes(steps, i, k) ==> LeftAt(steps, k) == |Messages(steps[..i])|
  {
    forall i | 0 <= i < |steps| && Closes(steps, i, k)
      ensures ConnsAfter(steps)[k].closed && LeftAt(steps, k) == |Messages(steps[..i])|
    {
      assert steps[..i + 1] == steps[..i] + [steps[i]];
      OneStep(steps[..i], steps[i]);
      EndsAfter(steps[..i], steps[i], k);
      NothingUndone(steps, i + 1, k);
    }
    if ConnsAfter(steps)[k].closed {
      var _ := ClosedBy(steps, k);
    }
  }

  lemma {:induction false} ClosedBy(steps: seq<Step>, k: nat) returns (i: nat)
    requires k < |ConnsAfter(steps)| && ConnsAfter(steps)[k].closed
    ensures i < |steps| && Closes(steps, i, k)
  {
    var before, last := steps[..|steps| - 1], steps[|steps| - 1];
    assert steps == before + [last];
    OneStep(before, last);
    if k < |ConnsAfter(before)| && ConnsAfter(before)[k].closed {
      i := ClosedBy(before, k);
      assert before[..i] == steps[..i];
    } else {
      i := |steps| - 1;
    }
  }

  lemma NothingYet()
    ensures Messages([]) == [] && ConnsAfter([]) == []
  {
  }

  lemma OneStep(steps: seq<Step>, step: Step)
    ensures Messages(steps + [step]) == Messages(steps) + MessageOf(step)
    ensures ConnsAfter(steps + [step]) == Next(ConnsAfter(steps), step)
  {
    assert (steps + [step])[..|steps|] == steps;
  }

  lemma EndsAfter(steps: seq<Step>, step: Step, k: nat)
    requires k < |Next(ConnsAfter(steps), step)|
    ensures var conns, next := ConnsAfter(steps), Next(ConnsAfter(steps), step);
            && JoinedAt(steps + [step], k) == (if k < |conns| then JoinedAt(steps, k) else |Messages(steps)|)
            && (next[k].closed ==>
                  LeftAt(steps + [step], k)
                  == if k < |conns| && conns[k].closed then LeftAt(steps, k) else |Messages(steps)|)
  {
    hide Next, Messages;
    OneStep(steps, step);
    assert (steps + [step])[..|steps|] == steps;
  }

  /** What a connection was queued is this stretch of the broadcasts, and it has received the start of it. */
  predicate IsStretch(c: Conn, history: seq<Msg>, from: nat, to: nat) {
    from <= to <= |history| && c.received + c.send == history[from..to] && |c.send| <= CAPACITY
  }

  /** For every client of every run: what it was queued is exactly the broadcasts from its coming to its closing, and
      what it received is the start of that; no more than the capacity wait. */
  lemma {:induction false} QueuedIsStretch(steps: seq<Step>, k: nat)
    requires k < |ConnsAfter(steps)|
    ensures var c := ConnsAfter(steps)[k];
            IsStretch(c, Messages(steps), JoinedAt(steps, k), if c.closed then LeftAt(steps, k) else |Messages(steps)|)
  {
    var before, step := steps[..|steps| - 1], steps[|steps| - 1];
    assert steps == before + [step];
    OneStep(before, step);
    EndsAfter(before, step, k);
    if k < |ConnsAfter(before)| {
      QueuedIsStretch(before, k);
      hide Messages, JoinedAt, LeftAt, ConnsAfter, IsStretch;
      StretchGoesOn(ConnsAfter(before), step, k, Messages(before), JoinedAt(before, k), LeftAt(before, k));
    }
  }

  lemma StretchGoesOn(conns: seq<Conn>, step: Step, k: nat, history: seq<Msg>, from: nat, left: nat)
    requires k < |conns| && IsStretch(conns[k], history, from, if conns[k].closed then left else |history|)
    ensures k < |Next(conns, step)|
    ensures var c, history' := Next(conns, step)[k], history + MessageOf(step);
            IsStretch(c, history',
                      from, if !c.closed then |history'| else if conns[k].closed then left else |history|)
  {
    hide IsStretch;
    var c := conns[k];
    var to := if c.closed then left else |history|;
    StretchStays(c, history, MessageOf(step), from, to);
    match step {
      case Broadcasts(msg) =>
        if !c.closed {
          StretchGrows(c, history, msg, from);
        }
      case Receives(j) => StretchIsReceived(c, history, from, to);
      case Leaves(j) => StretchEnds(c, history, from, to);
      case Joins =>
    }
    assert step.Receives? || step.Leaves? || step.Joins? ==> history + MessageOf(step) == history;
  }

  lemma StretchStays(c: Conn, history: seq<Msg>, more: seq<Msg>, from: nat, to: nat)
    requires IsStretch(c, history, from, to)
    ensures IsStretch(c, history + more, from, to)
  {
    assert (history + more)[from..to] == history[from..to];
  }

  lemma StretchEnds(c: Conn, history: seq<Msg>, from: nat, to: nat)
    requires IsStretch(c, history, from, to)
    ensures IsStretch(c.(closed := true), history, from, to)
  {
  }

  lemma StretchIsReceived(c: Conn, history: seq<Msg>, from: nat, to: nat)
    requires IsStretch(c, history, from, to)
    ensures IsStretch(Received(c), history, from, to)
  {
    if c.send != [] {
      assert [c.send[0]] + c.send[1..] == c.send;
      assert (c.received + [c.send[0]]) + c.send[1..] == c.received + ([c.send[0]] + c.send[1..]);
    }
  }

  lemma StretchGrows(c: Conn, history: seq<Msg>, msg: Msg, from: nat)
    requires !c.closed && IsStretch(c, history, from, |history|)
    ensures var c', history' := Offered(c, msg), history + [msg];
            IsStretch(c', history', from, if c'.closed then |history| else |history'|)
  {
    StretchStays(c, history, [msg], from, |history|);
    assert c.received + (c.send + [msg]) == (c.received + c.send) + [msg];
    assert (history + [msg])[from..|history| + 1] == history[from..|history|] + [msg];
  }

  lemma RemovedStaySound(clients: set<Client>, history: seq<Msg>, msg: Msg)
    requires forall c :: c in clients ==> c.Sound(history, false)
    ensures forall c :: c in clients ==> c.Sound(history + [msg], false)
  {
    forall c | c in clients ensures c.Sound(history + [msg], false) {
      assert history[c.joined..c.left] == (history + [msg])[c.joined..c.left];
    }
  }
}
