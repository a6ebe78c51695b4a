/**
 Several hub instances behind one Redis server. Redis appends every accepted message to the
 subscription queue of each instance; instances relay their queues at their own pace while
 connections come and go, and an instance whose publish kept failing broadcasts to its own
 clients at once. One relay and one broadcast are each one atomic step.
 */
module Network {
  import opened Prelude
  import opened Registry
  import opened Hub

  datatype Node = Node(rooms: Rooms, queue: seq<BusMessage>)

  datatype Net = Net(nodes: seq<Node>, inbox: map<Client, seq<Payload>>)

  datatype Action =
    | Connect(node: nat, client: Client)
    | Disconnect(node: nat, client: Client)
    | Accept(msg: BusMessage)
    | RelayOne(node: nat)
    | Fallback(node: nat, msg: BusMessage)  // the local broadcast that ends a failed PublishMessage

  function Inbox(inbox: map<Client, seq<Payload>>, c: Client): seq<Payload> {
    if c in inbox then inbox[c] else []
  }

  function Deliver(inbox: map<Client, seq<Payload>>, rooms: Rooms, msg: BusMessage): map<Client, seq<Payload>> {
    map c | c in inbox.Keys + Everyone(rooms) ::
      Inbox(inbox, c) + Repeat(msg.payload, RouteCopies(rooms, RouteOf(msg.channel), c))
  }

  function Enqueue(nodes: seq<Node>, msg: BusMessage): seq<Node> {
    seq(|nodes|, j requires 0 <= j < |nodes| => nodes[j].(queue := nodes[j].queue + [msg]))
  }

  function Step(net: Net, a: Action): Net {
    match a
    case Connect(i, c) =>
      if i >= |net.nodes| then net
      else net.(nodes := net.nodes[i := net.nodes[i].(rooms := RoomsOf(Pairs(net.nodes[i].rooms) + {Entry(c)}))])
    case Disconnect(i, c) =>
      if i >= |net.nodes| then net
      else net.(nodes := net.nodes[i := net.nodes[i].(rooms := RoomsOf(Pairs(net.nodes[i].rooms) - {Entry(c)}))])
    case Accept(msg) =>
      if Subscribed(msg.channel) then net.(nodes := Enqueue(net.nodes, msg)) else net
    case RelayOne(i) =>
      if i >= |net.nodes| || net.nodes[i].queue == [] then net
      else
        var n := net.nodes[i];
        Net(net.nodes[i := n.(queue := n.queue[1..])], Deliver(net.inbox, n.rooms, n.queue[0]))
    case Fallback(i, msg) =>
      if i >= |net.nodes| then net else net.(inbox := Deliver(net.inbox, net.nodes[i].rooms, msg))
  }

  function Run(net: Net, actions: seq<Action>): Net {
    if actions == [] then net else Step(Run(net, Init(actions)), Last(actions))
  }

  /** What an action issues to the clients of node i: a message the bus accepts, or that node's own broadcast. */
  function IssuedBy(a: Action, i: nat): seq<BusMessage> {
    match a
    case Accept(msg) => if Subscribed(msg.channel) then [msg] else []
    case Fallback(j, msg) => if i == j then [msg] else []
    case _ => []
  }

  /** Everything issued to the clients of node i, in the order of issue. */
  function Issued(actions: seq<Action>, i: nat): seq<BusMessage> {
    if actions == [] then [] else Issued(Init(actions), i) + IssuedBy(Last(actions), i)
  }

  /** The payload of msg if it is meant for c, whatever any registry says. */
  function Heard(msg: BusMessage, c: Client): seq<Payload> {
    if Addresses(RouteOf(msg.channel), c) then [msg.payload] else []
  }

  function MeantFor(msgs: seq<BusMessage>, c: Client): seq<Payload> {
    if msgs == [] then [] else MeantFor(Init(msgs), c) + Heard(Last(msgs), c)
  }

  lemma {:induction false} MeantForConcat(a: seq<BusMessage>, b: seq<BusMessage>, c: Client)
    ensures MeantFor(a + b, c) == MeantFor(a, c) + MeantFor(b, c)
  {
    hide Heard;
    if b == [] {
      assert a + b == a;
    } else {
      MeantForConcat(a, Init(b), c);
      assert Init(a + b) == a + Init(b);
    }
  }

  lemma MeantForOne(msg: BusMessage, c: Client)
    ensures MeantFor([msg], c) == Heard(msg, c)
  {
  }

  /** c is connected at node i and nowhere else. */
  ghost predicate Attached(net: Net, i: nat, c: Client) {
    && i < |net.nodes|
    && (forall j | 0 <= j < |net.nodes| :: OwnRoomOnly(net.nodes[j].rooms))
    && (forall j | 0 <= j < |net.nodes| :: c in Everyone(net.nodes[j].rooms) <==> j == i)
  }

  predicate Involves(a: Action, c: Client) {
    (a.Connect? || a.Disconnect?) && a.client == c
  }

  lemma InvolvesExactly(a: Action, c: Client)
    ensures Involves(a, c) <==> exists j: nat :: a == Connect(j, c) || a == Disconnect(j, c)
  {
  }

  /** Connecting or disconnecting another client moves nobody else. */
  lemma EditRooms(rooms: Rooms, pairs: set<(string, Client)>, d: Client, c: Client)
    requires OwnRoomOnly(rooms) && c != d
    requires pairs == Pairs(rooms) + {Entry(d)} || pairs == Pairs(rooms) - {Entry(d)}
    ensures OwnRoomOnly(RoomsOf(pairs))
    ensures c in Everyone(rooms) <==> c in Everyone(RoomsOf(pairs))
  {
    PairsAreTheirRooms(pairs);
    var after := RoomsOf(pairs);
    forall k, x: Client | k in after && x in after[k]
      ensures x.convID == k
    {
      assert (k, x) in Pairs(after);
    }
    if c in Everyone(rooms) {
      assert Entry(c) in Pairs(rooms);
      assert Entry(c) in Pairs(after);
    }
    if c in Everyone(after) {
      assert Entry(c) in Pairs(after);
      assert Entry(c) in Pairs(rooms);
    }
  }

  /** What c has received or still has waiting at node i. */
  function Holdings(net: Net, i: nat, c: Client): seq<Payload>
    requires i < |net.nodes|
  {
    Inbox(net.inbox, c) + MeantFor(net.nodes[i].queue, c)
  }

  lemma DeliveredOnce(inbox: map<Client, seq<Payload>>, rooms: Rooms, msg: BusMessage, c: Client)
    requires OwnRoomOnly(rooms)
    ensures Inbox(Deliver(inbox, rooms, msg), c)
         == Inbox(inbox, c) + if c in Everyone(rooms) then Heard(msg, c) else []
  {
    hide RouteOf, Addresses, RouteCopies;
    RegisteredOnce(rooms, RouteOf(msg.channel), c);
  }

  lemma RelayBalance(net: Net, j: nat, i: nat, c: Client)
    requires Attached(net, i, c)
    ensures Attached(Step(net, RelayOne(j)), i, c)
    ensures Holdings(Step(net, RelayOne(j)), i, c) == Holdings(net, i, c)
  {
    hide RouteOf, Heard, Deliver, Inbox;
    if j < |net.nodes| && net.nodes[j].queue != [] {
      var n := net.nodes[j];
      DeliveredOnce(net.inbox, n.rooms, n.queue[0], c);
      assert n.queue == [n.queue[0]] + n.queue[1..];
      MeantForConcat([n.queue[0]], n.queue[1..], c);
      MeantForOne(n.queue[0], c);
    }
  }

  /** A broadcast to c leaves nothing waiting for c behind it but further copies of its own frame. */
  predicate Overtakes(net: Net, a: Action, i: nat, c: Client)
    requires i < |net.nodes|
  {
    && a.Fallback? && a.node == i && Addresses(RouteOf(a.msg.channel), c)
    && exists w | w in MeantFor(net.nodes[i].queue, c) :: w != a.msg.payload
  }

  lemma {:induction false} CopiesCommute(waiting: seq<Payload>, p: Payload)
    ensures [p] + waiting == waiting + [p] <==> forall w | w in waiting :: w == p
  {
    if waiting != [] {
      var first, rest := waiting[0], waiting[1..];
      CopiesCommute(rest, p);
      assert waiting == [first] + rest;
      if [p] + waiting == waiting + [p] {
        assert first == ([p] + waiting)[0];
        assert [p] + rest == ([p] + waiting)[1..];
        assert rest + [p] == (waiting + [p])[1..];
      }
      if forall w | w in waiting :: w == p {
        assert first in waiting;
        assert forall w | w in rest :: w in waiting;
        assert [p] + ([p] + rest) == [p] + (rest + [p]);
      }
    }
  }

  /** A frame written past `waiting`: nothing lost or doubled, and in order exactly when only copies wait. */
  lemma WrittenPast(got: seq<Payload>, waiting: seq<Payload>, p: Payload)
    ensures multiset(got + [p] + waiting) == multiset(got + waiting) + multiset([p])
    ensures got + [p] + waiting == got + waiting + [p] <==> forall w | w in waiting :: w == p
  {
    CopiesCommute(waiting, p);
    assert got + [p] + waiting == got + ([p] + waiting);
    assert got + waiting + [p] == got + (waiting + [p]);
    assert [p] + waiting == (got + ([p] + waiting))[|got|..];
    assert waiting + [p] == (got + (waiting + [p]))[|got|..];
  }

  /** A broadcast writes past the queue, to the broadcasting node's own clients. */
  lemma FallbackEffect(net: Net, a: Action, i: nat, c: Client)
    requires Attached(net, i, c) && a.Fallback?
    ensures Attached(Step(net, a), i, c)
    ensures Step(net, a).nodes == net.nodes
    ensures Inbox(Step(net, a).inbox, c) == Inbox(net.inbox, c) + MeantFor(IssuedBy(a, i), c)
    ensures MeantFor(IssuedBy(a, i), c)
         == if a.node == i && Addresses(RouteOf(a.msg.channel), c) then [a.msg.payload] else []
  {
    hide RouteOf, Addresses, Deliver;
    MeantForOne(a.msg, c);
    assert MeantFor([], c) == [];
    hide MeantFor;
    if a.node < |net.nodes| {
      DeliveredOnce(net.inbox, net.nodes[a.node].rooms, a.msg, c);
    }
  }

  lemma FallbackBalance(net: Net, a: Action, i: nat, c: Client)
    requires Attached(net, i, c) && a.Fallback?
    ensures Attached(Step(net, a), i, c)
    ensures multiset(Holdings(Step(net, a), i, c))
         == multiset(Holdings(net, i, c)) + multiset(MeantFor(IssuedBy(a, i), c))
    ensures Holdings(Step(net, a), i, c) == Holdings(net, i, c) + MeantFor(IssuedBy(a, i), c)
       <==> !Overtakes(net, a, i, c)
  {
    hide RouteOf, Addresses, Step, Inbox, IssuedBy, MeantFor, OwnRoomOnly, Everyone;
    FallbackEffect(net, a, i, c);
    var got, waiting := Inbox(net.inbox, c), MeantFor(net.nodes[i].queue, c);
    WrittenPast(got, waiting, a.msg.payload);
    assert got + [] + waiting == got + waiting == got + waiting + [];
  }

  /** A change of one node's rooms that leaves c where it is. */
  lemma RoomsBalance(net: Net, j: nat, pairs: set<(string, Client)>, d: Client, i: nat, c: Client)
    requires Attached(net, i, c) && j < |net.nodes| && c != d
    requires pairs == Pairs(net.nodes[j].rooms) + {Entry(d)} || pairs == Pairs(net.nodes[j].rooms) - {Entry(d)}
    ensures var after := net.(nodes := net.nodes[j := net.nodes[j].(rooms := RoomsOf(pairs))]);
            Attached(after, i, c) && Holdings(after, i, c) == Holdings(net, i, c)
  {
    EditRooms(net.nodes[j].rooms, pairs, d, c);
    hide Pairs, RoomsOf, Everyone, OwnRoomOnly, Inbox, MeantFor;
  }

  lemma AcceptBalance(net: Net, msg: BusMessage, i: nat, c: Client)
    requires Attached(net, i, c)
    ensures Attached(Step(net, Accept(msg)), i, c)
    ensures Holdings(Step(net, Accept(msg)), i, c)
         == Holdings(net, i, c) + MeantFor(IssuedBy(Accept(msg), i), c)
  {
  }

  /** Every other step keeps the order outright. */
  lemma QuietBalance(net: Net, a: Action, i: nat, c: Client)
    requires Attached(net, i, c) && !Involves(a, c) && !a.Fallback?
    ensures Attached(Step(net, a), i, c)
    ensures Holdings(Step(net, a), i, c) == Holdings(net, i, c) + MeantFor(IssuedBy(a, i), c)
  {
    assert MeantFor([], c) == [];
    assert Holdings(net, i, c) + [] == Holdings(net, i, c);
    hide Heard, MeantFor, Holdings, Attached, Deliver, Pairs, RoomsOf;
    match a
    case Connect(j, d) =>
      if j < |net.nodes| { RoomsBalance(net, j, Pairs(net.nodes[j].rooms) + {Entry(d)}, d, i, c); }
    case Disconnect(j, d) =>
      if j < |net.nodes| { RoomsBalance(net, j, Pairs(net.nodes[j].rooms) - {Entry(d)}, d, i, c); }
    case Accept(msg) =>
      AcceptBalance(net, msg, i, c);
    case RelayOne(j) =>
      RelayBalance(net, j, i, c);
  }

  /** No step loses or doubles a frame for c, and it keeps the order of issue exactly when it does not overtake. */
  lemma StepBalance(net: Net, a: Action, i: nat, c: Client)
    requires Attached(net, i, c) && !Involves(a, c)
    ensures Attached(Step(net, a), i, c)
    ensures multiset(Holdings(Step(net, a), i, c))
         == multiset(Holdings(net, i, c)) + multiset(MeantFor(IssuedBy(a, i), c))
    ensures Holdings(Step(net, a), i, c) == Holdings(net, i, c) + MeantFor(IssuedBy(a, i), c)
       <==> !Overtakes(net, a, i, c)
  {
    if a.Fallback? {
      FallbackBalance(net, a, i, c);
    } else {
      QuietBalance(net, a, i, c);
    }
    hide Step, Holdings, MeantFor, IssuedBy, Attached;
  }

  /**
   Exactly once: a connection that stays up has received, or has waiting in its instance's queue,
   every frame issued to it and nothing else, however publishing, fallbacks, relaying and other
   connections interleave.
   */
  lemma {:induction false} ExactlyOnce(net: Net, actions: seq<Action>, i: nat, c: Client)
    requires Attached(net, i, c)
    requires forall k | 0 <= k < |actions| :: !Involves(actions[k], c)
    ensures Attached(Run(net, actions), i, c)
    ensures multiset(Holdings(Run(net, actions), i, c))
         == multiset(Holdings(net, i, c)) + multiset(MeantFor(Issued(actions, i), c))
  {
    hide Step, Heard, IssuedBy, Holdings, Overtakes;
    if actions != [] {
      ExactlyOnce(net, Init(actions), i, c);
      StepBalance(Run(net, Init(actions)), Last(actions), i, c);
      MeantForConcat(Issued(Init(actions), i), IssuedBy(Last(actions), i), c);
    }
  }

  // ------------------------------------------------------------------------- progress

  lemma {:induction false} NodesStay(net: Net, actions: seq<Action>)
    ensures |Run(net, actions).nodes| == |net.nodes|
  {
    hide Deliver;
    if actions != [] {
      NodesStay(net, Init(actions));
    }
  }

  /** One relay takes the next message off its queue and writes it to each client as often as it is addressed. */
  lemma RelayTakesNext(net: Net, i: nat, c: Client)
    requires i < |net.nodes| && net.nodes[i].queue != []
    ensures var next, rest := net.nodes[i].queue[0], net.nodes[i].queue[1..];
            var after := Step(net, RelayOne(i));
            && after.nodes == net.nodes[i := Node(net.nodes[i].rooms, rest)]
            && Inbox(after.inbox, c)
               == Inbox(net.inbox, c) + Repeat(next.payload, RouteCopies(net.nodes[i].rooms, RouteOf(next.channel), c))
            && (OwnRoomOnly(net.nodes[i].rooms) ==>
                  Inbox(after.inbox, c)
                  == Inbox(net.inbox, c) + if c in Everyone(net.nodes[i].rooms) then Heard(next, c) else [])
  {
    hide RouteOf, RouteCopies, Heard;
    var n := net.nodes[i];
    DeliveredCopies(net.inbox, n.rooms, n.queue[0], c);
    if OwnRoomOnly(n.rooms) {
      DeliveredOnce(net.inbox, n.rooms, n.queue[0], c);
    }
  }

  lemma RunSnoc(net: Net, actions: seq<Action>, a: Action)
    ensures Run(net, actions + [a]) == Step(Run(net, actions), a)
    ensures forall i :: Issued(actions + [a], i) == Issued(actions, i) + IssuedBy(a, i)
  {
  }

  lemma RelayOnce(net: Net, rooms: Rooms, q: seq<BusMessage>, i: nat, k: nat, c: Client)
    requires Attached(net, i, c) && k < |q| && net.nodes[i] == Node(rooms, q[k..])
    ensures var after := Step(net, RelayOne(i));
            && Attached(after, i, c)
            && after.nodes == net.nodes[i := Node(rooms, q[k + 1..])]
            && Inbox(after.inbox, c) == Inbox(net.inbox, c) + Heard(q[k], c)
    ensures MeantFor(q[..k + 1], c) == MeantFor(q[..k], c) + Heard(q[k], c)
  {
    assert Init(q[..k + 1]) == q[..k] && q[k..][1..] == q[k + 1..];
    hide Step, Heard, Inbox, RouteOf, RouteCopies;
    RelayTakesNext(net, i, c);
    RelayBalance(net, i, i, c);
  }

  /** k messages are off the queue of instance i, and c has been handed what they mean for it. */
  ghost predicate Relayed(net: Net, after: Net, i: nat, k: nat, c: Client)
    requires i < |net.nodes| && k <= |net.nodes[i].queue|
  {
    var n := net.nodes[i];
    && Attached(after, i, c)
    && after.nodes == net.nodes[i := Node(n.rooms, n.queue[k..])]
    && Inbox(after.inbox, c) == Inbox(net.inbox, c) + MeantFor(n.queue[..k], c)
  }

  lemma NoneRelayed(net: Net, i: nat, c: Client)
    requires Attached(net, i, c)
    ensures Relayed(net, net, i, 0, c)
  {
  }

  lemma OneMoreRelayed(net: Net, before: Net, i: nat, k: nat, c: Client)
    requires i < |net.nodes| && 0 < k <= |net.nodes[i].queue| && Relayed(net, before, i, k - 1, c)
    ensures Relayed(net, Step(before, RelayOne(i)), i, k, c)
  {
    hide Attached, Step, Heard, MeantFor, Inbox;
    var n := net.nodes[i];
    RelayOnce(before, n.rooms, n.queue, i, k - 1, c);
    var got, more := MeantFor(n.queue[..k - 1], c), Heard(n.queue[k - 1], c);
    assert before.nodes[i := Node(n.rooms, n.queue[k..])] == net.nodes[i := Node(n.rooms, n.queue[k..])];
    assert Inbox(net.inbox, c) + got + more == Inbox(net.inbox, c) + (got + more);
  }

  lemma {:induction false} RelaysDeliver(net: Net, i: nat, k: nat, c: Client)
    requires Attached(net, i, c) && k <= |net.nodes[i].queue|
    ensures Relayed(net, Run(net, Repeat(RelayOne(i), k)), i, k, c)
  {
    hide Relayed, Step;
    if k == 0 {
      NoneRelayed(net, i, c);
    } else {
      RelaysDeliver(net, i, k - 1, c);
      assert Repeat(RelayOne(i), k) == Repeat(RelayOne(i), k - 1) + [RelayOne(i)];
      RunSnoc(net, Repeat(RelayOne(i), k - 1), RelayOne(i));
      OneMoreRelayed(net, Run(net, Repeat(RelayOne(i), k - 1)), i, k, c);
    }
  }

  /** As many relays as messages wait empty the queue, and every attached client has been handed all of it. */
  lemma QueueDrains(net: Net, i: nat, c: Client)
    requires Attached(net, i, c)
    ensures var q := net.nodes[i].queue;
            var after := Run(net, Repeat(RelayOne(i), |q|));
            && Attached(after, i, c)
            && after.nodes[i].queue == []
            && Inbox(after.inbox, c) == Inbox(net.inbox, c) + MeantFor(q, c)
  {
    var q := net.nodes[i].queue;
    RelaysDeliver(net, i, |q|, c);
    assert q[..|q|] == q;
  }

  lemma {:induction false} RunConcat(net: Net, a: seq<Action>, b: seq<Action>)
    ensures Run(net, a + b) == Run(Run(net, a), b)
  {
    hide Step;
    if b == [] {
      assert a + b == a;
    } else {
      RunConcat(net, a, Init(b));
      assert Init(a + b) == a + Init(b);
    }
  }

  /** The run, and then the relays that empty the queue of instance i. */
  function Drained(net: Net, actions: seq<Action>, i: nat): seq<Action>
    requires i < |net.nodes|
  {
    NodesStay(net, actions);
    actions + Repeat(RelayOne(i), |Run(net, actions).nodes[i].queue|)
  }

  lemma {:induction false} RelaysIssueNothing(actions: seq<Action>, j: nat, n: nat, i: nat)
    ensures Issued(actions + Repeat(RelayOne(j), n), i) == Issued(actions, i)
  {
    if n == 0 {
      assert actions + Repeat(RelayOne(j), 0) == actions;
    } else {
      RelaysIssueNothing(actions, j, n - 1, i);
      assert Init(actions + Repeat(RelayOne(j), n)) == actions + Repeat(RelayOne(j), n - 1);
    }
  }

  /**
   Delivery: whatever happened before, once an instance has relayed what waits on it, each of its
   connections has received exactly what was issued to it, with multiplicity.
   */
  lemma EverythingArrives(net: Net, actions: seq<Action>, i: nat, c: Client)
    requires Attached(net, i, c)
    requires forall k | 0 <= k < |actions| :: !Involves(actions[k], c)
    ensures var after := Run(net, Drained(net, actions, i));
            && Attached(after, i, c)
            && after.nodes[i].queue == []
            && multiset(Inbox(after.inbox, c))
               == multiset(Holdings(net, i, c)) + multiset(MeantFor(Issued(actions, i), c))
  {
    ExactlyOnce(net, actions, i, c);
    var now := Run(net, actions);
    QueueDrains(now, i, c);
    RunConcat(net, actions, Repeat(RelayOne(i), |now.nodes[i].queue|));
  }

  /** c has connected at node i in this run and has not disconnected from it since. */
  ghost predicate IsUp(actions: seq<Action>, i: nat, c: Client) {
    exists k :: 0 <= k < |actions| && actions[k] == Connect(i, c)
                && forall l | k < l < |actions| :: actions[l] != Disconnect(i, c)
  }

  lemma UpStep(actions: seq<Action>, i: nat, c: Client)
    requires actions != []
    ensures IsUp(actions, i, c) <==>
              (Last(actions) == Connect(i, c) || (IsUp(Init(actions), i, c) && Last(actions) != Disconnect(i, c)))
  {
  }

  lemma PairsStep(net: Net, a: Action, i: nat, c: Client)
    requires i < |net.nodes| && |Step(net, a).nodes| == |net.nodes|
    ensures Entry(c) in Pairs(Step(net, a).nodes[i].rooms) <==>
              (a == Connect(i, c) || (Entry(c) in Pairs(net.nodes[i].rooms) && a != Disconnect(i, c)))
  {
  }

  lemma NothingUp(i: nat, c: Client)
    ensures Entry(c) !in Pairs(map[]) && !IsUp([], i, c)
  {
  }

  /** Between any other steps an instance registers exactly the connections that are up on it. */
  lemma {:induction false} NodesRegisterTheLive(net: Net, actions: seq<Action>, i: nat, c: Client)
    requires i < |net.nodes| && net.nodes[i].rooms == map[]
    ensures i < |Run(net, actions).nodes|
    ensures Entry(c) in Pairs(Run(net, actions).nodes[i].rooms) <==> IsUp(actions, i, c)
  {
    hide Step, Pairs, IsUp;
    NodesStay(net, actions);
    if actions == [] {
      NothingUp(i, c);
    } else {
      NodesStay(net, Init(actions));
      NodesRegisterTheLive(net, Init(actions), i, c);
      PairsStep(Run(net, Init(actions)), Last(actions), i, c);
      UpStep(actions, i, c);
    }
  }

  lemma {:induction false} NodesOwnRooms(net: Net, actions: seq<Action>, i: nat)
    requires i < |net.nodes| && net.nodes[i].rooms == map[]
    ensures i < |Run(net, actions).nodes| && OwnRoomOnly(Run(net, actions).nodes[i].rooms)
  {
    hide Deliver, RoomsOf, Pairs;
    NodesStay(net, actions);
    if actions != [] {
      NodesStay(net, Init(actions));
      NodesOwnRooms(net, Init(actions), i);
      var before := Run(net, Init(actions)).nodes;
      match Last(actions)
      case Connect(j, d) =>
        if j < |before| { EditKeepsRooms(before[j].rooms, Pairs(before[j].rooms) + {Entry(d)}, d); }
      case Disconnect(j, d) =>
        if j < |before| { EditKeepsRooms(before[j].rooms, Pairs(before[j].rooms) - {Entry(d)}, d); }
      case _ =>
    }
  }

  lemma EditKeepsRooms(rooms: Rooms, pairs: set<(string, Client)>, d: Client)
    requires pairs == Pairs(rooms) + {Entry(d)} || pairs == Pairs(rooms) - {Entry(d)}
    ensures OwnRoomOnly(rooms) ==> OwnRoomOnly(RoomsOf(pairs))
  {
  }

  lemma InItsOwnRoom(rooms: Rooms, c: Client)
    requires OwnRoomOnly(rooms)
    ensures c in Everyone(rooms) <==> Entry(c) in Pairs(rooms)
  {
  }

  /**
   The hypothesis of the delivery laws, in terms of runs: on instances that started empty, a client
   that is up on one instance and on no other.
   */
  lemma UpIsAttached(net: Net, actions: seq<Action>, i: nat, c: Client)
    requires i < |net.nodes| && forall j | 0 <= j < |net.nodes| :: net.nodes[j].rooms == map[]
    ensures Attached(Run(net, actions), i, c) <==>
              forall j: nat | j < |net.nodes| :: IsUp(actions, j, c) <==> j == i
  {
    NodesStay(net, actions);
    var now := Run(net, actions);
    hide Run, IsUp, Everyone, Pairs, OwnRoomOnly;
    forall j: nat | j < |net.nodes|
      ensures OwnRoomOnly(now.nodes[j].rooms)
      ensures c in Everyone(now.nodes[j].rooms) <==> IsUp(actions, j, c)
    {
      NodesOwnRooms(net, actions, j);
      NodesRegisterTheLive(net, actions, j, c);
      InItsOwnRoom(now.nodes[j].rooms, c);
    }
  }

  // --------------------------------------------------------------------------- order

  /** At every moment what c has and what waits for it is everything issued to it, in the order of issue. */
  ghost predicate AlwaysInOrder(net: Net, actions: seq<Action>, i: nat, c: Client)
    requires i < |net.nodes|
  {
    NodesStay(net, actions);
    && Holdings(Run(net, actions), i, c) == Holdings(net, i, c) + MeantFor(Issued(actions, i), c)
    && (actions != [] ==> AlwaysInOrder(net, Init(actions), i, c))
  }

  /** No fallback of the run overtakes a frame waiting for c. */
  ghost predicate NothingOvertaken(net: Net, actions: seq<Action>, i: nat, c: Client)
    requires i < |net.nodes|
  {
    actions != [] ==>
      && NothingOvertaken(net, Init(actions), i, c)
      && (NodesStay(net, Init(actions)); !Overtakes(Run(net, Init(actions)), Last(actions), i, c))
  }

  /**
   Order, exactly: the frames of a connection are in the order of issue at every moment if and
   only if no fallback finds another frame still waiting for it.
   */
  lemma {:induction false} InOrderExactly(net: Net, actions: seq<Action>, i: nat, c: Client)
    requires Attached(net, i, c)
    requires forall k | 0 <= k < |actions| :: !Involves(actions[k], c)
    ensures AlwaysInOrder(net, actions, i, c) <==> NothingOvertaken(net, actions, i, c)
  {
    hide Step, Heard, IssuedBy, Overtakes, Holdings;
    if actions == [] {
      assert MeantFor([], c) == [];
      assert Holdings(net, i, c) + [] == Holdings(net, i, c);
    } else {
      var before := Init(actions);
      InOrderExactly(net, before, i, c);
      ExactlyOnce(net, before, i, c);
      StepBalance(Run(net, before), Last(actions), i, c);
      MeantForConcat(Issued(before, i), IssuedBy(Last(actions), i), c);
      OrderStep(net, actions, i, c);
      var held, issued := Holdings(net, i, c), MeantFor(Issued(before, i), c);
      var more := MeantFor(IssuedBy(Last(actions), i), c);
      assert NothingOvertaken(net, actions, i, c) <==>
             NothingOvertaken(net, before, i, c) && !Overtakes(Run(net, before), Last(actions), i, c);
      assert Run(net, actions) == Step(Run(net, before), Last(actions));
      hide *;
      assert held + (issued + more) == (held + issued) + more;
    }
  }

  lemma OrderStep(net: Net, actions: seq<Action>, i: nat, c: Client)
    requires i < |net.nodes| && actions != []
    ensures |Run(net, actions).nodes| == |net.nodes|
    ensures AlwaysInOrder(net, actions, i, c) <==>
              && Holdings(Run(net, actions), i, c) == Holdings(net, i, c) + MeantFor(Issued(actions, i), c)
              && AlwaysInOrder(net, Init(actions), i, c)
    ensures AlwaysInOrder(net, Init(actions), i, c) ==>
              (NodesStay(net, Init(actions));
               Holdings(Run(net, Init(actions)), i, c)
               == Holdings(net, i, c) + MeantFor(Issued(Init(actions), i), c))
  {
    hide Step, Holdings, MeantFor, Issued;
    NodesStay(net, actions);
  }

  /** A queued message and a refused one: the broadcast reaches the client first. */
  lemma FallbackCanOvertake(c: Client, a: Payload, b: Payload)
    ensures var channel := MESSAGES + c.convID;
            var net := Net([Node(map[c.convID := {c}], [])], map[]);
            var run := [Accept(BusMessage(channel, a)), Fallback(0, BusMessage(channel, b)), RelayOne(0)];
            Inbox(Run(net, run).inbox, c) == [b, a]
  {
    SmallNet(c, a, b);
  }

  /** A last attempt taken without acknowledgement: the client gets the frame from both paths. */
  lemma LostAckDoublesFrame(c: Client, b: Payload)
    ensures var channel := MESSAGES + c.convID;
            var net := Net([Node(map[c.convID := {c}], [])], map[]);
            var run := [Accept(BusMessage(channel, b)), Fallback(0, BusMessage(channel, b)), RelayOne(0)];
            Inbox(Run(net, run).inbox, c) == [b, b]
  {
    SmallNet(c, b, b);
  }

  lemma SmallNet(c: Client, a: Payload, b: Payload)
    ensures var channel := MESSAGES + c.convID;
            var net := Net([Node(map[c.convID := {c}], [])], map[]);
            var run := [Accept(BusMessage(channel, a)), Fallback(0, BusMessage(channel, b)), RelayOne(0)];
            Inbox(Run(net, run).inbox, c) == [b, a]
  {
    hide RouteOf, Subscribed;
    ChannelRoundTrip(c.convID);
    var ma, mb := BusMessage(MESSAGES + c.convID, a), BusMessage(MESSAGES + c.convID, b);
    var rooms := map[c.convID := {c}];
    var net := Net([Node(rooms, [])], map[]);
    var run := [Accept(ma), Fallback(0, mb), RelayOne(0)];
    OneFrame(rooms, c, ma);
    OneFrame(rooms, c, mb);
    hide Deliver;
    assert Init(run) == [Accept(ma), Fallback(0, mb)] && Init(Init(run)) == [Accept(ma)] && Init([Accept(ma)]) == [];
    assert [] + [ma] == [ma];
    var accepted := Net([Node(rooms, [ma])], map[]);
    assert Run(net, []) == net;
    assert Run(net, [Accept(ma)]) == accepted;
    assert Run(net, Init(run)) == Net(accepted.nodes, Deliver(map[], rooms, mb));
    assert Run(net, run).inbox == Deliver(Deliver(map[], rooms, mb), rooms, ma);
  }

  lemma OneFrame(rooms: Rooms, c: Client, msg: BusMessage)
    requires rooms == map[c.convID := {c}] && RouteOf(msg.channel) == ToRoom(c.convID)
    ensures forall inbox :: Inbox(Deliver(inbox, rooms, msg), c) == Inbox(inbox, c) + [msg.payload]
  {
    hide RouteOf;
    assert c.convID in rooms && c in rooms[c.convID];
    assert c in Everyone(rooms);
  }

  /**
   The Redis path refines the local path: relaying what a publisher put on the bus writes to
   every client of every instance exactly what that instance's own local delivery would.
   */
  lemma RelayEqualsLocalDelivery(nodes: seq<Node>, id: string, b: Payload, inbox: map<Client, seq<Payload>>)
    ensures forall j, c: Client, channel | 0 <= j < |nodes| && channel in {MESSAGES + id, EVENTS + id, PRESENCE + id} ::
              Inbox(Deliver(inbox, nodes[j].rooms, BusMessage(channel, b)), c)
              == Inbox(inbox, c) + Repeat(b, RoomCopies(nodes[j].rooms, id, c))
    ensures forall j, c: Client | 0 <= j < |nodes| ::
              Inbox(Deliver(inbox, nodes[j].rooms, BusMessage(USER_EVENTS + id, b)), c)
              == Inbox(inbox, c) + Repeat(b, UserCopies(nodes[j].rooms, id, c))
  {
    hide RouteOf;
    ChannelRoundTrip(id);
    forall j, c: Client, channel: string | 0 <= j < |nodes|
      ensures Inbox(Deliver(inbox, nodes[j].rooms, BusMessage(channel, b)), c)
           == Inbox(inbox, c) + Repeat(b, RouteCopies(nodes[j].rooms, RouteOf(channel), c))
    {
      DeliveredCopies(inbox, nodes[j].rooms, BusMessage(channel, b), c);
    }
  }

  lemma DeliveredCopies(inbox: map<Client, seq<Payload>>, rooms: Rooms, msg: BusMessage, c: Client)
    ensures Inbox(Deliver(inbox, rooms, msg), c)
         == Inbox(inbox, c) + Repeat(msg.payload, RouteCopies(rooms, RouteOf(msg.channel), c))
  {
  }

  /**
   ServeWS keys a client by the raw query string while messages are published under the
   canonical text of the id, so a client gets them exactly when it connected with that text.
   */
  lemma OnlyCanonicalKeyReceives<Uuid>(rooms: Rooms, c: Client, parse: string -> Option<Uuid>, text: Uuid -> string)
    requires OwnRoomOnly(rooms) && c in Everyone(rooms)
    requires parse(c.convID).Some?
    ensures RouteCopies(rooms, RouteOf(MESSAGES + text(parse(c.convID).value)), c)
         == (if c.convID == text(parse(c.convID).value) then 1 else 0)
  {
    var id := text(parse(c.convID).value);
    ChannelRoundTrip(id);
    RegisteredOnce(rooms, ToRoom(id), c);
  }

  /** The 36-character text of a UUID, with hexadecimal digits of either case (RFC 4122, section 3). */
  predicate UuidText(s: string) {
    |s| == 36 && forall i | 0 <= i < 36 :: if i in {8, 13, 18, 23} then s[i] == '-' else HexDigit(s[i])
  }

  predicate HexDigit(c: char) { '0' <= c <= '9' || 'a' <= c <= 'f' || 'A' <= c <= 'F' }

  /** A hexadecimal digit's value; -1 for the dash. */
  function DigitValue(c: char): int {
    if '0' <= c <= '9' then c as int - '0' as int
    else if 'a' <= c <= 'f' then c as int - 'a' as int + 10
    else if 'A' <= c <= 'F' then c as int - 'A' as int + 10
    else -1
  }

  /** Two texts of one UUID. */
  predicate SameUuid(a: string, b: string) {
    UuidText(a) && UuidText(b) && forall i | 0 <= i < 36 :: DigitValue(a[i]) == DigitValue(b[i])
  }

  function LowerDigit(c: char): char {
    if 'A' <= c <= 'F' then (c as int - 'A' as int + 'a' as int) as char else c
  }

  /** The canonical text of a UUID has lower-case digits. */
  function Canonical(s: string): string { seq(|s|, i requires 0 <= i < |s| => LowerDigit(s[i])) }

  predicate NoUpperCase(s: string) { forall i | 0 <= i < |s| :: !('A' <= s[i] <= 'F') }

  lemma CanonicalIsSameUuid(key: string)
    requires UuidText(key)
    ensures SameUuid(key, Canonical(key))
    ensures key == Canonical(key) <==> NoUpperCase(key)
    ensures |Canonical(key)| == |key| && forall i | 0 <= i < |key| ::
              Canonical(key)[i] as int == key[i] as int + if 'A' <= key[i] <= 'F' then 32 else 0
  {
  }

  /** A client keyed by a UUID text hears the messages of that UUID exactly when it has no upper-case digit. */
  lemma CaseDecides(rooms: Rooms, c: Client)
    requires OwnRoomOnly(rooms) && c in Everyone(rooms) && UuidText(c.convID)
    ensures SameUuid(c.convID, Canonical(c.convID))
    ensures RouteCopies(rooms, RouteOf(MESSAGES + Canonical(c.convID)), c) == if NoUpperCase(c.convID) then 1 else 0
  {
    hide RouteOf, UuidText, Canonical, SameUuid, NoUpperCase;
    CanonicalIsSameUuid(c.convID);
    ChannelRoundTrip(Canonical(c.convID));
    RegisteredOnce(rooms, ToRoom(Canonical(c.convID)), c);
  }

  const UPPER_KEY: string := "6BA7B810-9DAD-11D1-80B4-00C04FD430C8"

  /** An upper-case spelling of an id is such a key: its room never hears the messages. */
  lemma UpperCaseKeyHearsNothing(c: Client)
    requires c.convID == UPPER_KEY
    ensures SameUuid(c.convID, Canonical(c.convID))
    ensures RouteCopies(map[c.convID := {c}], RouteOf(MESSAGES + Canonical(c.convID)), c) == 0
  {
    hide RouteOf, Canonical, SameUuid, RouteCopies;
    assert UuidText(UPPER_KEY) && UPPER_KEY[1] == 'B';
    hide UuidText;
    var rooms := map[c.convID := {c}];
    assert c.convID in rooms && c in rooms[c.convID];
    CaseDecides(rooms, c);
  }
}
