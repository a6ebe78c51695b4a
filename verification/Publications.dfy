/** Whole calls of PublishMessage inside network runs, and which instances a message reaches. */
module Publications {
  import opened Prelude
  import opened Registry
  import opened Hub
  import opened Network

  /** One call on instance `node`, with what each of its attempts would do. */
  datatype Publication = Publication(node: nat, msg: BusMessage, outcomes: seq<Outcome>)

  predicate WellFormed(p: Publication) {
    |p.outcomes| == 5 && Subscribed(p.msg.channel)
  }

  /** The attempts made: up to the first acknowledgement. */
  function Performed(outcomes: seq<Outcome>): seq<Outcome> {
    outcomes[..Min(Failures(outcomes) + 1, |outcomes|)]
  }

  /** The steps of one call: every attempt the bus took, and the local broadcast if none was acknowledged. */
  function Publishing(p: Publication): seq<Action> {
    Repeat(Accept(p.msg), Taken(Performed(p.outcomes)))
    + if Failures(p.outcomes) == |p.outcomes| then [Fallback(p.node, p.msg)] else []
  }

  /** Some attempt was taken, or the instance is the caller's own. */
  predicate Reaches(p: Publication, i: nat) {
    Taken(Performed(p.outcomes)) > 0 || p.node == i
  }

  lemma TakenLast(outcomes: seq<Outcome>)
    requires outcomes != [] && Last(outcomes) == Acked
    ensures Taken(outcomes) > 0
  {
  }

  lemma PublishingSteps(p: Publication)
    requires WellFormed(p)
    ensures forall a :: a in Publishing(p) <==>
              || (a == Accept(p.msg) && Taken(Performed(p.outcomes)) > 0)
              || (a == Fallback(p.node, p.msg) && Failures(p.outcomes) == |p.outcomes|)
    ensures Failures(p.outcomes) < |p.outcomes| ==> Taken(Performed(p.outcomes)) > 0
  {
    var n, k := Taken(Performed(p.outcomes)), Failures(p.outcomes);
    if k < |p.outcomes| {
      TakenLast(Performed(p.outcomes));
    }
    var copies := Repeat(Accept(p.msg), n);
    assert n > 0 ==> copies[0] == Accept(p.msg);
    assert forall a :: a in Publishing(p) <==> a in copies || (k == |p.outcomes| && a == Fallback(p.node, p.msg));
  }

  /**
   A call's steps in a network do what PublishMessage does: every queue grows by one copy per attempt
   taken, and after five failures, and only then, the clients of the caller's instance get the frame.
   */
  lemma PublishingIsTheCall(net: Net, p: Publication, c: Client)
    requires WellFormed(p) && p.node < |net.nodes|
    ensures var k, after := Failures(p.outcomes), Run(net, Publishing(p));
            var attempts := if k < 5 then k + 1 else 5;
            && |after.nodes| == |net.nodes|
            && (forall j | 0 <= j < |net.nodes| ::
                  && after.nodes[j].rooms == net.nodes[j].rooms
                  && after.nodes[j].queue == net.nodes[j].queue + Repeat(p.msg, Taken(p.outcomes[..attempts])))
            && Inbox(after.inbox, c)
               == Inbox(net.inbox, c) + if k < 5 then [] else
                    Repeat(p.msg.payload, RouteCopies(net.nodes[p.node].rooms, RouteOf(p.msg.channel), c))
  {
    hide Subscribed, RouteOf, RouteCopies, Failures, Taken, Deliver;
    var n := Taken(Performed(p.outcomes));
    AcceptsQueue(net, p.msg, n);
    var queued := Run(net, Repeat(Accept(p.msg), n));
    if Failures(p.outcomes) == 5 {
      RunSnoc(net, Repeat(Accept(p.msg), n), Fallback(p.node, p.msg));
      DeliveredCopies(queued.inbox, queued.nodes[p.node].rooms, p.msg, c);
    } else {
      assert Publishing(p) == Repeat(Accept(p.msg), n);
    }
  }

  lemma {:induction false} AcceptsQueue(net: Net, msg: BusMessage, n: nat)
    requires Subscribed(msg.channel)
    ensures var after := Run(net, Repeat(Accept(msg), n));
            && after.inbox == net.inbox && |after.nodes| == |net.nodes|
            && forall j | 0 <= j < |net.nodes| ::
                 after.nodes[j] == Node(net.nodes[j].rooms, net.nodes[j].queue + Repeat(msg, n))
  {
    hide Subscribed;
    if n > 0 {
      AcceptsQueue(net, msg, n - 1);
      assert Repeat(Accept(msg), n) == Repeat(Accept(msg), n - 1) + [Accept(msg)];
      RunSnoc(net, Repeat(Accept(msg), n - 1), Accept(msg));
      assert Repeat(msg, n) == Repeat(msg, n - 1) + [msg];
    } else {
      assert forall j | 0 <= j < |net.nodes| :: net.nodes[j].queue + [] == net.nodes[j].queue;
    }
  }

  lemma {:induction false} IssuedMembers(actions: seq<Action>, i: nat)
    ensures forall msg :: msg in Issued(actions, i) <==>
              (Accept(msg) in actions && Subscribed(msg.channel)) || Fallback(i, msg) in actions
  {
    hide Subscribed;
    if actions != [] {
      IssuedMembers(Init(actions), i);
      assert actions == Init(actions) + [Last(actions)];
      var before, more := Issued(Init(actions), i), IssuedBy(Last(actions), i);
      assert forall msg :: msg in before + more <==> msg in before || msg in more;
    }
  }

  /** A call issues its message, and no other, to exactly the instances it reaches. */
  lemma PublishingReachesExactly(p: Publication, i: nat)
    requires WellFormed(p)
    ensures forall msg :: msg in Issued(Publishing(p), i) <==> msg == p.msg && Reaches(p, i)
  {
    hide Subscribed, Performed, Failures;
    PublishingSteps(p);
    IssuedMembers(Publishing(p), i);
    hide Publishing;
  }

  // --------------------------------------------------------------- many calls, interleaved

  predicate OnBus(a: Action) { a.Accept? || a.Fallback? }

  function BusActions(actions: seq<Action>): seq<Action> {
    if actions == [] then []
    else BusActions(Init(actions)) + if OnBus(Last(actions)) then [Last(actions)] else []
  }

  function AllSteps(ps: seq<Publication>): seq<Action> {
    if ps == [] then [] else AllSteps(Init(ps)) + Publishing(Last(ps))
  }

  /** The run carries out these calls, their steps interleaved in any way with everything else. */
  ghost predicate CarriesOut(actions: seq<Action>, ps: seq<Publication>) {
    && (forall p | p in ps :: WellFormed(p))
    && multiset(BusActions(actions)) == multiset(AllSteps(ps))
  }

  lemma {:induction false} BusConcat(a: seq<Action>, b: seq<Action>)
    ensures BusActions(a + b) == BusActions(a) + BusActions(b)
  {
    if b == [] {
      assert a + b == a;
    } else {
      BusConcat(a, Init(b));
      assert Init(a + b) == a + Init(b);
    }
  }

  lemma {:induction false} AllOnBus(actions: seq<Action>)
    requires forall k | 0 <= k < |actions| :: OnBus(actions[k])
    ensures BusActions(actions) == actions
  {
    if actions != [] {
      AllOnBus(Init(actions));
      assert actions == Init(actions) + [Last(actions)];
    }
  }

  /** One call after another is one such run, and any calls can be carried out. */
  lemma {:induction false} InTurn(ps: seq<Publication>)
    requires forall p | p in ps :: |p.outcomes| == 5 && Subscribed(p.msg.channel)
    ensures BusActions(AllSteps(ps)) == AllSteps(ps)
    ensures CarriesOut(AllSteps(ps), ps)
  {
    if ps != [] {
      hide Publishing, Subscribed;
      assert forall p | p in Init(ps) :: p in ps;
      InTurn(Init(ps));
      BusConcat(AllSteps(Init(ps)), Publishing(Last(ps)));
      StepsOnBus(Last(ps));
      AllOnBus(Publishing(Last(ps)));
    }
  }

  /** Two neighbouring steps may change places, and steps that publish nothing may come in anywhere. */
  lemma AnyInterleaving(before: seq<Action>, x: Action, y: Action, after: seq<Action>, ps: seq<Publication>)
    ensures CarriesOut(before + [x] + [y] + after, ps) <==> CarriesOut(before + [y] + [x] + after, ps)
    ensures !OnBus(x) ==> (CarriesOut(before + [x] + after, ps) <==> CarriesOut(before + after, ps))
  {
    hide CarriesOut, BusActions;
    BagOfFour(before, [x], [y], after);
    BagOfFour(before, [y], [x], after);
    SameBag(before + [x] + [y] + after, before + [y] + [x] + after, ps);
    if !OnBus(x) {
      SilentBag(before, x, after);
      SameBag(before + [x] + after, before + after, ps);
    }
  }

  lemma SilentBag(before: seq<Action>, x: Action, after: seq<Action>)
    requires !OnBus(x)
    ensures multiset(BusActions(before + [x] + after)) == multiset(BusActions(before + after))
  {
    assert BusActions([x]) == [] by {
      assert Init([x]) == [];
    }
    hide BusActions;
    BusConcat(before + [x], after);
    BusConcat(before, [x]);
    BusConcat(before, after);
  }

  lemma SameBag(a: seq<Action>, b: seq<Action>, ps: seq<Publication>)
    requires multiset(BusActions(a)) == multiset(BusActions(b))
    ensures CarriesOut(a, ps) <==> CarriesOut(b, ps)
  {
  }

  lemma BagOfFour(a: seq<Action>, b: seq<Action>, c: seq<Action>, d: seq<Action>)
    ensures multiset(BusActions(a + b + c + d))
         == multiset(BusActions(a)) + multiset(BusActions(b)) + multiset(BusActions(c)) + multiset(BusActions(d))
  {
    hide BusActions;
    BusConcat(a + b + c, d);
    BusConcat(a + b, c);
    BusConcat(a, b);
  }

  lemma StepsOnBus(p: Publication)
    ensures forall k | 0 <= k < |Publishing(p)| :: OnBus(Publishing(p)[k])
  {
  }

  lemma {:induction false} BusMembers(actions: seq<Action>)
    ensures forall a :: a in BusActions(actions) <==> a in actions && OnBus(a)
  {
    if actions != [] {
      BusMembers(Init(actions));
      assert actions == Init(actions) + [Last(actions)];
    }
  }

  lemma {:induction false} StepsMembers(ps: seq<Publication>)
    ensures forall a :: a in AllSteps(ps) <==> exists p | p in ps :: a in Publishing(p)
  {
    hide Publishing;
    if ps != [] {
      StepsMembers(Init(ps));
      assert ps == Init(ps) + [Last(ps)];
      assert Last(ps) in ps;
    }
  }

  lemma IssuedOne(actions: seq<Action>, ps: seq<Publication>, i: nat, msg: BusMessage)
    requires CarriesOut(actions, ps)
    ensures msg in Issued(actions, i) <==> exists p | p in ps :: p.msg == msg && Reaches(p, i)
  {
    IssuedMembers(actions, i);
    StepsOfCalls(actions, ps, Accept(msg));
    StepsOfCalls(actions, ps, Fallback(i, msg));
    hide Subscribed, Publishing, Reaches, Issued, AllSteps, BusActions;
    if msg in Issued(actions, i) {
      var p :| p in ps && (Accept(msg) in Publishing(p) || Fallback(i, msg) in Publishing(p));
      CallReaches(p, msg, i);
    }
    if exists p | p in ps :: p.msg == msg && Reaches(p, i) {
      var p :| p in ps && p.msg == msg && Reaches(p, i);
      CallReaches(p, msg, i);
      assert Accept(msg) in Publishing(p) || Fallback(i, msg) in Publishing(p);
    }
  }

  /** In every interleaving an instance's clients are issued exactly the messages whose calls reach it. */
  lemma IssuedExactly(actions: seq<Action>, ps: seq<Publication>, i: nat)
    requires CarriesOut(actions, ps)
    ensures forall msg :: msg in Issued(actions, i) <==> exists p | p in ps :: p.msg == msg && Reaches(p, i)
  {
    hide Issued, Reaches, CarriesOut;
    forall msg
      ensures msg in Issued(actions, i) <==> exists p | p in ps :: p.msg == msg && Reaches(p, i)
    {
      IssuedOne(actions, ps, i, msg);
    }
  }

  lemma StepsOfCalls(actions: seq<Action>, ps: seq<Publication>, a: Action)
    requires CarriesOut(actions, ps) && OnBus(a)
    ensures a in actions <==> exists p | p in ps :: a in Publishing(p)
  {
    hide Publishing, WellFormed;
    BusMembers(actions);
    StepsMembers(ps);
    assert a in BusActions(actions) <==> a in multiset(BusActions(actions));
    assert a in AllSteps(ps) <==> a in multiset(AllSteps(ps));
  }

  lemma CallReaches(p: Publication, msg: BusMessage, i: nat)
    requires WellFormed(p)
    ensures Accept(msg) in Publishing(p) || Fallback(i, msg) in Publishing(p) <==> p.msg == msg && Reaches(p, i)
    ensures Accept(msg) in Publishing(p) ==> Subscribed(msg.channel)
  {
    hide Subscribed, Performed, Failures;
    PublishingSteps(p);
    hide Publishing;
  }

  /** Five refusals: nothing on the bus, one broadcast. */
  function AllRefused(node: nat, msg: BusMessage): Publication { Publication(node, msg, Repeat(Refused, 5)) }

  /** One client of the conversation on each of two instances. */
  function TwoTabs(d: Client, c: Client): Net {
    Net([Node(map[d.convID := {d}], []), Node(map[c.convID := {c}], [])], map[])
  }

  /**
   Five refusals on one instance: its own client of the conversation gets the message, the client
   on the other instance never does, and nothing is on its way to it.
   */
  lemma OtherInstanceNeverHears(c: Client, d: Client, b: Payload)
    requires c != d && c.convID == d.convID
    ensures var p, net := AllRefused(0, BusMessage(MESSAGES + c.convID, b)), TwoTabs(d, c);
            && WellFormed(p) && !Reaches(p, 1)
            && Inbox(Run(net, Publishing(p)).inbox, d) == [b]
            && Inbox(Run(net, Publishing(p)).inbox, c) == []
            && Run(net, Publishing(p)).nodes == net.nodes
  {
    var msg := BusMessage(MESSAGES + c.convID, b);
    var rooms := map[d.convID := {d}];
    ChannelRoundTrip(c.convID);
    RefusedSteps(0, msg);
    hide Subscribed, RouteOf, Publishing, Performed, Taken;
    OneFallback(TwoTabs(d, c), msg);
    hide Run;
    BroadcastToOne(rooms, d, c, msg);
    hide Deliver;
  }

  lemma BroadcastToOne(rooms: Rooms, d: Client, c: Client, msg: BusMessage)
    requires c != d && rooms == map[d.convID := {d}] && RouteOf(msg.channel) == ToRoom(d.convID)
    ensures Inbox(Deliver(map[], rooms, msg), d) == [msg.payload]
    ensures Inbox(Deliver(map[], rooms, msg), c) == []
  {
    OneFrame(rooms, d, msg);
    hide RouteOf, RouteCopies;
    assert Inbox(map[], d) == [];
    assert c !in Everyone(rooms);
  }

  lemma OneFallback(net: Net, msg: BusMessage)
    requires net.nodes != []
    ensures Run(net, [Fallback(0, msg)]) == Net(net.nodes, Deliver(net.inbox, net.nodes[0].rooms, msg))
  {
  }

  lemma RefusedSteps(node: nat, msg: BusMessage)
    ensures Taken(Performed(AllRefused(node, msg).outcomes)) == 0
    ensures Publishing(AllRefused(node, msg)) == [Fallback(node, msg)]
  {
    var outcomes := AllRefused(node, msg).outcomes;
    FailuresUnique(outcomes, 5);
    assert outcomes[..5] == outcomes;
    NoneTaken(outcomes);
  }

  lemma {:induction false} NoneTaken(outcomes: seq<Outcome>)
    requires forall o | o in outcomes :: o == Refused
    ensures Taken(outcomes) == 0
  {
    if outcomes != [] {
      assert Last(outcomes) in outcomes && forall o | o in Init(outcomes) :: o in outcomes;
      NoneTaken(Init(outcomes));
    }
  }
}
