/** From the bus to the screen: what a tab shows against what the servers published. */
module EndToEnd {
  import opened Prelude
  import Registry
  import Hub
  import Network
  import Publications
  import MessageList
  import ChatClient

  /** How the page reads a frame: a chat message, or an event of another kind. */
  type Decoder = Registry.Payload -> Option<MessageList.Message>

  /** The chat messages of one conversation among the frames. */
  function Chats(frames: seq<Registry.Payload>, decode: Decoder, id: string): seq<MessageList.Message> {
    if frames == [] then []
    else
      var m := decode(Last(frames));
      Chats(Init(frames), decode, id) + if m.Some? && m.value.convID == id then [m.value] else []
  }

  /** The messages a run of the list was handed, in order. */
  function Deliveries(es: seq<MessageList.Event>): seq<MessageList.Message> {
    if es == [] then []
    else Deliveries(Init(es)) + if Last(es).Delivered? then [Last(es).m] else []
  }

  /** The first occurrence of each id that `known` does not hold. */
  function FirstOccurrences(known: seq<MessageList.Message>, ms: seq<MessageList.Message>): seq<MessageList.Message> {
    if ms == [] then []
    else FirstOccurrences(known, Init(ms))
         + if MessageList.HasID(known + Init(ms), Last(ms).id) then [] else [Last(ms)]
  }

  lemma {:induction false} DeliveredMembers(es: seq<MessageList.Event>)
    ensures forall m :: m in Deliveries(es) <==> MessageList.Delivered(m) in es
  {
    if es != [] {
      DeliveredMembers(Init(es));
      assert es == Init(es) + [Last(es)];
    }
  }

  lemma FirstArrivalMeansNew(known: seq<MessageList.Message>, es: seq<MessageList.Event>)
    requires es != [] && Last(es).Delivered?
    ensures MessageList.IsFirstArrival(known, es)
       <==> !MessageList.HasID(known + Deliveries(Init(es)), Last(es).m.id)
  {
    var ms, id := Deliveries(Init(es)), Last(es).m.id;
    DeliveredMembers(Init(es));
    assert forall m :: m in known + ms <==> m in known || m in ms;
    if MessageList.IsFirstArrival(known, es) {
      forall m | m in ms
        ensures m.id != id
      {
        assert MessageList.Delivered(m) in Init(es);
      }
    }
    if !MessageList.HasID(known + ms, id) {
      assert forall m | m in known :: m in known + ms;
      forall e | e in Init(es) && e.Delivered?
        ensures e.m.id != id
      {
        assert e == MessageList.Delivered(e.m);
        assert e.m in known + ms;
      }
    }
  }

  /** Sends and failures leave no trace in the stored part: only the deliveries count. */
  lemma {:induction false} ArrivalsAreFirstOccurrences(known: seq<MessageList.Message>, es: seq<MessageList.Event>)
    ensures MessageList.FirstArrivals(known, es) == FirstOccurrences(known, Deliveries(es))
  {
    if es != [] {
      var ms, e := Deliveries(Init(es)), Last(es);
      ArrivalsAreFirstOccurrences(known, Init(es));
      if e.Delivered? {
        FirstArrivalMeansNew(known, es);
        assert Init(ms + [e.m]) == ms;
      } else {
        assert ms + [] == ms;
      }
    }
  }

  lemma {:induction false} ChatsMembers(frames: seq<Registry.Payload>, decode: Decoder, id: string)
    ensures forall m :: m in Chats(frames, decode, id) <==>
              exists f | f in frames :: decode(f) == Some(m) && m.convID == id
  {
    if frames != [] {
      ChatsMembers(Init(frames), decode, id);
      assert frames == Init(frames) + [Last(frames)];
    }
  }

  lemma {:induction false} OccurrenceIDs(known: seq<MessageList.Message>, ms: seq<MessageList.Message>)
    ensures forall m | m in FirstOccurrences(known, ms) :: m in ms
    ensures forall m | m in ms :: MessageList.HasID(known + FirstOccurrences(known, ms), m.id)
  {
    if ms != [] {
      var before, m, firsts := Init(ms), Last(ms), FirstOccurrences(known, Init(ms));
      OccurrenceIDs(known, before);
      assert ms == before + [m];
      assert forall x | x in known + firsts :: x in known + FirstOccurrences(known, ms);
      if MessageList.HasID(known + before, m.id) {
        var x :| x in known + before && x.id == m.id;
        assert x in known ==> x in known + firsts;
        assert x in before ==> MessageList.HasID(known + firsts, m.id);
      } else {
        assert m in FirstOccurrences(known, ms);
        assert m in known + FirstOccurrences(known, ms);
      }
    }
  }

  /** What the servers issued to a connection, as chat messages of one conversation. */
  function IssuedChats(actions: seq<Network.Action>, i: nat, c: Registry.Client, decode: Decoder, id: string)
    : seq<MessageList.Message>
  {
    Chats(Network.MeantFor(Network.Issued(actions, i), c), decode, id)
  }

  /**
   A tab on connection c at instance i: up throughout, its queue drained at the end, its list
   handed exactly the chat messages of the frames it received.
   */
  ghost predicate Watching(net: Network.Net, actions: seq<Network.Action>, i: nat, c: Registry.Client,
                           decode: Decoder, id: string, es: seq<MessageList.Event>)
  {
    && Network.Attached(net, i, c) && Network.Holdings(net, i, c) == []
    && (forall k | 0 <= k < |actions| :: !Network.Involves(actions[k], c))
    && i < |Network.Run(net, actions).nodes| && Network.Run(net, actions).nodes[i].queue == []
    && MessageList.Tagged(es)
    && Deliveries(es) == Chats(Network.Inbox(Network.Run(net, actions).inbox, c), decode, id)
  }

  /** Every run of a connected tab can be brought there: its instance relays what waits and the tab reads it. */
  lemma DrainedTabIsWatching(net: Network.Net, actions: seq<Network.Action>, i: nat, c: Registry.Client,
                             decode: Decoder, id: string, es: seq<MessageList.Event>)
    requires Network.Attached(net, i, c) && Network.Holdings(net, i, c) == []
    requires forall k | 0 <= k < |actions| :: !Network.Involves(actions[k], c)
    requires MessageList.Tagged(es)
    requires var inbox := Network.Run(net, Network.Drained(net, actions, i)).inbox;
             Deliveries(es) == Chats(Network.Inbox(inbox, c), decode, id)
    ensures Watching(net, Network.Drained(net, actions, i), i, c, decode, id, es)
    ensures Network.Issued(Network.Drained(net, actions, i), i) == Network.Issued(actions, i)
  {
    hide Network.Run, Network.Holdings, Network.Issued, MessageList.Tagged, Deliveries, Chats;
    Network.EverythingArrives(net, actions, i, c);
    Network.NodesStay(net, actions);
    Network.RelaysIssueNothing(actions, i, |Network.Run(net, actions).nodes[i].queue|, i);
  }

  lemma HeldWhenDrained(net: Network.Net, i: nat, c: Registry.Client)
    requires i < |net.nodes| && net.nodes[i].queue == []
    ensures Network.Holdings(net, i, c) == Network.Inbox(net.inbox, c)
  {
  }

  /** Every frame issued is received, as often as it was issued, so the same chat messages are handed over. */
  lemma DeliveriesAreIssued(net: Network.Net, actions: seq<Network.Action>, i: nat, c: Registry.Client,
                            decode: Decoder, id: string, es: seq<MessageList.Event>)
    requires Watching(net, actions, i, c, decode, id, es)
    ensures forall m :: m in Deliveries(es) <==> m in IssuedChats(actions, i, c, decode, id)
  {
    hide Network.Step, Network.MeantFor, Network.Issued;
    Network.ExactlyOnce(net, actions, i, c);
    HeldWhenDrained(Network.Run(net, actions), i, c);
    var got := Network.Inbox(Network.Run(net, actions).inbox, c);
    var issued := Network.MeantFor(Network.Issued(actions, i), c);
    assert multiset(got) == multiset(issued);
    assert forall f :: f in got <==> f in multiset(got);
    assert forall f :: f in issued <==> f in multiset(issued);
    ChatsMembers(got, decode, id);
    ChatsMembers(issued, decode, id);
  }

  /**
   End to end, for every run: the tab shows the messages it started from and every message issued
   for its conversation, no other, and each id once, whatever was retried, sent twice or overtaken.
   */
  lemma TabShowsEveryMessageOnce(net: Network.Net, actions: seq<Network.Action>, i: nat, c: Registry.Client,
                                 decode: Decoder, id: string,
                                 list: seq<MessageList.Message>, es: seq<MessageList.Event>)
    requires Watching(net, actions, i, c, decode, id, es)
    ensures var start, shown := MessageList.ServerPart(list), MessageList.ServerPart(MessageList.Run(list, es));
            && start <= shown
            && (forall m | m in shown :: m in start || m in IssuedChats(actions, i, c, decode, id))
            && (forall m | m in IssuedChats(actions, i, c, decode, id) :: MessageList.HasID(shown, m.id))
            && (MessageList.DistinctIDs(start) ==> MessageList.DistinctIDs(shown))
  {
    hide MessageList.Run, MessageList.ServerPart, MessageList.LocalID, IssuedChats;
    DeliveriesAreIssued(net, actions, i, c, decode, id, es);
    MessageList.StoredPartIsFirstArrivals(list, es);
    ArrivalsAreFirstOccurrences(MessageList.ServerPart(list), es);
    OccurrenceIDs(MessageList.ServerPart(list), Deliveries(es));
    if MessageList.DistinctIDs(MessageList.ServerPart(list)) {
      MessageList.StoredIDsStayDistinct(list, es);
    }
    hide *;
  }

  // ------------------------------------------------------------- whole calls of PublishMessage

  /** The call's message is a chat message with this id for the tab's conversation. */
  ghost predicate Carries(p: Publications.Publication, c: Registry.Client, decode: Decoder, id: string, x: string) {
    && Registry.Addresses(Registry.RouteOf(p.msg.channel), c)
    && var m := decode(p.msg.payload);
       m.Some? && m.value.convID == id && m.value.id == x
  }

  lemma {:induction false} MeantMembers(msgs: seq<Hub.BusMessage>, c: Registry.Client)
    ensures forall f :: f in Network.MeantFor(msgs, c) <==>
              exists msg | msg in msgs :: Registry.Addresses(Registry.RouteOf(msg.channel), c) && msg.payload == f
  {
    hide Registry.RouteOf, Registry.Addresses;
    if msgs != [] {
      MeantMembers(Init(msgs), c);
      assert msgs == Init(msgs) + [Last(msgs)];
    }
  }

  /** The ids issued to a tab are those of the calls that reach its instance. */
  lemma IssuedIDs(actions: seq<Network.Action>, ps: seq<Publications.Publication>, i: nat, c: Registry.Client,
                  decode: Decoder, id: string, x: string)
    requires Publications.CarriesOut(actions, ps)
    ensures MessageList.HasID(IssuedChats(actions, i, c, decode, id), x)
       <==> exists p | p in ps :: Publications.Reaches(p, i) && Carries(p, c, decode, id, x)
  {
    hide Registry.RouteOf, Registry.Addresses, Publications.Reaches;
    var msgs := Network.Issued(actions, i);
    var frames := Network.MeantFor(msgs, c);
    Publications.IssuedExactly(actions, ps, i);
    MeantMembers(msgs, c);
    ChatsMembers(frames, decode, id);
    hide Publications.CarriesOut, Network.MeantFor, Chats, Network.Issued;
    if MessageList.HasID(Chats(frames, decode, id), x) {
      var m :| m in Chats(frames, decode, id) && m.id == x;
      var f :| f in frames && decode(f) == Some(m) && m.convID == id;
      var msg :| msg in msgs && Registry.Addresses(Registry.RouteOf(msg.channel), c) && msg.payload == f;
      var p :| p in ps && p.msg == msg && Publications.Reaches(p, i);
      assert Carries(p, c, decode, id, x);
    }
    if exists p | p in ps :: Publications.Reaches(p, i) && Carries(p, c, decode, id, x) {
      var p :| p in ps && Publications.Reaches(p, i) && Carries(p, c, decode, id, x);
      assert p.msg in msgs;
      assert p.msg.payload in frames;
      assert decode(p.msg.payload).value in Chats(frames, decode, id);
    }
  }

  /**
   End to end for published messages, exactly: the ids a tab shows are those it started with and
   those of the messages whose publication reached its instance, by the bus or because the call
   was its own.
   */
  lemma TabShowsWhatReachesIt(net: Network.Net, actions: seq<Network.Action>, ps: seq<Publications.Publication>,
                              i: nat, c: Registry.Client, decode: Decoder, id: string,
                              list: seq<MessageList.Message>, es: seq<MessageList.Event>)
    requires Watching(net, actions, i, c, decode, id, es) && Publications.CarriesOut(actions, ps)
    ensures forall x :: MessageList.HasID(MessageList.ServerPart(MessageList.Run(list, es)), x) <==>
              || MessageList.HasID(MessageList.ServerPart(list), x)
              || exists p | p in ps :: Publications.Reaches(p, i) && Carries(p, c, decode, id, x)
  {
    TabShowsEveryMessageOnce(net, actions, i, c, decode, id, list, es);
    var start, shown := MessageList.ServerPart(list), MessageList.ServerPart(MessageList.Run(list, es));
    var issued := IssuedChats(actions, i, c, decode, id);
    hide MessageList.Run, MessageList.ServerPart, IssuedChats, Watching, Carries, Publications.Reaches;
    forall x
      ensures MessageList.HasID(shown, x) <==>
              || MessageList.HasID(start, x)
              || exists p | p in ps :: Publications.Reaches(p, i) && Carries(p, c, decode, id, x)
    {
      IssuedIDs(actions, ps, i, c, decode, id, x);
      assert forall m | m in start :: m in shown;
      assert MessageList.HasID(shown, x) <==> MessageList.HasID(start, x) || MessageList.HasID(issued, x);
    }
  }

  /** Each message is published by one call and new to the tab. */
  ghost predicate PublishedOnce(ps: seq<Publications.Publication>, c: Registry.Client, decode: Decoder, id: string,
                                start: seq<MessageList.Message>)
  {
    && (forall p, q, x | p in ps && q in ps && Carries(p, c, decode, id, x) && Carries(q, c, decode, id, x) :: p == q)
    && (forall p, x | p in ps && Carries(p, c, decode, id, x) :: !MessageList.HasID(start, x))
  }

  /**
   So the tab misses none of its conversation's messages if and only if every call for it either
   had an attempt taken by the bus or was made on the tab's own instance.
   */
  lemma NothingMissedExactly(net: Network.Net, actions: seq<Network.Action>, ps: seq<Publications.Publication>,
                             i: nat, c: Registry.Client, decode: Decoder, id: string,
                             list: seq<MessageList.Message>, es: seq<MessageList.Event>)
    requires Watching(net, actions, i, c, decode, id, es) && Publications.CarriesOut(actions, ps)
    requires PublishedOnce(ps, c, decode, id, MessageList.ServerPart(list))
    ensures (forall p, x | p in ps && Carries(p, c, decode, id, x) ::
               MessageList.HasID(MessageList.ServerPart(MessageList.Run(list, es)), x))
       <==> (forall p, x | p in ps && Carries(p, c, decode, id, x) :: Publications.Reaches(p, i))
  {
    TabShowsWhatReachesIt(net, actions, ps, i, c, decode, id, list, es);
    hide MessageList.Run, MessageList.ServerPart, Watching, Carries, Publications.Reaches, Publications.CarriesOut;
  }

  /**
   The sender's own tab, too: once its sends are answered and its queue is drained, the list on the
   page holds its stored start, then every message whose publication reached its instance, no
   provisional entry and no id twice.
   */
  lemma AnsweredTabShowsWhatReachesIt(net: Network.Net, actions: seq<Network.Action>,
                                      ps: seq<Publications.Publication>, i: nat, c: Registry.Client,
                                      decode: Decoder, id: string, v: ChatClient.View, page: seq<ChatClient.Action>)
    requires Watching(net, actions, i, c, decode, id, ChatClient.EventsFor(v, page, id))
    requires Publications.CarriesOut(actions, ps)
    requires ChatClient.HonestPage(v, page) && ChatClient.NotReplaced(v, page, id)
    requires MessageList.ServerPart(ChatClient.ListOf(v.messages, id)) == ChatClient.ListOf(v.messages, id)
    requires MessageList.DistinctIDs(ChatClient.ListOf(v.messages, id))
    requires forall m | m in ChatClient.Shown(v, page) && m.convID == id ::
               && ChatClient.PageFits(v, page, id, MessageList.Key(m.authorID, m.body))
               && ChatClient.PageAwaited(v, page, id, MessageList.Key(m.authorID, m.body)) == 0
    ensures var start := ChatClient.ListOf(v.messages, id);
            var final := ChatClient.ListOf(ChatClient.RunView(v, page).messages, id);
            && start <= final
            && (forall m | m in final :: !MessageList.IsLocal(m))
            && MessageList.DistinctIDs(final)
            && (forall x :: MessageList.HasID(final, x) <==>
                  || MessageList.HasID(start, x)
                  || exists p | p in ps :: Publications.Reaches(p, i) && Carries(p, c, decode, id, x))
  {
    var start, es := ChatClient.ListOf(v.messages, id), ChatClient.EventsFor(v, page, id);
    var final := ChatClient.ListOf(ChatClient.RunView(v, page).messages, id);
    ChatClient.PageSettles(v, page, id);
    ChatClient.ListsAreIndependent(v, page, id);
    MessageList.StoredPartIsFirstArrivals(start, es);
    assert MessageList.ServerPart(final) == final;
    MessageList.ServerPartMembers(final);
    MessageList.StoredIDsStayDistinct(start, es);
    TabShowsWhatReachesIt(net, actions, ps, i, c, decode, id, start, es);
  }
}
