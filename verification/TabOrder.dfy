/** Whether a tab shows its messages in the order in which they were issued. */
module TabOrder {
  import opened Prelude
  import opened EndToEnd
  import Registry
  import Network
  import MessageList

  lemma HasIDConcat(a: seq<MessageList.Message>, b: seq<MessageList.Message>, x: string)
    ensures MessageList.HasID(a + b, x) <==> MessageList.HasID(a, x) || MessageList.HasID(b, x)
  {
  }

  lemma {:induction false} OccurrencesConcat(known: seq<MessageList.Message>, a: seq<MessageList.Message>,
                                             b: seq<MessageList.Message>)
    ensures FirstOccurrences(known, a + b) == FirstOccurrences(known, a) + FirstOccurrences(known + a, b)
  {
    hide MessageList.HasID;
    if b == [] {
      assert a + b == a;
    } else {
      assert Init(a + b) == a + Init(b);
      assert known + (a + Init(b)) == (known + a) + Init(b);
      OccurrencesConcat(known, a, Init(b));
    }
  }

  /** Only the ids already known matter. */
  lemma {:induction false} OccurrencesByID(k1: seq<MessageList.Message>, k2: seq<MessageList.Message>,
                                           ms: seq<MessageList.Message>)
    requires forall x :: MessageList.HasID(k1, x) <==> MessageList.HasID(k2, x)
    ensures FirstOccurrences(k1, ms) == FirstOccurrences(k2, ms)
  {
    hide MessageList.HasID;
    if ms != [] {
      OccurrencesByID(k1, k2, Init(ms));
      HasIDConcat(k1, Init(ms), Last(ms).id);
      HasIDConcat(k2, Init(ms), Last(ms).id);
    }
  }

  /** Once its first new message is known, the rest of the new ones are as before. */
  lemma {:induction false} FirstNewKnown(known: seq<MessageList.Message>, m: MessageList.Message,
                                         ms: seq<MessageList.Message>)
    ensures FirstOccurrences(known, ms) == [] ==> FirstOccurrences(known + [m], ms) == []
    ensures FirstOccurrences(known, ms) != [] && FirstOccurrences(known, ms)[0] == m ==>
              m in ms && FirstOccurrences(known + [m], ms) == FirstOccurrences(known, ms)[1..]
  {
    if ms != [] {
      var before, x := Init(ms), Last(ms);
      FirstNewKnown(known, m, before);
      assert ms == before + [x];
      HasIDConcat(known, before, x.id);
      HasIDConcat(known + [m], before, x.id);
      HasIDConcat(known, [m], x.id);
      assert MessageList.HasID([m], x.id) <==> m.id == x.id by {
        assert forall y :: y in [m] <==> y == m;
      }
      assert m in before ==> MessageList.HasID(before, m.id);
      hide MessageList.HasID;
      if FirstOccurrences(known, before) != [] {
        assert FirstOccurrences(known, ms)[0] == FirstOccurrences(known, before)[0];
      }
    }
  }

  lemma OneOccurrence(known: seq<MessageList.Message>, m: MessageList.Message)
    ensures FirstOccurrences(known, [m]) == if MessageList.HasID(known, m.id) then [] else [m]
  {
  }

  lemma Cancel(base: seq<MessageList.Message>, x: seq<MessageList.Message>, y: seq<MessageList.Message>)
    ensures base + x == base + y <==> x == y
  {
    assert (base + x)[|base|..] == x && (base + y)[|base|..] == y;
  }

  lemma AheadOfWaiting(known: seq<MessageList.Message>, got: seq<MessageList.Message>,
                       waiting: seq<MessageList.Message>, m: MessageList.Message)
    ensures var k := known + got;
            FirstOccurrences(known, got + [m] + waiting)
            == FirstOccurrences(known, got)
               + ((if MessageList.HasID(k, m.id) then [] else [m]) + FirstOccurrences(k + [m], waiting))
  {
    hide MessageList.HasID, FirstOccurrences;
    OccurrencesConcat(known, got + [m], waiting);
    OccurrencesConcat(known, got, [m]);
    OneOccurrence(known + got, m);
    assert known + (got + [m]) == known + got + [m];
  }

  lemma BehindWaiting(known: seq<MessageList.Message>, got: seq<MessageList.Message>,
                      waiting: seq<MessageList.Message>, m: MessageList.Message)
    ensures var k := known + got;
            FirstOccurrences(known, got + waiting + [m])
            == FirstOccurrences(known, got)
               + (FirstOccurrences(k, waiting) + if MessageList.HasID(k + waiting, m.id) then [] else [m])
  {
    hide MessageList.HasID, FirstOccurrences;
    OccurrencesConcat(known, got + waiting, [m]);
    OccurrencesConcat(known, got, waiting);
    OneOccurrence(known + (got + waiting), m);
    assert known + (got + waiting) == known + got + waiting;
  }

  /** Where a message ends up among the new ones, ahead of or behind those that wait. */
  lemma SamePlace(k: seq<MessageList.Message>, waiting: seq<MessageList.Message>, m: MessageList.Message)
    ensures var news := FirstOccurrences(k, waiting);
            var one := if MessageList.HasID(k, m.id) then [] else [m];
            var last := if MessageList.HasID(k + waiting, m.id) then [] else [m];
            one + FirstOccurrences(k + [m], waiting) == news + last
            <==> MessageList.HasID(k, m.id) || news == [] || news[0] == m
  {
    var news := FirstOccurrences(k, waiting);
    FirstNewKnown(k, m, waiting);
    HasIDConcat(k, waiting, m.id);
    if MessageList.HasID(k, m.id) {
      forall x
        ensures MessageList.HasID(k + [m], x) <==> MessageList.HasID(k, x)
      {
        HasIDConcat(k, [m], x);
      }
      OccurrencesByID(k + [m], k, waiting);
    } else if news == [] {
      OccurrenceIDs(k, waiting);
      assert k + news == k;
      assert MessageList.HasID(waiting, m.id) ==> MessageList.HasID(k, m.id);
    } else {
      hide FirstOccurrences;
      var last := if MessageList.HasID(k + waiting, m.id) then [] else [m];
      assert (news + last)[0] == news[0];
      assert news == [news[0]] + news[1..] == news + [];
      assert news[0] == m ==> MessageList.HasID(waiting, m.id);
    }
  }

  /** A message put ahead of the waiting ones changes what is shown exactly when a different new one waits first. */
  lemma JumpExactly(known: seq<MessageList.Message>, got: seq<MessageList.Message>, waiting: seq<MessageList.Message>,
                    m: MessageList.Message)
    ensures var news := FirstOccurrences(known + got, waiting);
            FirstOccurrences(known, got + [m] + waiting) == FirstOccurrences(known, got + waiting + [m])
            <==> MessageList.HasID(known + got, m.id) || news == [] || news[0] == m
  {
    hide MessageList.HasID, FirstOccurrences;
    var k := known + got;
    AheadOfWaiting(known, got, waiting, m);
    BehindWaiting(known, got, waiting, m);
    SamePlace(k, waiting, m);
    Cancel(FirstOccurrences(known, got),
           (if MessageList.HasID(k, m.id) then [] else [m]) + FirstOccurrences(k + [m], waiting),
           FirstOccurrences(k, waiting) + if MessageList.HasID(k + waiting, m.id) then [] else [m]);
  }

  // ------------------------------------------------------------------------- network runs

  lemma {:induction false} ChatsConcat(a: seq<Registry.Payload>, b: seq<Registry.Payload>, decode: Decoder, id: string)
    ensures Chats(a + b, decode, id) == Chats(a, decode, id) + Chats(b, decode, id)
  {
    if b == [] {
      assert a + b == a;
    } else {
      assert Init(a + b) == a + Init(b);
      ChatsConcat(a, Init(b), decode, id);
    }
  }

  /** What a tab that knows `known` shows of these frames once it has read them all. */
  function Shown(known: seq<MessageList.Message>, frames: seq<Registry.Payload>, decode: Decoder, id: string)
    : seq<MessageList.Message>
  {
    FirstOccurrences(known, Chats(frames, decode, id))
  }

  /** A broadcast puts a message new to the tab ahead of a different new one that waits. */
  ghost predicate Jumps(net: Network.Net, a: Network.Action, i: nat, c: Registry.Client, decode: Decoder, id: string,
                        known: seq<MessageList.Message>)
    requires i < |net.nodes|
  {
    && a.Fallback? && a.node == i && Registry.Addresses(Registry.RouteOf(a.msg.channel), c)
    && var m := decode(a.msg.payload);
    && m.Some? && m.value.convID == id
    && var got := Chats(Network.Inbox(net.inbox, c), decode, id);
    && !MessageList.HasID(known + got, m.value.id)
    && var news := FirstOccurrences(known + got, Chats(Network.MeantFor(net.nodes[i].queue, c), decode, id));
    && news != [] && news[0] != m.value
  }

  /** At every moment, what the tab will show of all it holds is what it would show of all issued, in that order. */
  ghost predicate AlwaysShowsIssueOrder(net: Network.Net, actions: seq<Network.Action>, i: nat, c: Registry.Client,
                                        decode: Decoder, id: string, known: seq<MessageList.Message>)
    requires i < |net.nodes|
  {
    Network.NodesStay(net, actions);
    && Shown(known, Network.Holdings(Network.Run(net, actions), i, c), decode, id)
       == Shown(known, Network.Holdings(net, i, c) + Network.MeantFor(Network.Issued(actions, i), c), decode, id)
    && (actions != [] ==> AlwaysShowsIssueOrder(net, Init(actions), i, c, decode, id, known))
  }

  ghost predicate NothingJumps(net: Network.Net, actions: seq<Network.Action>, i: nat, c: Registry.Client,
                               decode: Decoder, id: string, known: seq<MessageList.Message>)
    requires i < |net.nodes|
  {
    actions != [] ==>
      && NothingJumps(net, Init(actions), i, c, decode, id, known)
      && (Network.NodesStay(net, Init(actions));
          !Jumps(Network.Run(net, Init(actions)), Last(actions), i, c, decode, id, known))
  }

  /** What is shown of two piles of frames that show the same still agrees when both grow alike. */
  lemma GrowAlike(known: seq<MessageList.Message>, held: seq<Registry.Payload>, issued: seq<Registry.Payload>,
                  more: seq<Registry.Payload>, decode: Decoder, id: string)
    requires Shown(known, held, decode, id) == Shown(known, issued, decode, id)
    ensures Shown(known, held + more, decode, id) == Shown(known, issued + more, decode, id)
  {
    var a, b, m := Chats(held, decode, id), Chats(issued, decode, id), Chats(more, decode, id);
    ChatsConcat(held, more, decode, id);
    ChatsConcat(issued, more, decode, id);
    OccurrencesConcat(known, a, m);
    OccurrencesConcat(known, b, m);
    forall x
      ensures MessageList.HasID(known + a, x) <==> MessageList.HasID(known + b, x)
    {
      KnownAfter(known, a, x);
      KnownAfter(known, b, x);
    }
    OccurrencesByID(known + a, known + b, m);
  }

  lemma KnownAfter(known: seq<MessageList.Message>, ms: seq<MessageList.Message>, x: string)
    ensures MessageList.HasID(known + ms, x) <==> MessageList.HasID(known + FirstOccurrences(known, ms), x)
  {
  }

  /** A frame written past the waiting ones shows what it would show behind them unless it jumps. */
  lemma WrittenPastShows(known: seq<MessageList.Message>, got: seq<Registry.Payload>, waiting: seq<Registry.Payload>,
                         p: Registry.Payload, decode: Decoder, id: string)
    ensures var m := decode(p);
            var news := FirstOccurrences(known + Chats(got, decode, id), Chats(waiting, decode, id));
            Shown(known, got + [p] + waiting, decode, id) == Shown(known, got + waiting + [p], decode, id)
            <==> !(&& m.Some? && m.value.convID == id
                   && !MessageList.HasID(known + Chats(got, decode, id), m.value.id)
                   && news != [] && news[0] != m.value)
  {
    var g, w := Chats(got, decode, id), Chats(waiting, decode, id);
    ChatsConcat(got + [p], waiting, decode, id);
    ChatsConcat(got, [p], decode, id);
    ChatsConcat(got + waiting, [p], decode, id);
    ChatsConcat(got, waiting, decode, id);
    assert Init([p]) == [] && Chats([], decode, id) == [];
    var m := decode(p);
    if m.Some? && m.value.convID == id {
      assert Chats([p], decode, id) == [m.value];
      JumpExactly(known, g, w, m.value);
    } else {
      assert Chats([p], decode, id) == [];
      assert g + [] + w == g + w == g + w + [];
    }
  }

  lemma ShowsStep(net: Network.Net, a: Network.Action, i: nat, c: Registry.Client, decode: Decoder, id: string,
                  known: seq<MessageList.Message>)
    requires Network.Attached(net, i, c) && !Network.Involves(a, c)
    ensures i < |Network.Step(net, a).nodes|
    ensures Shown(known, Network.Holdings(Network.Step(net, a), i, c), decode, id)
         == Shown(known, Network.Holdings(net, i, c) + Network.MeantFor(Network.IssuedBy(a, i), c), decode, id)
       <==> !Jumps(net, a, i, c, decode, id, known)
  {
    hide Registry.RouteOf, Registry.Addresses, Network.Step, Network.IssuedBy, Network.MeantFor, Network.Inbox;
    if a.Fallback? {
      Network.FallbackEffect(net, a, i, c);
      var got, waiting := Network.Inbox(net.inbox, c), Network.MeantFor(net.nodes[i].queue, c);
      WrittenPastShows(known, got, waiting, a.msg.payload, decode, id);
      assert got + [] + waiting == got + waiting == got + waiting + [];
      hide Shown, Chats, FirstOccurrences, MessageList.HasID;
    } else {
      Network.QuietBalance(net, a, i, c);
    }
  }

  /**
   Order on the tab, exactly: at every moment the tab's messages are in the order of issue if and
   only if no broadcast puts a new message ahead of a different new one still waiting.
   */
  lemma {:induction false} IssueOrderExactly(net: Network.Net, actions: seq<Network.Action>, i: nat,
                                             c: Registry.Client, decode: Decoder, id: string,
                                             known: seq<MessageList.Message>)
    requires Network.Attached(net, i, c)
    requires forall k | 0 <= k < |actions| :: !Network.Involves(actions[k], c)
    ensures AlwaysShowsIssueOrder(net, actions, i, c, decode, id, known)
       <==> NothingJumps(net, actions, i, c, decode, id, known)
  {
    hide Network.Step, Network.Holdings, Network.IssuedBy, Shown, Jumps;
    Network.NodesStay(net, actions);
    if actions == [] {
      assert Network.MeantFor([], c) == [];
      assert Network.Holdings(net, i, c) + [] == Network.Holdings(net, i, c);
    } else {
      var before := Init(actions);
      IssueOrderExactly(net, before, i, c, decode, id, known);
      Network.ExactlyOnce(net, before, i, c);
      Network.NodesStay(net, before);
      ShowsStep(Network.Run(net, before), Last(actions), i, c, decode, id, known);
      Network.MeantForConcat(Network.Issued(before, i), Network.IssuedBy(Last(actions), i), c);
      var start := Network.Holdings(net, i, c);
      var issued := Network.MeantFor(Network.Issued(before, i), c);
      var more := Network.MeantFor(Network.IssuedBy(Last(actions), i), c);
      assert start + (issued + more) == (start + issued) + more;
      hide Network.MeantFor, Network.Attached;
      if AlwaysShowsIssueOrder(net, before, i, c, decode, id, known) {
        GrowAlike(known, Network.Holdings(Network.Run(net, before), i, c), start + issued, more, decode, id);
      }
    }
  }

  /** If nothing jumps, the tab ends up showing what was issued in that order. */
  lemma TabShowsIssueOrder(net: Network.Net, actions: seq<Network.Action>, i: nat, c: Registry.Client,
                           decode: Decoder, id: string,
                           list: seq<MessageList.Message>, es: seq<MessageList.Event>)
    requires Watching(net, actions, i, c, decode, id, es)
    requires NothingJumps(net, actions, i, c, decode, id, MessageList.ServerPart(list))
    ensures MessageList.ServerPart(MessageList.Run(list, es))
         == MessageList.ServerPart(list)
            + FirstOccurrences(MessageList.ServerPart(list), IssuedChats(actions, i, c, decode, id))
  {
    hide Network.Step, MessageList.Run, MessageList.LocalID, Network.MeantFor, Network.Issued, Jumps;
    var start := MessageList.ServerPart(list);
    IssueOrderExactly(net, actions, i, c, decode, id, start);
    HeldWhenDrained(Network.Run(net, actions), i, c);
    var issued := Network.MeantFor(Network.Issued(actions, i), c);
    assert [] + issued == issued;
    MessageList.StoredPartIsFirstArrivals(list, es);
    ArrivalsAreFirstOccurrences(start, es);
  }
}
