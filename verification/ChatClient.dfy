/** The browser state behind all conversations, its event handlers, and runs of them. */
module ChatClient {
  import opened Prelude
  import opened MessageList

  const DEMO_USER: string := "3e62ced9-275f-4e96-82f1-d505730df6af"

  datatype View = View(me: string, active: Option<string>, messages: map<string, seq<Message>>, reqID: nat)

  datatype Action =
    | Send(text: string, tempID: string, at: int)
    | SendFailed(m: Message)
    | Receive(m: Message)
    | Open(id: string)
    | Fetched(reqID: nat, id: string, data: seq<Message>)
    | LogIn(user: string)  // a login or a refreshed session names the user
    | LogOut

  function ListOf(messages: map<string, seq<Message>>, id: string): seq<Message> {
    if id in messages then messages[id] else []
  }

  /** The property name JavaScript uses for `state.messages[state.active]`. */
  function Slot(active: Option<string>): string {
    if active.Some? then active.value else "null"
  }

  function Provisional(v: View, a: Action): Message
    requires a.Send? && v.active.Some?
  {
    Message(a.tempID, v.active.value, v.me, Some(a.text), a.at)
  }

  function Step(v: View, a: Action): View {
    match a
    case Send(text, _, _) =>
      if text == "" || v.active.None? then v
      else v.(messages := v.messages[v.active.value := ListOf(v.messages, v.active.value) + [Provisional(v, a)]])
    case SendFailed(m) =>
      v.(messages := v.messages[Slot(v.active) := Withdraw(ListOf(v.messages, Slot(v.active)), m.id)])
    case Receive(m) =>
      v.(messages := v.messages[m.convID := Reconcile(ListOf(v.messages, m.convID), m)])
    case Open(id) =>
      v.(reqID := v.reqID + 1, active := Some(id))
    case Fetched(reqID, id, data) =>
      if reqID != v.reqID || v.active != Some(id) then v else v.(messages := v.messages[id := data])
    case LogIn(user) =>
      v.(me := user)
    case LogOut =>
      View(DEMO_USER, None, map[], v.reqID)
  }

  function RunView(v: View, actions: seq<Action>): View {
    if actions == [] then v else Step(RunView(v, Init(actions)), Last(actions))
  }

  /** The event an action is for the list of conversation `id`. */
  function EventFor(v: View, a: Action, id: string): seq<Event> {
    match a
    case Send(text, _, _) => if text != "" && v.active == Some(id) then [Sent(Provisional(v, a))] else []
    case SendFailed(m) => if Slot(v.active) == id then [Failed(m)] else []
    case Receive(m) => if m.convID == id then [Delivered(m)] else []
    case _ => []
  }

  function EventsFor(v: View, actions: seq<Action>, id: string): seq<Event> {
    if actions == [] then []
    else EventsFor(v, Init(actions), id) + EventFor(RunView(v, Init(actions)), Last(actions), id)
  }

  /** A fetched answer that lands, or a logout, replaces the list of `id`. */
  predicate Replaces(v: View, a: Action, id: string) {
    a.LogOut? || (a.Fetched? && a.id == id && a.reqID == v.reqID && v.active == Some(id))
  }

  /** The run leaves the list of `id` to its own events. */
  predicate NotReplaced(v: View, actions: seq<Action>, id: string) {
    actions == [] || (NotReplaced(v, Init(actions), id) && !Replaces(RunView(v, Init(actions)), Last(actions), id))
  }

  lemma ListStep(v: View, a: Action, id: string)
    requires !Replaces(v, a, id)
    ensures var es := EventFor(v, a, id);
            ListOf(Step(v, a).messages, id)
            == if es == [] then ListOf(v.messages, id) else Apply(ListOf(v.messages, id), es[0])
    ensures |EventFor(v, a, id)| <= 1
  {
  }

  /** What a replacing action leaves, and that nothing else but the list's own events changes it. */
  lemma ReplacedExactly(v: View, a: Action, id: string)
    ensures Replaces(v, a, id) ==> ListOf(Step(v, a).messages, id) == if a.LogOut? then [] else a.data
    ensures !Replaces(v, a, id) && EventFor(v, a, id) == [] ==>
              ListOf(Step(v, a).messages, id) == ListOf(v.messages, id)
  {
  }

  /**
   Between refetches the list of each conversation evolves by its own events alone, whatever
   happens in the others, so the laws of one list hold for each of them.
   */
  lemma {:induction false} ListsAreIndependent(v: View, actions: seq<Action>, id: string)
    requires NotReplaced(v, actions, id)
    ensures ListOf(RunView(v, actions).messages, id)
         == Run(ListOf(v.messages, id), EventsFor(v, actions, id))
  {
    hide Apply, Step, EventFor, ListOf;
    if actions != [] {
      ListsAreIndependent(v, Init(actions), id);
      ListStep(RunView(v, Init(actions)), Last(actions), id);
      var before, last := EventsFor(v, Init(actions), id), EventFor(RunView(v, Init(actions)), Last(actions), id);
      if last == [] {
        assert before + last == before;
      } else {
        assert last == [last[0]];
        assert Init(before + last) == before;
      }
    }
  }

  // ------------------------------------------------------------- the list laws on page runs

  /** The provisional message an action shows, if any. */
  function Shows(v: View, a: Action): set<Message> {
    if a.Send? && a.text != "" && v.active.Some? then {Provisional(v, a)} else {}
  }

  /** The provisional messages the sends of a run have shown, in whatever conversation. */
  function Shown(v: View, actions: seq<Action>): set<Message> {
    if actions == [] then {} else Shown(v, Init(actions)) + Shows(RunView(v, Init(actions)), Last(actions))
  }

  /** The provisional ids a run's sends drew or its refusals named. */
  function UsedIDs(actions: seq<Action>): set<string> {
    if actions == [] then {}
    else UsedIDs(Init(actions))
         + match Last(actions)
           case Send(_, tempID, _) => {tempID}
           case SendFailed(m) => {m.id}
           case _ => {}
  }

  /**
   What the browser and the server guarantee about an action after a run: sends draw new
   provisional ids, what is refused is a send of the run or one from before it, and stored
   messages carry server ids.
   */
  ghost predicate HonestAction(v: View, before: seq<Action>, a: Action) {
    match a
    case Send(_, tempID, _) => LocalID(tempID) && tempID !in UsedIDs(before)
    case SendFailed(m) => LocalID(m.id) && (m in Shown(v, before) || forall x | x in Shown(v, before) :: x.id != m.id)
    case Receive(m) => !LocalID(m.id)
    case _ => true
  }

  ghost predicate HonestPage(v: View, actions: seq<Action>) {
    actions == [] || (HonestPage(v, Init(actions)) && HonestAction(v, Init(actions), Last(actions)))
  }

  predicate Uses(a: Action, id: string) {
    (a.Send? && a.tempID == id) || (a.SendFailed? && a.m.id == id)
  }

  lemma {:induction false} UsedExactly(actions: seq<Action>, id: string)
    ensures id in UsedIDs(actions) <==> exists a | a in actions :: Uses(a, id)
  {
    if actions != [] {
      UsedExactly(Init(actions), id);
      assert actions == Init(actions) + [Last(actions)];
      assert Last(actions) in actions;
    }
  }

  /** The k-th action of an honest page, in terms of the actions before it. */
  ghost predicate HonestAt(v: View, actions: seq<Action>, k: nat)
    requires k < |actions|
  {
    var before, a := actions[..k], actions[k];
    && (a.Send? ==> LocalID(a.tempID) && forall b | b in before :: !Uses(b, a.tempID))
    && (a.SendFailed? ==> LocalID(a.m.id))
    && (a.SendFailed? && a.m !in Shown(v, before) ==> forall x | x in Shown(v, before) :: x.id != a.m.id)
    && (a.Receive? ==> !LocalID(a.m.id))
  }

  /** What an honest page is, action by action. */
  lemma {:induction false} HonestExactly(v: View, actions: seq<Action>)
    ensures HonestPage(v, actions) <==> forall k | 0 <= k < |actions| :: HonestAt(v, actions, k)
  {
    if actions != [] {
      var before, a := Init(actions), Last(actions);
      HonestExactly(v, before);
      if a.Send? {
        UsedExactly(before, a.tempID);
      }
      assert HonestAction(v, before, a) <==> HonestAt(v, actions, |before|) by {
        assert actions[..|before|] == before;
      }
      forall k | 0 <= k < |before|
        ensures HonestAt(v, actions, k) <==> HonestAt(v, before, k)
      {
        assert actions[..k] == before[..k];
      }
      hide HonestAction, HonestAt;
    }
  }

  /** How the events of one list mirror the sends and refusals of the page. */
  ghost predicate Mirrors(es: seq<Event>, shown: set<Message>, used: set<string>, id: string) {
    && (forall m :: Sent(m) in es <==> m in shown && m.convID == id)
    && (forall x, y | x in shown && y in shown && x.id == y.id :: x == y)
    && (forall m | m in shown :: m.id in used)
    && (forall e | e in es && e.Failed? :: e.m.id in used)
  }

  lemma GenuineGrows(es: seq<Event>, e: Event)
    requires Genuine(es) && (IsLocal(e.m) <==> !e.Delivered?)
    requires e.Sent? ==> forall x | x in es && !x.Delivered? :: x.m.id != e.m.id
    requires e.Failed? ==> Sent(e.m) in es || Foreign(es, e.m)
    ensures Genuine(es + [e])
  {
  }

  lemma MirrorSend(v: View, a: Action, id: string, es: seq<Event>, shown: set<Message>, used: set<string>)
    requires a.Send? && LocalID(a.tempID) && a.tempID !in used
    requires Genuine(es) && Mirrors(es, shown, used, id)
    ensures Genuine(es + EventFor(v, a, id))
    ensures Mirrors(es + EventFor(v, a, id), shown + Shows(v, a), used + {a.tempID}, id)
  {
    hide LocalID;
    if a.text != "" && v.active == Some(id) {
      var m := Provisional(v, a);
      forall x | x in es && !x.Delivered?
        ensures x.m.id != m.id
      {
        assert x == Sent(x.m) || x.Failed?;
      }
      GenuineGrows(es, Sent(m));
    } else {
      assert es + [] == es;
    }
    hide Genuine, Provisional;
  }

  lemma MirrorFailed(v: View, m: Message, id: string, es: seq<Event>, shown: set<Message>, used: set<string>)
    requires LocalID(m.id) && (m in shown || forall x | x in shown :: x.id != m.id)
    requires Genuine(es) && Mirrors(es, shown, used, id)
    ensures Genuine(es + EventFor(v, SendFailed(m), id))
    ensures Mirrors(es + EventFor(v, SendFailed(m), id), shown, used + {m.id}, id)
  {
    hide LocalID;
    if Slot(v.active) == id {
      if Sent(m) !in es {
        forall e | e in es && e.Sent?
          ensures e.m.id != m.id
        {
          assert e == Sent(e.m);
        }
      }
      GenuineGrows(es, Failed(m));
    } else {
      assert es + [] == es;
    }
    hide Genuine;
  }

  lemma MirrorReceive(v: View, m: Message, id: string, es: seq<Event>, shown: set<Message>, used: set<string>)
    requires !LocalID(m.id) && Genuine(es) && Mirrors(es, shown, used, id)
    ensures Genuine(es + EventFor(v, Receive(m), id))
    ensures Mirrors(es + EventFor(v, Receive(m), id), shown, used, id)
  {
    hide LocalID;
    if m.convID == id {
      GenuineGrows(es, Delivered(m));
    } else {
      assert es + [] == es;
    }
    hide Genuine;
  }

  lemma MirrorStep(v: View, before: seq<Action>, a: Action, id: string, es: seq<Event>)
    requires HonestAction(v, before, a)
    requires Genuine(es) && Mirrors(es, Shown(v, before), UsedIDs(before), id)
    ensures var now := RunView(v, before);
            && Genuine(es + EventFor(now, a, id))
            && Mirrors(es + EventFor(now, a, id), Shown(v, before) + Shows(now, a), UsedIDs(before + [a]), id)
  {
    assert Init(before + [a]) == before;
    var now, shown, used := RunView(v, before), Shown(v, before), UsedIDs(before);
    assert es + [] == es && shown + {} == shown && used + {} == used;
    match a
    case Send(_, _, _) => MirrorSend(now, a, id, es, shown, used);
    case SendFailed(m) => MirrorFailed(now, m, id, es, shown, used);
    case Receive(m) => MirrorReceive(now, m, id, es, shown, used);
    case _ =>
  }

  /** On an honest page the events of every list are genuine, so the list laws hold for each. */
  lemma {:induction false} EventsAreGenuine(v: View, actions: seq<Action>, id: string)
    requires HonestPage(v, actions)
    ensures Genuine(EventsFor(v, actions, id))
    ensures Mirrors(EventsFor(v, actions, id), Shown(v, actions), UsedIDs(actions), id)
  {
    if actions != [] {
      hide EventFor, Shows, HonestAction, Mirrors, Genuine, UsedIDs;
      EventsAreGenuine(v, Init(actions), id);
      MirrorStep(v, Init(actions), Last(actions), id, EventsFor(v, Init(actions), id));
      assert Init(actions) + [Last(actions)] == actions;
    }
  }

  /** On every page run the stored part of a list is what it started with and the first arrivals of new ids. */
  lemma PageStoredPart(v: View, actions: seq<Action>, id: string)
    requires HonestPage(v, actions) && NotReplaced(v, actions, id)
    ensures var list := ListOf(v.messages, id);
            ServerPart(ListOf(RunView(v, actions).messages, id))
            == ServerPart(list) + FirstArrivals(ServerPart(list), EventsFor(v, actions, id))
  {
    EventsAreGenuine(v, actions, id);
    ListsAreIndependent(v, actions, id);
    StoredPartIsFirstArrivals(ListOf(v.messages, id), EventsFor(v, actions, id));
  }

  // ------------------------------------------------------------------ answered sends of the page

  /** A send of the run in conversation `id` with this key. */
  predicate Own(v: View, before: seq<Action>, m: Message, id: string, key: Key) {
    m in Shown(v, before) && m.convID == id && m.authorID == key.authorID && m.body == key.body
  }

  /** The ids of the messages that arrived for conversation `id`. */
  function Arrived(actions: seq<Action>, id: string): set<string> {
    if actions == [] then {}
    else Arrived(Init(actions), id)
         + if Last(actions).Receive? && Last(actions).m.convID == id then {Last(actions).m.id} else {}
  }

  /**
   The action answers a send of conversation `id` with this key, whatever conversation is on
   screen: its refusal, or a message new to the conversation.
   */
  ghost predicate AnswersSend(v: View, before: seq<Action>, a: Action, id: string, key: Key) {
    match a
    case SendFailed(m) => Own(v, before, m, id, key)
    case Receive(m) =>
      && m.convID == id && m.authorID == key.authorID && m.body == key.body
      && !HasID(ListOf(v.messages, id), m.id) && m.id !in Arrived(before, id)
    case _ => false
  }

  /** Sends of conversation `id` with this key that nothing has answered. */
  ghost function PageAwaited(v: View, actions: seq<Action>, id: string, key: Key): nat {
    if actions == [] then 0
    else
      var before, a := Init(actions), Last(actions);
      var n := PageAwaited(v, before, id, key);
      if AnswersSend(v, before, a, id, key) then Less(n)
      else if exists m | m in Shows(RunView(v, before), a) ::
                m.convID == id && m.authorID == key.authorID && m.body == key.body then n + 1
      else n
  }

  /** The list has as many provisional entries of the key as sends are awaited. */
  ghost predicate TracksNow(v: View, actions: seq<Action>, id: string, key: Key) {
    |Pending(ListOf(RunView(v, actions).messages, id), key)| == PageAwaited(v, actions, id, key)
  }

  /** At every moment the list shows as many provisional entries of a key as sends are awaited. */
  ghost predicate PageTracks(v: View, actions: seq<Action>, id: string, key: Key) {
    && TracksNow(v, actions, id, key)
    && (actions != [] ==> PageTracks(v, Init(actions), id, key))
  }

  /**
   The action meets the list it should, unless no entry of the key is left: a refusal finds its
   conversation on screen and its own entry in it, and a repeated message finds nothing.
   */
  ghost predicate Meets(v: View, before: seq<Action>, a: Action, id: string, key: Key) {
    var now := RunView(v, before);
    var pending := Pending(ListOf(now.messages, id), key);
    match a
    case SendFailed(m) => Own(v, before, m, id, key) ==> pending == {} || (Slot(now.active) == id && m in pending)
    case Receive(m) =>
      m.convID == id && m.authorID == key.authorID && m.body == key.body && HasID(ListOf(now.messages, id), m.id)
      ==> pending == {}
    case _ => true
  }

  ghost predicate PageFits(v: View, actions: seq<Action>, id: string, key: Key) {
    actions != [] ==> PageFits(v, Init(actions), id, key) && Meets(v, Init(actions), Last(actions), id, key)
  }

  lemma {:induction false} ArrivedAreDelivered(v: View, actions: seq<Action>, id: string, x: string)
    ensures x in Arrived(actions, id) <==> exists e | e in EventsFor(v, actions, id) :: e.Delivered? && e.m.id == x
  {
    if actions != [] {
      var es, more := EventsFor(v, Init(actions), id), EventFor(RunView(v, Init(actions)), Last(actions), id);
      ArrivedAreDelivered(v, Init(actions), id, x);
      assert forall e :: e in es + more <==> e in es || e in more;
      assert forall e :: e in more <==> more != [] && e == more[0];
    }
  }

  /** The message is new to the page exactly when the handler does not find its id. */
  lemma NewIsUnknown(v: View, before: seq<Action>, m: Message, id: string)
    requires HonestPage(v, before) && NotReplaced(v, before, id) && !LocalID(m.id)
    requires ServerPart(ListOf(v.messages, id)) == ListOf(v.messages, id)
    ensures !HasID(ListOf(v.messages, id), m.id) && m.id !in Arrived(before, id)
       <==> !HasID(ListOf(RunView(v, before).messages, id), m.id)
  {
    hide LocalID, Shown, UsedIDs;
    var es := EventsFor(v, before, id);
    EventsAreGenuine(v, before, id);
    ListsAreIndependent(v, before, id);
    ArrivedAreDelivered(v, before, id, m.id);
    var all := es + [Delivered(m)];
    assert Init(all) == es;
    KnownIsRepeated(ListOf(v.messages, id), all);
  }

  lemma PageLocals(v: View, actions: seq<Action>, id: string)
    requires HonestPage(v, actions) && NotReplaced(v, actions, id)
    requires ServerPart(ListOf(v.messages, id)) == ListOf(v.messages, id)
    ensures forall m | m in ListOf(RunView(v, actions).messages, id) && IsLocal(m) ::
              m in Shown(v, actions) && m.convID == id
    ensures actions == [] ==> forall key :: Pending(ListOf(v.messages, id), key) == {}
  {
    hide LocalID;
    EventsAreGenuine(v, actions, id);
    ListsAreIndependent(v, actions, id);
    RunLocals(ListOf(v.messages, id), EventsFor(v, actions, id));
  }

  /** What an action does to the provisional entries of a list. */
  lemma PagePending(v: View, actions: seq<Action>, id: string, key: Key)
    requires HonestPage(v, actions) && NotReplaced(v, actions, id) && actions != []
    requires ServerPart(ListOf(v.messages, id)) == ListOf(v.messages, id)
    ensures var now, more := RunView(v, Init(actions)), EventFor(RunView(v, Init(actions)), Last(actions), id);
            var list, after := ListOf(now.messages, id), ListOf(RunView(v, actions).messages, id);
            if more == [] then after == list else after == Apply(list, more[0]) && Accounted(list, more[0], key)
  {
    hide LocalID, Apply, Accounted, Genuine, Mirrors, Shown, UsedIDs, ListOf;
    var before := Init(actions);
    var now := RunView(v, before);
    var es, more := EventsFor(v, before, id), EventFor(now, Last(actions), id);
    EventsAreGenuine(v, actions, id);
    EventsAreGenuine(v, before, id);
    ListsAreIndependent(v, before, id);
    ListStep(now, Last(actions), id);
    hide EventFor, Step, Replaces, HonestAction;
    if more != [] {
      assert more == [more[0]];
      assert Init(es + more) == es && Last(es + more) == more[0];
      RunLocals(ListOf(v.messages, id), es);
      hide RunView, ServerPart, Run, EventsFor;
      StepPending(ListOf(now.messages, id), es + more, key);
    }
  }

  lemma SendStep(v: View, actions: seq<Action>, id: string, key: Key)
    requires HonestPage(v, actions) && NotReplaced(v, actions, id) && actions != []
    requires ServerPart(ListOf(v.messages, id)) == ListOf(v.messages, id)
    requires TracksNow(v, Init(actions), id, key) && !Last(actions).SendFailed? && !Last(actions).Receive?
    ensures TracksNow(v, actions, id, key)
  {
    PagePending(v, actions, id, key);
    hide LocalID, Apply, Step, RunView, HonestPage, NotReplaced, ServerPart, Pending, ListOf;
  }

  lemma RefusalStep(v: View, actions: seq<Action>, id: string, key: Key)
    requires HonestPage(v, actions) && NotReplaced(v, actions, id) && actions != []
    requires ServerPart(ListOf(v.messages, id)) == ListOf(v.messages, id)
    requires TracksNow(v, Init(actions), id, key) && Last(actions).SendFailed?
    ensures TracksNow(v, actions, id, key) <==> Meets(v, Init(actions), Last(actions), id, key)
  {
    PagePending(v, actions, id, key);
    PageLocals(v, Init(actions), id);
    hide LocalID, Apply, Step, RunView, HonestPage, NotReplaced, ServerPart, Shown, ListOf;
  }

  lemma ReceiveStep(v: View, actions: seq<Action>, id: string, key: Key)
    requires HonestPage(v, actions) && NotReplaced(v, actions, id) && actions != []
    requires ServerPart(ListOf(v.messages, id)) == ListOf(v.messages, id)
    requires TracksNow(v, Init(actions), id, key) && Last(actions).Receive?
    ensures TracksNow(v, actions, id, key) <==> Meets(v, Init(actions), Last(actions), id, key)
  {
    PagePending(v, actions, id, key);
    NewIsUnknown(v, Init(actions), Last(actions).m, id);
    hide LocalID, Apply, Step, RunView, HonestPage, NotReplaced, ServerPart, Arrived, HasID, Pending, ListOf;
  }

  lemma MeetsIsOneStep(v: View, actions: seq<Action>, id: string, key: Key)
    requires HonestPage(v, actions) && NotReplaced(v, actions, id) && actions != []
    requires ServerPart(ListOf(v.messages, id)) == ListOf(v.messages, id)
    requires TracksNow(v, Init(actions), id, key)
    ensures TracksNow(v, actions, id, key) <==> Meets(v, Init(actions), Last(actions), id, key)
  {
    if Last(actions).SendFailed? {
      RefusalStep(v, actions, id, key);
    } else if Last(actions).Receive? {
      ReceiveStep(v, actions, id, key);
    } else {
      SendStep(v, actions, id, key);
    }
    hide TracksNow, HonestPage, NotReplaced, ServerPart, RunView, Pending;
  }

  /**
   Optimistic reconciliation on the page, exactly: whatever happens in the other conversations, the
   provisional entries of a list are at every moment as many as its sends still unanswered, if and
   only if every refusal of its sends and every repeated message met the list it should.
   */
  lemma {:induction false} PageReconciliationExactly(v: View, actions: seq<Action>, id: string, key: Key)
    requires HonestPage(v, actions) && NotReplaced(v, actions, id)
    requires ServerPart(ListOf(v.messages, id)) == ListOf(v.messages, id)
    ensures PageTracks(v, actions, id, key) <==> PageFits(v, actions, id, key)
  {
    if actions == [] {
      PageLocals(v, [], id);
    } else {
      hide TracksNow, Meets, RunView, ListOf;
      PageReconciliationExactly(v, Init(actions), id, key);
      if PageTracks(v, Init(actions), id, key) {
        MeetsIsOneStep(v, actions, id, key);
      }
    }
  }

  /** A conversation whose sends are all answered shows its stored messages and nothing else. */
  lemma PageSettles(v: View, actions: seq<Action>, id: string)
    requires HonestPage(v, actions) && NotReplaced(v, actions, id)
    requires ServerPart(ListOf(v.messages, id)) == ListOf(v.messages, id)
    requires forall m | m in Shown(v, actions) && m.convID == id ::
               var key := Key(m.authorID, m.body);
               PageFits(v, actions, id, key) && PageAwaited(v, actions, id, key) == 0
    ensures ListOf(RunView(v, actions).messages, id)
         == ListOf(v.messages, id) + FirstArrivals(ListOf(v.messages, id), EventsFor(v, actions, id))
  {
    hide LocalID;
    var final := ListOf(RunView(v, actions).messages, id);
    PageLocals(v, actions, id);
    forall m | m in Shown(v, actions) && m.convID == id
      ensures Pending(final, Key(m.authorID, m.body)) == {}
    {
      PageReconciliationExactly(v, actions, id, Key(m.authorID, m.body));
    }
    assert forall m | m in final && IsLocal(m) :: m in Pending(final, Key(m.authorID, m.body));
    ServerPartOfStored(final);
    PageStoredPart(v, actions, id);
  }

  /** The ordinary course: a send, its echo, and the list shows the stored message alone. */
  lemma EchoSettlesSend(v: View, text: string, tempID: string, at: int, m: Message)
    requires v.active.Some? && text != "" && LocalID(tempID) && !LocalID(m.id)
    requires m.convID == v.active.value && m.authorID == v.me && m.body == Some(text)
    requires ListOf(v.messages, m.convID) == []
    ensures var run := [Send(text, tempID, at), Receive(m)];
            && HonestPage(v, run) && NotReplaced(v, run, m.convID)
            && ListOf(RunView(v, run).messages, m.convID) == [m]
            && PageAwaited(v, run, m.convID, Key(v.me, Some(text))) == 0
            && PageFits(v, run, m.convID, Key(v.me, Some(text)))
  {
    hide LocalID;
    var run := [Send(text, tempID, at), Receive(m)];
    var id, key, p := m.convID, Key(v.me, Some(text)), Message(tempID, v.active.value, v.me, Some(text), at);
    assert Init(run) == run[..1] && Init(run[..1]) == [];
    assert [] + [p] == [p];
    assert ListOf(RunView(v, run[..1]).messages, id) == [p];
    assert Shown(v, run[..1]) == {p};
    assert PageAwaited(v, run[..1], id, key) == 1 by {
      assert p in Shows(v, run[0]);
    }
    assert FirstPending([p], key) == 0 && [p][..0] + [p][1..] == [];
    assert WithoutPending([p], key) == [] && Reconcile([p], m) == [] + [m] == [m];
    assert HonestAction(v, [], run[0]) && HonestPage(v, run[..1]);
    assert NotReplaced(v, run[..1], id);
    assert PageFits(v, run[..1], id, key);
    assert Arrived(run[..1], id) == {} && !HasID([], m.id);
    assert AnswersSend(v, run[..1], run[1], id, key);
  }

  /** A send refused while another conversation is on screen: answered, and its entry stays for ever. */
  lemma OffScreenRefusalStays(v: View, text: string, tempID: string, at: int, other: string)
    requires v.active.Some? && v.active.value != other && text != "" && LocalID(tempID)
    requires ListOf(v.messages, v.active.value) == []
    ensures var id, m := v.active.value, Message(tempID, v.active.value, v.me, Some(text), at);
            var run := [Send(text, tempID, at), Open(other), SendFailed(m)];
            && HonestPage(v, run)
            && ListOf(RunView(v, run).messages, id) == [m]
            && PageAwaited(v, run, id, Key(m.authorID, m.body)) == 0
            && !PageTracks(v, run, id, Key(m.authorID, m.body))
  {
    hide LocalID;
    var id, m := v.active.value, Message(tempID, v.active.value, v.me, Some(text), at);
    var run := [Send(text, tempID, at), Open(other), SendFailed(m)];
    assert Init(run) == run[..2] && Init(run[..2]) == run[..1] && Init(run[..1]) == [];
    assert [] + [m] == [m];
    assert ListOf(RunView(v, run[..1]).messages, id) == [m];
    assert Shown(v, run[..1]) == {m};
    assert PageAwaited(v, run[..1], id, Key(m.authorID, m.body)) == 1 by {
      assert m in Shows(v, run[0]);
    }
    assert Shown(v, run[..2]) == {m};
    assert PageAwaited(v, run[..2], id, Key(m.authorID, m.body)) == 1;
    assert m in Pending([m], Key(m.authorID, m.body));
    assert HonestAction(v, [], run[0]) && HonestPage(v, run[..1]);
    assert HonestPage(v, run[..2]);
    assert HonestAction(v, run[..2], run[2]);
  }

  // ------------------------------------------------------------------ stored ids for ever

  /** What the messages endpoint returns: stored messages, each id once. */
  ghost predicate FetchesStored(actions: seq<Action>) {
    forall a | a in actions && a.Fetched? :: ServerPart(a.data) == a.data && DistinctIDs(a.data)
  }

  ghost predicate AllDistinct(messages: map<string, seq<Message>>) {
    forall id :: DistinctIDs(ServerPart(ListOf(messages, id)))
  }

  /** Over every page run, refetches and logouts included, no list holds a stored id twice. */
  lemma {:induction false} PageIDsStayDistinct(v: View, actions: seq<Action>)
    requires HonestPage(v, actions) && FetchesStored(actions) && AllDistinct(v.messages)
    ensures AllDistinct(RunView(v, actions).messages)
  {
    if actions != [] {
      hide Step, ServerPart, DistinctIDs, LocalID;
      assert forall a | a in Init(actions) :: a in actions;
      PageIDsStayDistinct(v, Init(actions));
      forall id
        ensures DistinctIDs(ServerPart(ListOf(RunView(v, actions).messages, id)))
      {
        assert Last(actions) in actions;
        DistinctStep(v, Init(actions), Last(actions), id);
      }
    }
  }

  lemma DistinctStep(v: View, before: seq<Action>, a: Action, id: string)
    requires HonestAction(v, before, a)
    requires a.Fetched? ==> ServerPart(a.data) == a.data && DistinctIDs(a.data)
    requires DistinctIDs(ServerPart(ListOf(RunView(v, before).messages, id)))
    ensures DistinctIDs(ServerPart(ListOf(Step(RunView(v, before), a).messages, id)))
  {
    hide LocalID, RunView, Shown, UsedIDs;
    var now := RunView(v, before);
    if Replaces(now, a, id) {
      assert ServerPart([]) == [];
      hide ServerPart, DistinctIDs;
    } else {
      hide ServerPart, DistinctIDs, Apply;
      ListStep(now, a, id);
      var more, list := EventFor(now, a, id), ListOf(now.messages, id);
      if more != [] {
        assert Init([more[0]]) == [] && Run(list, []) == list;
        StoredIDsStayDistinct(list, [more[0]]);
      }
    }
  }

  /** A refused send is withdrawn if and only if its conversation is still the one on screen. */
  lemma RefusalNeedsItsConversation(v: View, m: Message)
    requires m in ListOf(v.messages, m.convID)
    ensures m in ListOf(Step(v, SendFailed(m)).messages, m.convID)
       <==> m.convID != if v.active.Some? then v.active.value else "null"
  {
    WithdrawMembers(ListOf(v.messages, Slot(v.active)), m.id);
  }

  function Opens(actions: seq<Action>): nat {
    if actions == [] then 0 else Opens(Init(actions)) + if Last(actions).Open? then 1 else 0
  }

  lemma {:induction false} OpensConcat(a: seq<Action>, b: seq<Action>)
    ensures Opens(a + b) == Opens(a) + Opens(b)
    ensures Opens(b) == 0 <==> forall x | x in b :: !x.Open?
  {
    if b == [] {
      assert a + b == a;
    } else {
      OpensConcat(a, Init(b));
      assert Init(a + b) == a + Init(b);
      assert b == Init(b) + [Last(b)];
    }
  }

  lemma {:induction false} RunCounts(v: View, actions: seq<Action>)
    ensures RunView(v, actions).reqID == v.reqID + Opens(actions)
  {
    if actions != [] {
      RunCounts(v, Init(actions));
    }
  }

  lemma {:induction false} ActiveAfter(v: View, actions: seq<Action>)
    requires forall a | a in actions :: !a.Open?
    ensures RunView(v, actions).active == if LogOut in actions then None else v.active
  {
    if actions != [] {
      ActiveAfter(v, Init(actions));
      assert actions == Init(actions) + [Last(actions)];
    }
  }

  lemma {:induction false} RunConcat(v: View, a: seq<Action>, b: seq<Action>)
    ensures RunView(v, a + b) == RunView(RunView(v, a), b)
  {
    hide Step;
    if b == [] {
      assert a + b == a;
    } else {
      RunConcat(v, a, Init(b));
      assert Init(a + b) == a + Init(b);
    }
  }

  /** The answer to the request that the k-th action, an Open, made. */
  function AnswerTo(v: View, actions: seq<Action>, k: nat, data: seq<Message>): Action
    requires k < |actions| && actions[k].Open?
  {
    Fetched(RunView(v, actions[..k + 1]).reqID, actions[k].id, data)
  }

  predicate Undisturbed(later: seq<Action>) {
    forall a | a in later :: !a.Open? && !a.LogOut?
  }

  /**
   The request-id guard: an answer lands exactly when no other Open and no logout came in
   between; otherwise it changes nothing.
   */
  lemma LatestOpenWins(v: View, actions: seq<Action>, k: nat, data: seq<Message>)
    requires k < |actions| && actions[k].Open?
    ensures var now := RunView(v, actions);
            Step(now, AnswerTo(v, actions, k, data))
            == if Undisturbed(actions[k + 1..]) then now.(messages := now.messages[actions[k].id := data]) else now
  {
    GuardExactly(v, actions, k);
    hide RunView, Undisturbed;
  }

  lemma AfterOpen(v: View, upto: seq<Action>)
    requires upto != [] && Last(upto).Open?
    ensures RunView(v, upto).active == Some(Last(upto).id)
  {
  }

  /** The two conditions the page checks when an answer arrives. */
  lemma GuardExactly(v: View, actions: seq<Action>, k: nat)
    requires k < |actions| && actions[k].Open?
    ensures var now := RunView(v, actions);
            RunView(v, actions[..k + 1]).reqID == now.reqID && now.active == Some(actions[k].id)
            <==> Undisturbed(actions[k + 1..])
  {
    hide Step, RunView;
    var upto, later := actions[..k + 1], actions[k + 1..];
    assert Last(upto) == actions[k] && actions == upto + later;
    AfterOpen(v, upto);
    OpensConcat(upto, later);
    RunCounts(v, upto);
    RunCounts(v, actions);
    RunConcat(v, upto, later);
    if forall a | a in later :: !a.Open? {
      ActiveAfter(RunView(v, upto), later);
    }
  }

  /** The page: each handler updates the fields in place. */
  class Page {
    var me: string
    var active: Option<string>
    var messages: map<string, seq<Message>>
    var messagesReqId: nat

    function State(): View
      reads this
    {
      View(me, active, messages, messagesReqId)
    }

    constructor ()
      ensures State() == View(DEMO_USER, None, map[], 0)
    {
      me, active, messages, messagesReqId := DEMO_USER, None, map[], 0;
    }

    /** The synchronous part of onSend; `text` is the trimmed input. */
    method OnSend(text: string, tempID: string, at: int)
      modifies `messages
      ensures State() == Step(old(State()), Send(text, tempID, at))
    {
      if text == "" || active.None? {
        return;
      }
      var conv := active.value;
      if conv !in messages {
        messages := messages[conv := []];
      }
      messages := messages[conv := messages[conv] + [Message(tempID, conv, me, Some(text), at)]];
    }

    /** Both failure paths of onSend: they filter the list that is active by then. */
    method OnSendFailed(m: Message)
      modifies `messages
      ensures State() == Step(old(State()), SendFailed(m))
    {
      var list := ListOf(messages, Slot(active));
      var kept := [];
      var i := 0;
      while i < |list|
        invariant i <= |list|
        invariant kept == Withdraw(list[..i], m.id)
      {
        assert Init(list[..i + 1]) == list[..i];
        if list[i].id != m.id {
          kept := kept + [list[i]];
        }
        i := i + 1;
      }
      assert list[..|list|] == list;
      messages := messages[Slot(active) := kept];
    }

    /** `msgs.findIndex(...)` for the first provisional entry an echo replaces. */
    static method FindPending(msgs: seq<Message>, key: Key) returns (i: nat)
      ensures i == FirstPending(msgs, key)
    {
      i := 0;
      while i < |msgs| && !(IsLocal(msgs[i]) && msgs[i].authorID == key.authorID && msgs[i].body == key.body)
        invariant i <= FirstPending(msgs, key)
      {
        i := i + 1;
      }
    }

    /** `msgs.some(m => m.id === id)`. */
    static method Knows(msgs: seq<Message>, id: string) returns (found: bool)
      ensures found == HasID(msgs, id)
    {
      var i := 0;
      while i < |msgs|
        invariant i <= |msgs|
        invariant forall j | 0 <= j < i :: msgs[j].id != id
      {
        if msgs[i].id == id {
          return true;
        }
        i := i + 1;
      }
      return false;
    }

    /** A chat message on the socket. */
    method OnMessage(m: Message)
      modifies `messages
      ensures State() == Step(old(State()), Receive(m))
      ensures messages.Keys == old(messages).Keys + {m.convID}
      ensures forall id | id in old(messages) && id != m.convID :: messages[id] == old(messages)[id]
      ensures var list := ListOf(old(messages), m.convID);
              exists i: nat | IsFirstEcho(list, m, i) ::
                var rest := if i < |list| then list[..i] + list[i + 1..] else list;
                messages[m.convID] == if exists x | x in rest :: x.id == m.id then rest else rest + [m]
    {
      hide LocalID, FirstPending, IsFirstEcho;
      var msgs := ListOf(messages, m.convID);
      ghost var list := msgs;
      var tempIndex := FindPending(msgs, Key(m.authorID, m.body));
      if tempIndex < |msgs| {
        msgs := msgs[..tempIndex] + msgs[tempIndex + 1..];
      }
      var known := Knows(msgs, m.id);
      if !known {
        msgs := msgs + [m];
      }
      messages := messages[m.convID := msgs];
      FirstEchoed(list, m);
    }

    method OpenConversation(id: string) returns (reqId: nat)
      modifies `messagesReqId, `active
      ensures State() == Step(old(State()), Open(id))
      ensures reqId == messagesReqId
    {
      messagesReqId := messagesReqId + 1;
      reqId := messagesReqId;
      active := Some(id);
    }

    method OnFetched(reqId: nat, id: string, data: seq<Message>)
      modifies `messages
      ensures State() == Step(old(State()), Fetched(reqId, id, data))
    {
      if reqId != messagesReqId || active != Some(id) {
        return;
      }
      messages := messages[id := data];
    }

    method OnLogIn(user: string)
      modifies `me
      ensures State() == Step(old(State()), LogIn(user))
    {
      me := user;
    }

    method OnLogOut()
      modifies this
      ensures State() == Step(old(State()), LogOut)
      ensures messages == map[] && active == None && messagesReqId == old(messagesReqId)
      ensures me == "3e62ced9-275f-4e96-82f1-d505730df6af"
    {
      me, active, messages := DEMO_USER, None, map[];
    }
  }
}
