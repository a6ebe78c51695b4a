/**
 The optimistic message list of one conversation: a send shows a provisional `local-` entry,
 the server's echo replaces it, a failed request withdraws it.
 */
module MessageList {
  import opened Prelude

  datatype Message = Message(id: string, convID: string, authorID: string, body: Option<string>, createdAt: int)

  /** What an echo is matched on: an author and a body. */
  datatype Key = Key(authorID: string, body: Option<string>)

  const LOCAL_PREFIX: string := "local-"

  predicate LocalID(id: string) { LOCAL_PREFIX <= id }

  predicate IsLocal(m: Message) { LocalID(m.id) }

  predicate HasID(list: seq<Message>, id: string) {
    exists m | m in list :: m.id == id
  }

  /** Position of the first provisional entry with this key, or |list|. */
  function FirstPending(list: seq<Message>, key: Key): (i: nat)
    ensures i <= |list|
    ensures i < |list| ==> IsLocal(list[i]) && list[i].authorID == key.authorID && list[i].body == key.body
    ensures forall j | 0 <= j < i :: !(IsLocal(list[j]) && list[j].authorID == key.authorID && list[j].body == key.body)
  {
    if list == [] || (IsLocal(list[0]) && list[0].authorID == key.authorID && list[0].body == key.body) then 0
    else 1 + FirstPending(list[1..], key)
  }

  function WithoutPending(list: seq<Message>, key: Key): seq<Message> {
    var i := FirstPending(list, key);
    if i < |list| then list[..i] + list[i + 1..] else list
  }

  /** A chat message from the socket: drop one matching provisional entry, then add it unless its id is known. */
  function Reconcile(list: seq<Message>, m: Message): seq<Message> {
    var rest := WithoutPending(list, Key(m.authorID, m.body));
    if HasID(rest, m.id) then rest else rest + [m]
  }

  /** x is a provisional entry for the text that m echoes. */
  predicate EchoedBy(x: Message, m: Message) {
    "local-" <= x.id && x.authorID == m.authorID && x.body == m.body
  }

  /** The first such entry, or the end of the list. */
  ghost predicate IsFirstEcho(list: seq<Message>, m: Message, i: nat) {
    && i <= |list|
    && (forall j | 0 <= j < i :: !EchoedBy(list[j], m))
    && (i < |list| ==> EchoedBy(list[i], m))
  }

  lemma FirstEchoed(list: seq<Message>, m: Message)
    ensures IsFirstEcho(list, m, FirstPending(list, Key(m.authorID, m.body)))
  {
  }

  /**
   An arrival takes out the first provisional entry with its author and body, if there is one, and
   no other; then it stands at the end unless its id is there already.
   */
  lemma ArrivalRemovesFirstMatch(list: seq<Message>, m: Message, i: nat)
    requires IsFirstEcho(list, m, i)
    ensures var rest := if i < |list| then list[..i] + list[i + 1..] else list;
            Reconcile(list, m) == if exists x | x in rest :: x.id == m.id then rest else rest + [m]
  {
  }

  /** `filter(m => m.id !== id)`. */
  function Withdraw(list: seq<Message>, id: string): seq<Message> {
    if list == [] then []
    else Withdraw(Init(list), id) + if Last(list).id == id then [] else [Last(list)]
  }

  datatype Event =
    | Sent(m: Message)       // the provisional entry is shown
    | Failed(m: Message)     // its request failed
    | Delivered(m: Message)  // a stored message arrived

  function Apply(list: seq<Message>, e: Event): seq<Message> {
    match e
    case Sent(m) => list + [m]
    case Failed(m) => Withdraw(list, m.id)
    case Delivered(m) => Reconcile(list, m)
  }

  function Run(list: seq<Message>, es: seq<Event>): seq<Message> {
    if es == [] then list else Apply(Run(list, Init(es)), Last(es))
  }

  /** Provisional ids carry the prefix, server ids (UUID text) do not. */
  ghost predicate Tagged(es: seq<Event>) {
    forall e | e in es :: IsLocal(e.m) <==> !e.Delivered?
  }

  // -------------------------------------------------------------- the stored part of the list

  function ServerPart(list: seq<Message>): seq<Message> {
    if list == [] then []
    else ServerPart(Init(list)) + if IsLocal(Last(list)) then [] else [Last(list)]
  }

  lemma {:induction false} ServerPartConcat(a: seq<Message>, b: seq<Message>)
    ensures ServerPart(a + b) == ServerPart(a) + ServerPart(b)
  {
    hide LocalID, IsLocal;
    if b == [] {
      assert a + b == a;
    } else {
      ServerPartConcat(a, Init(b));
      assert Init(a + b) == a + Init(b);
    }
  }

  lemma {:induction false} ServerPartMembers(list: seq<Message>)
    ensures forall m :: m in ServerPart(list) <==> m in list && !IsLocal(m)
  {
    if list != [] {
      ServerPartMembers(Init(list));
      assert list == Init(list) + [Last(list)];
    }
  }

  lemma ServerPartSnoc(list: seq<Message>, m: Message)
    ensures ServerPart(list + [m]) == ServerPart(list) + if IsLocal(m) then [] else [m]
  {
  }

  lemma CutLocal(a: seq<Message>, x: Message, b: seq<Message>)
    requires IsLocal(x)
    ensures ServerPart(a + [x] + b) == ServerPart(a + b)
  {
    hide LocalID, ServerPart;
    ServerPartConcat(a + [x], b);
    ServerPartConcat(a, b);
    ServerPartSnoc(a, x);
  }

  lemma DropPendingKeepsServerPart(list: seq<Message>, key: Key)
    ensures ServerPart(WithoutPending(list, key)) == ServerPart(list)
  {
    hide LocalID, ServerPart;
    var i := FirstPending(list, key);
    if i < |list| {
      hide FirstPending;
      assert list == list[..i] + [list[i]] + list[i + 1..];
      CutLocal(list[..i], list[i], list[i + 1..]);
    }
  }

  lemma {:induction false} WithdrawKeepsServerPart(list: seq<Message>, id: string)
    requires forall m | m in list && m.id == id :: IsLocal(m)
    ensures ServerPart(Withdraw(list, id)) == ServerPart(list)
  {
    hide LocalID;
    if list != [] {
      hide ServerPart;
      var before, m := Init(list), Last(list);
      WithdrawKeepsServerPart(before, id);
      assert list == before + [m];
      ServerPartSnoc(before, m);
      ServerPartSnoc(Withdraw(before, id), m);
      assert Withdraw(before, id) + [] == Withdraw(before, id);
      assert m.id == id ==> IsLocal(m);
    }
  }

  /** The last event is the first arrival of an id the initial list did not hold. */
  ghost predicate IsFirstArrival(list: seq<Message>, es: seq<Event>)
    requires es != []
  {
    && Last(es).Delivered?
    && !HasID(list, Last(es).m.id)
    && forall e | e in Init(es) && e.Delivered? :: e.m.id != Last(es).m.id
  }

  /** The first deliveries of new ids, in arrival order. */
  ghost function FirstArrivals(list: seq<Message>, es: seq<Event>): seq<Message> {
    if es == [] then []
    else FirstArrivals(list, Init(es)) + if IsFirstArrival(list, es) then [Last(es).m] else []
  }

  lemma {:induction false} ArrivalIDs(list: seq<Message>, es: seq<Event>, id: string)
    requires !HasID(list, id)
    ensures HasID(FirstArrivals(list, es), id) <==> exists e | e in es :: e.Delivered? && e.m.id == id
  {
    if es != [] {
      ArrivalIDs(list, Init(es), id);
      assert es == Init(es) + [Last(es)];
      var before := FirstArrivals(list, Init(es));
      if Last(es).Delivered? && Last(es).m.id == id && IsFirstArrival(list, es) {
        assert Last(es).m in before + [Last(es).m];
      }
      if HasID(before, id) {
        var m :| m in before && m.id == id;
        assert m in FirstArrivals(list, es);
      }
    }
  }

  lemma StepServerPart(list: seq<Message>, e: Event)
    requires IsLocal(e.m) <==> !e.Delivered?
    ensures ServerPart(Apply(list, e))
         == ServerPart(list) + if e.Delivered? && !HasID(ServerPart(list), e.m.id) then [e.m] else []
  {
    match e
    case Sent(m) =>
      ServerPartConcat(list, [m]);
      assert Init([m]) == [];
    case Failed(m) =>
      WithdrawKeepsServerPart(list, m.id);
    case Delivered(m) =>
      var rest := WithoutPending(list, Key(m.authorID, m.body));
      DropPendingKeepsServerPart(list, Key(m.authorID, m.body));
      ServerPartMembers(rest);
      if HasID(rest, m.id) {
        var x :| x in rest && x.id == m.id;
        assert x in ServerPart(rest);
      } else {
        ServerPartConcat(rest, [m]);
        assert Init([m]) == [];
      }
  }

  /**
   Redelivery tolerance: whatever is sent, fails, repeats or arrives out of order, the stored
   messages shown are the initial ones followed by the first arrivals of new ids, in order.
   */
  lemma {:induction false} StoredPartIsFirstArrivals(list: seq<Message>, es: seq<Event>)
    requires Tagged(es)
    ensures ServerPart(Run(list, es)) == ServerPart(list) + FirstArrivals(ServerPart(list), es)
  {
    if es != [] {
      hide LocalID, ServerPart, Apply;
      var before, e, shown := Init(es), Last(es), ServerPart(list);
      StoredPartIsFirstArrivals(list, before);
      StepServerPart(Run(list, before), e);
      var arrived := FirstArrivals(shown, before);
      if e.Delivered? {
        assert HasID(shown + arrived, e.m.id) <==> HasID(shown, e.m.id) || HasID(arrived, e.m.id) by {
          assert forall m :: m in shown + arrived <==> m in shown || m in arrived;
        }
        if !HasID(shown, e.m.id) {
          ArrivalIDs(shown, before, e.m.id);
        }
      }
    }
  }

  ghost predicate DistinctIDs(list: seq<Message>) {
    forall i, j | 0 <= i < j < |list| :: list[i].id != list[j].id
  }

  /** Stored ids stay pairwise distinct over every run. */
  lemma {:induction false} StoredIDsStayDistinct(list: seq<Message>, es: seq<Event>)
    requires Tagged(es) && DistinctIDs(ServerPart(list))
    ensures DistinctIDs(ServerPart(Run(list, es)))
  {
    if es != [] {
      StoredIDsStayDistinct(list, Init(es));
      StepServerPart(Run(list, Init(es)), Last(es));
      var shown, m := ServerPart(Run(list, Init(es))), Last(es).m;
      assert forall i | 0 <= i < |shown| :: shown[i] in shown;
    }
  }

  // ------------------------------------------------------------------- provisional entries

  /** The provisional entries with one author and body. */
  function Pending(list: seq<Message>, key: Key): set<Message> {
    set m | m in list && IsLocal(m) && m.authorID == key.authorID && m.body == key.body
  }

  /** One entry per provisional message, each put there by a send of the run. */
  ghost predicate LocalsFromSends(list: seq<Message>, es: seq<Event>) {
    && (forall m | m in list && IsLocal(m) :: Sent(m) in es)
    && (forall i, j | 0 <= i < j < |list| && IsLocal(list[i]) && IsLocal(list[j]) :: list[i].id != list[j].id)
  }

  /** No send of the run drew this id: the refused send belongs to another list, or to an earlier run of this one. */
  ghost predicate Foreign(es: seq<Event>, m: Message) {
    forall e | e in es && e.Sent? :: e.m.id != m.id
  }

  /** Each send draws its own provisional id, and what fails is an earlier send of the run or a foreign one. */
  ghost predicate Genuine(es: seq<Event>) {
    && Tagged(es)
    && (forall i, j | 0 <= i < j < |es| && es[i].Sent? && es[j].Sent? :: es[i].m.id != es[j].m.id)
    && (forall j | 0 <= j < |es| && es[j].Failed? :: Sent(es[j].m) in es[..j] || Foreign(es, es[j].m))
  }

  lemma GenuinePrefix(es: seq<Event>)
    requires Genuine(es) && es != []
    ensures Genuine(Init(es))
    ensures Last(es).Sent? ==> forall e | e in Init(es) && e.Sent? :: e.m.id != Last(es).m.id
    ensures Last(es).Failed? ==> Sent(Last(es).m) in Init(es) || Foreign(es, Last(es).m)
  {
  }

  lemma {:induction false} WithdrawMembers(list: seq<Message>, id: string)
    ensures forall m :: m in Withdraw(list, id) <==> m in list && m.id != id
    ensures forall es | LocalsFromSends(list, es) :: LocalsFromSends(Withdraw(list, id), es)
  {
    if list != [] {
      WithdrawMembers(Init(list), id);
      assert list == Init(list) + [Last(list)];
      forall es | LocalsFromSends(list, es)
        ensures LocalsFromSends(Withdraw(list, id), es)
      {
        assert LocalsFromSends(Init(list), es);
        var rest := Withdraw(Init(list), id);
        forall i | 0 <= i < |rest| && IsLocal(rest[i]) && IsLocal(Last(list))
          ensures rest[i].id != Last(list).id
        {
          assert rest[i] in rest;
          var k :| 0 <= k < |Init(list)| && Init(list)[k] == rest[i];
          assert list[k] == rest[i];
        }
      }
    }
  }

  lemma WithoutPendingLocals(list: seq<Message>, key: Key, es: seq<Event>)
    requires LocalsFromSends(list, es)
    ensures LocalsFromSends(WithoutPending(list, key), es)
  {
  }

  lemma WithoutPendingMembers(list: seq<Message>, key: Key, es: seq<Event>, k: Key)
    requires LocalsFromSends(list, es)
    ensures Pending(WithoutPending(list, key), k)
         == if FirstPending(list, key) < |list| then Pending(list, k) - {list[FirstPending(list, key)]}
            else Pending(list, k)
  {
  }

  /**
   The last event answers one of the run's sends with this key: its refusal, or the first arrival
   of a message, which carries no provisional id and so answers the oldest send still open.
   */
  ghost predicate Answers(list: seq<Message>, es: seq<Event>, key: Key)
    requires es != []
  {
    && Last(es).m.authorID == key.authorID && Last(es).m.body == key.body
    && (|| (Last(es).Failed? && Sent(Last(es).m) in Init(es))
        || (Last(es).Delivered? && IsFirstArrival(list, es)))
  }

  /** One less, unless none is left: an arrival may also come from elsewhere or follow a refusal. */
  function Less(n: nat): nat { if n > 0 then n - 1 else 0 }

  /** Sends of the run with this key that no event has answered. */
  ghost function Awaited(list: seq<Message>, es: seq<Event>, key: Key): nat {
    if es == [] then 0
    else
      var n := Awaited(list, Init(es), key);
      if Answers(list, es, key) then Less(n)
      else if Last(es).Sent? && Last(es).m.authorID == key.authorID && Last(es).m.body == key.body then n + 1
      else n
  }

  /**
   The last event meets the list it should: a refusal of the run's own send finds its provisional
   entry, unless none of its key is left, and a repeated message finds none to remove.
   */
  ghost predicate Fits(list: seq<Message>, es: seq<Event>, key: Key)
    requires es != []
  {
    Last(es).m.authorID == key.authorID && Last(es).m.body == key.body ==>
      match Last(es)
      case Sent(_) => true
      case Failed(m) => Sent(m) in Init(es) ==> m in Pending(list, key) || Pending(list, key) == {}
      case Delivered(m) => HasID(list, m.id) ==> Pending(list, key) == {}
  }

  /** What one event does to the number of provisional entries of a key. */
  ghost predicate Accounted(list: seq<Message>, e: Event, key: Key) {
    |Pending(Apply(list, e), key)| == |Pending(list, key)| +
      if e.m.authorID != key.authorID || e.m.body != key.body then 0
      else match e
        case Sent(_) => 1
        case Failed(m) => if m in Pending(list, key) then -1 else 0
        case Delivered(_) => if Pending(list, key) != {} then -1 else 0
  }

  lemma SentAccounted(list: seq<Message>, es: seq<Event>, m: Message, key: Key)
    requires LocalsFromSends(list, es) && IsLocal(m)
    requires forall e | e in es && e.Sent? :: e.m.id != m.id
    ensures Accounted(list, Sent(m), key)
    ensures LocalsFromSends(list + [m], es + [Sent(m)])
  {
    hide LocalID;
    forall i | 0 <= i < |list| && IsLocal(list[i])
      ensures list[i].id != m.id
    {
      assert Sent(list[i]) in es;
    }
    assert Pending(list + [m], key) == Pending(list, key) + if Key(m.authorID, m.body) == key then {m} else {};
  }

  lemma FailedAccounted(list: seq<Message>, es: seq<Event>, m: Message, key: Key)
    requires LocalsFromSends(list, es) && IsLocal(m)
    requires Sent(m) in es || Foreign(es, m)
    requires forall x, y | Sent(x) in es && Sent(y) in es && x.id == y.id :: x == y
    ensures Accounted(list, Failed(m), key)
    ensures LocalsFromSends(Withdraw(list, m.id), es)
  {
    hide LocalID;
    WithdrawMembers(list, m.id);
    assert forall x | x in list && IsLocal(x) && x.id == m.id :: Sent(x) in es;
    assert Pending(Withdraw(list, m.id), key) == Pending(list, key) - {m};
  }

  lemma StoredIsNotPending(list: seq<Message>, m: Message, es: seq<Event>, key: Key)
    requires LocalsFromSends(list, es) && !IsLocal(m)
    ensures Pending(list + [m], key) == Pending(list, key)
    ensures LocalsFromSends(list + [m], es)
  {
  }

  lemma DeliveredAccounted(list: seq<Message>, es: seq<Event>, m: Message, key: Key)
    requires LocalsFromSends(list, es) && !IsLocal(m)
    ensures Accounted(list, Delivered(m), key)
    ensures LocalsFromSends(Reconcile(list, m), es)
  {
    hide LocalID, IsLocal, WithoutPending, FirstPending, LocalsFromSends;
    WithoutPendingLocals(list, Key(m.authorID, m.body), es);
    WithoutPendingMembers(list, Key(m.authorID, m.body), es, key);
    PendingFound(list, Key(m.authorID, m.body));
    StoredIsNotPending(WithoutPending(list, Key(m.authorID, m.body)), m, es, key);
    hide Pending, HasID;
    if FirstPending(list, Key(m.authorID, m.body)) < |list| && Key(m.authorID, m.body) != key {
      OtherKey(list, list[FirstPending(list, Key(m.authorID, m.body))], Key(m.authorID, m.body), key);
    }
  }

  lemma OtherKey(list: seq<Message>, x: Message, key: Key, other: Key)
    requires x in Pending(list, key) && key != other
    ensures Pending(list, other) - {x} == Pending(list, other)
  {
  }

  lemma SendsUnique(es: seq<Event>)
    requires Genuine(es)
    ensures forall x, y | Sent(x) in es && Sent(y) in es && x.id == y.id :: x == y
  {
  }

  lemma StepPending(list: seq<Message>, es: seq<Event>, key: Key)
    requires Genuine(es) && es != [] && LocalsFromSends(list, Init(es))
    ensures LocalsFromSends(Apply(list, Last(es)), es)
    ensures Accounted(list, Last(es), key)
  {
    hide LocalID, Accounted, Reconcile, Withdraw;
    GenuinePrefix(es);
    SendsUnique(Init(es));
    assert es == Init(es) + [Last(es)];
    match Last(es)
    case Sent(m) => SentAccounted(list, Init(es), m, key);
    case Failed(m) => FailedAccounted(list, Init(es), m, key);
    case Delivered(m) => DeliveredAccounted(list, Init(es), m, key);
  }

  lemma PendingFound(list: seq<Message>, key: Key)
    ensures FirstPending(list, key) < |list| <==> Pending(list, key) != {}
    ensures FirstPending(list, key) < |list| ==> list[FirstPending(list, key)] in Pending(list, key)
  {
  }

  /** The provisional entries of a run started from stored messages are sends of the run. */
  lemma {:induction false} RunLocals(list: seq<Message>, es: seq<Event>)
    requires Genuine(es) && ServerPart(list) == list
    ensures LocalsFromSends(Run(list, es), es)
    ensures es == [] ==> forall key :: Pending(list, key) == {}
  {
    hide LocalID;
    if es == [] {
      ServerPartMembers(list);
      assert forall m | m in list :: !IsLocal(m);
    } else {
      GenuinePrefix(es);
      RunLocals(list, Init(es));
      StepPending(Run(list, Init(es)), es, Key(Last(es).m.authorID, Last(es).m.body));
    }
  }

  /** The id check of the handler decides whether a message arrives for the first time. */
  lemma KnownIsRepeated(list: seq<Message>, es: seq<Event>)
    requires Tagged(es) && ServerPart(list) == list && es != [] && Last(es).Delivered?
    ensures IsFirstArrival(list, es) <==> !HasID(Run(list, Init(es)), Last(es).m.id)
  {
    hide LocalID;
    var before, id := Init(es), Last(es).m.id;
    var now := Run(list, before);
    StoredPartIsFirstArrivals(list, before);
    ServerPartMembers(now);
    RunServerIDs(list, before, id);
    assert forall m :: m in list + FirstArrivals(list, before) <==> m in list || m in FirstArrivals(list, before);
    if !HasID(list, id) {
      ArrivalIDs(list, before, id);
    }
  }

  /** No provisional entry ever carries a server id. */
  lemma RunServerIDs(list: seq<Message>, es: seq<Event>, id: string)
    requires !LocalID(id)
    ensures HasID(Run(list, es), id) <==> HasID(ServerPart(Run(list, es)), id)
  {
    var now := Run(list, es);
    ServerPartMembers(now);
    if HasID(now, id) {
      var m :| m in now && m.id == id;
      assert m in ServerPart(now);
    }
  }

  ghost predicate AllFit(list: seq<Message>, es: seq<Event>, key: Key) {
    forall k | 0 <= k < |es| :: Fits(Run(list, es[..k]), es[..k + 1], key)
  }

  /** At every moment of the run the provisional entries are exactly the awaited sends. */
  ghost predicate Tracks(list: seq<Message>, es: seq<Event>, key: Key) {
    forall k | 0 <= k <= |es| :: |Pending(Run(list, es[..k]), key)| == Awaited(list, es[..k], key)
  }

  lemma AllFitStep(list: seq<Message>, es: seq<Event>, key: Key)
    requires es != []
    ensures AllFit(list, es, key) <==> AllFit(list, Init(es), key) && Fits(Run(list, Init(es)), es, key)
  {
    hide Fits, Run;
    var before := Init(es);
    assert forall k | 0 <= k <= |before| :: before[..k] == es[..k];
    assert es[..|before|] == before && es[..|before| + 1] == es;
  }

  lemma TracksStep(list: seq<Message>, es: seq<Event>, key: Key)
    requires es != []
    ensures Tracks(list, es, key) <==>
              Tracks(list, Init(es), key) && |Pending(Run(list, es), key)| == Awaited(list, es, key)
  {
    hide Awaited, Run, Pending;
    var before := Init(es);
    assert forall k | 0 <= k <= |before| :: before[..k] == es[..k];
    assert es[..|es|] == es;
  }

  lemma FitsIsOneStep(list: seq<Message>, es: seq<Event>, key: Key)
    requires Genuine(es) && ServerPart(list) == list && es != []
    requires |Pending(Run(list, Init(es)), key)| == Awaited(list, Init(es), key)
    ensures |Pending(Run(list, es), key)| == Awaited(list, es, key) <==> Fits(Run(list, Init(es)), es, key)
  {
    hide LocalID, IsLocal, Apply, IsFirstArrival;
    GenuinePrefix(es);
    RunLocals(list, Init(es));
    StepPending(Run(list, Init(es)), es, key);
    if Last(es).Delivered? {
      KnownIsRepeated(list, es);
    }
    hide Genuine, LocalsFromSends, ServerPart;
  }

  /**
   Optimistic reconciliation, exactly: in a run started from stored messages the provisional
   entries of an author and body are at every moment as many as the sends still awaited, if and
   only if every event met the list it should.
   */
  lemma {:induction false} ReconciliationExactly(list: seq<Message>, es: seq<Event>, key: Key)
    requires Genuine(es) && ServerPart(list) == list
    ensures Tracks(list, es, key) <==> AllFit(list, es, key)
  {
    RunLocals(list, []);
    assert es[..|es|] == es;
    if es != [] {
      hide Awaited, Run, Pending, Fits, AllFit;
      GenuinePrefix(es);
      ReconciliationExactly(list, Init(es), key);
      AllFitStep(list, es, key);
      TracksStep(list, es, key);
      assert Init(es)[..|Init(es)|] == Init(es);
      if Tracks(list, Init(es), key) {
        FitsIsOneStep(list, es, key);
      }
    }
  }

  /** No send of the run is refused. */
  ghost predicate NoneRefused(es: seq<Event>) {
    forall e | e in es && e.Failed? :: Foreign(es, e.m)
  }

  function SendsMinusEchoes(es: seq<Event>, key: Key): int {
    if es == [] then 0
    else
      var n := SendsMinusEchoes(Init(es), key);
      var m := Last(es).m;
      if m.authorID != key.authorID || m.body != key.body || Last(es).Failed? then n
      else if Last(es).Sent? then n + 1
      else n - 1
  }

  /** At every moment the provisional entries are the sends minus the echoes. */
  ghost predicate CountsEchoes(list: seq<Message>, es: seq<Event>, key: Key) {
    && |Pending(Run(list, es), key)| == SendsMinusEchoes(es, key)
    && (es != [] ==> CountsEchoes(list, Init(es), key))
  }

  /** No echo ahead of its send: no prefix holds more echoes than sends. */
  ghost predicate EchoesFollowSends(es: seq<Event>, key: Key) {
    SendsMinusEchoes(es, key) >= 0 && (es != [] ==> EchoesFollowSends(Init(es), key))
  }

  lemma EchoStep(list: seq<Message>, es: seq<Event>, key: Key)
    requires Genuine(es) && ServerPart(list) == list && es != []
    requires Last(es).Failed? ==> Foreign(es, Last(es).m)
    requires |Pending(Run(list, Init(es)), key)| == SendsMinusEchoes(Init(es), key)
    ensures |Pending(Run(list, es), key)| == SendsMinusEchoes(es, key) <==> SendsMinusEchoes(es, key) >= 0
  {
    hide LocalID, IsLocal, Apply;
    GenuinePrefix(es);
    RunLocals(list, Init(es));
    StepPending(Run(list, Init(es)), es, key);
  }

  /**
   Without refusals the condition is about order alone: the entries are sends minus echoes
   throughout, exactly when no prefix holds more echoes than sends of that author and body.
   */
  lemma {:induction false} EchoOrderExactly(list: seq<Message>, es: seq<Event>, key: Key)
    requires Genuine(es) && ServerPart(list) == list && NoneRefused(es)
    ensures CountsEchoes(list, es, key) <==> EchoesFollowSends(es, key)
  {
    RunLocals(list, []);
    if es != [] {
      hide Run, Pending, SendsMinusEchoes;
      GenuinePrefix(es);
      assert es == Init(es) + [Last(es)];
      EchoOrderExactly(list, Init(es), key);
      if CountsEchoes(list, Init(es), key) {
        EchoStep(list, es, key);
      }
    }
  }

  /**
   When nothing sent is awaited any more the list is the stored messages, each once, whatever
   other authors wrote in between.
   */
  lemma SettledListIsStored(list: seq<Message>, es: seq<Event>)
    requires Genuine(es) && ServerPart(list) == list
    requires forall m | Sent(m) in es ::
               var key := Key(m.authorID, m.body);
               AllFit(list, es, key) && Awaited(list, es, key) == 0
    ensures Run(list, es) == list + FirstArrivals(list, es)
  {
    hide LocalID;
    var final := Run(list, es);
    assert es[..|es|] == es;
    RunLocals(list, es);
    forall m | Sent(m) in es
      ensures m !in final
    {
      ReconciliationExactly(list, es, Key(m.authorID, m.body));
      assert Pending(final, Key(m.authorID, m.body)) == {};
      assert m in final ==> m in Pending(final, Key(m.authorID, m.body));
    }
    ServerPartOfStored(final);
    StoredPartIsFirstArrivals(list, es);
  }

  lemma {:induction false} ServerPartOfStored(list: seq<Message>)
    requires forall m | m in list :: !IsLocal(m)
    ensures ServerPart(list) == list
  {
    hide LocalID, IsLocal;
    if list != [] {
      assert forall m | m in Init(list) :: m in list;
      ServerPartOfStored(Init(list));
      assert Last(list) in list && list == Init(list) + [Last(list)];
    }
  }

  // --------------------------------------------------------------- two runs that do not track

  lemma RunSnoc(list: seq<Message>, es: seq<Event>, e: Event, key: Key)
    ensures Run(list, es + [e]) == Apply(Run(list, es), e)
    ensures Awaited(list, es + [e], key)
         == (if Answers(list, es + [e], key) then Less(Awaited(list, es, key))
             else if e.Sent? && e.m.authorID == key.authorID && e.m.body == key.body then Awaited(list, es, key) + 1
             else Awaited(list, es, key))
  {
  }

  lemma TwoSendsAndEcho(a: Message, b: Message, m: Message)
    ensures Run([], [Sent(a), Sent(b), Delivered(m)]) == Reconcile([a, b], m)
  {
    hide Reconcile;
    var es := [Sent(a), Sent(b), Delivered(m)];
    assert Init(es) == [Sent(a), Sent(b)] && Init([Sent(a), Sent(b)]) == [Sent(a)] && Init([Sent(a)]) == [];
    assert [] + [a] == [a] && [a] + [b] == [a, b];
    assert Run([], [Sent(a)]) == [a];
    assert Run([], [Sent(a), Sent(b)]) == [a, b];
  }

  /** Two sends of different texts and the echo of the second: the first stays where it is. */
  lemma EchoPicksItsText(a: Message, b: Message, m: Message)
    requires "local-" <= a.id && "local-" <= b.id && !("local-" <= m.id)
    requires a.authorID == b.authorID == m.authorID && a.body != b.body == m.body
    ensures Run([], [Sent(a), Sent(b), Delivered(m)]) == [a, m]
  {
    assert IsFirstEcho([a, b], m, 1) && a.id != m.id;
    hide LocalID, EchoedBy, IsFirstEcho, Awaited, Reconcile;
    TwoSendsAndEcho(a, b, m);
    ArrivalRemovesFirstMatch([a, b], m, 1);
    assert [a, b][..1] + [a, b][2..] == [a];
    assert [a] + [m] == [a, m];
  }

  /** Two sends of one text and the echo of the first: whichever was stored, the older entry goes. */
  lemma TwinsAndOneEcho(a: Message, b: Message, m: Message)
    requires IsLocal(a) && IsLocal(b) && !IsLocal(m)
    requires a.authorID == b.authorID == m.authorID && a.body == b.body == m.body
    ensures Run([], [Sent(a), Sent(b), Delivered(m)]) == [b, m]
    ensures Awaited([], [Sent(a), Sent(b), Delivered(m)], Key(m.authorID, m.body)) == 1
  {
    var key := Key(m.authorID, m.body);
    RunSnoc([], [], Sent(a), key);
    RunSnoc([], [Sent(a)], Sent(b), key);
    RunSnoc([], [Sent(a), Sent(b)], Delivered(m), key);
    assert [] + [Sent(a)] == [Sent(a)];
    assert [Sent(a)] + [Sent(b)] == [Sent(a), Sent(b)];
    assert [Sent(a), Sent(b)] + [Delivered(m)] == [Sent(a), Sent(b), Delivered(m)];
    assert [] + [a] == [a] && [a] + [b] == [a, b];
    assert FirstPending([a, b], key) == 0;
    assert WithoutPending([a, b], key) == [b];
    assert [b] + [m] == [b, m];
    assert IsFirstArrival([], [Sent(a), Sent(b), Delivered(m)]);
  }

  /** If that echo is delivered again, the second send vanishes while still awaited. */
  lemma RepeatedEchoEatsSibling(a: Message, b: Message, m: Message)
    requires IsLocal(a) && IsLocal(b) && !IsLocal(m)
    requires a.authorID == b.authorID == m.authorID && a.body == b.body == m.body
    ensures Run([], [Sent(a), Sent(b), Delivered(m), Delivered(m)]) == [m]
    ensures Awaited([], [Sent(a), Sent(b), Delivered(m), Delivered(m)], Key(m.authorID, m.body)) == 1
  {
    hide LocalID;
    var es := [Sent(a), Sent(b), Delivered(m)];
    TwinsAndOneEcho(a, b, m);
    RunSnoc([], es, Delivered(m), Key(m.authorID, m.body));
    assert es + [Delivered(m)] == [Sent(a), Sent(b), Delivered(m), Delivered(m)];
    assert WithoutPending([b, m], Key(m.authorID, m.body)) == [m];
    assert m in [m];
    assert es[2] in Init(es + [Delivered(m)]);
  }

  /** If that echo was the second's and the first is refused, the second stays for ever though nothing is awaited. */
  lemma RefusedTwinStays(a: Message, b: Message, m: Message)
    requires IsLocal(a) && IsLocal(b) && !IsLocal(m) && a.id != b.id
    requires a.authorID == b.authorID == m.authorID && a.body == b.body == m.body
    ensures Run([], [Sent(a), Sent(b), Delivered(m), Failed(a)]) == [b, m]
    ensures Awaited([], [Sent(a), Sent(b), Delivered(m), Failed(a)], Key(m.authorID, m.body)) == 0
  {
    hide LocalID;
    var es := [Sent(a), Sent(b), Delivered(m)];
    TwinsAndOneEcho(a, b, m);
    RunSnoc([], es, Failed(a), Key(m.authorID, m.body));
    assert es + [Failed(a)] == [Sent(a), Sent(b), Delivered(m), Failed(a)];
    assert Init([b, m]) == [b] && Init([b]) == [];
    assert a.id != m.id;
    assert Withdraw([b], a.id) == [b];
    assert Withdraw([b, m], a.id) == [b] + [m] == [b, m];
  }
}
