/**
 Concurrent requests against the conversation tables. A create checks the committed tables, then
 writes its rows inside a transaction nobody else sees until it commits; it may stop before any
 statement. A message post checks membership, then inserts.
 */
module ConversationServer {
  import opened Prelude
  import opened ConversationTables

  /** An open transaction: the participants still to insert and the rows written so far. */
  datatype Tx = Tx(req: Request, id: Uuid, todo: set<Uuid>, rows: set<(Uuid, Uuid)>)

  datatype Server = Server(t: Tables, txs: map<nat, Tx>, posts: map<nat, (Uuid, Uuid)>)

  datatype Event =
    | Check(r: nat, req: Request, id: Uuid)      // validation passed or not; `id` is the drawn row id
    | InsertParticipant(r: nat, user: Uuid)
    | Commit(r: nat)
    | Abort(r: nat)                              // any statement failed
    | CheckPost(p: nat, conv: Uuid, author: Uuid)
    | Save(p: nat, body: string)

  ghost function Step(s: Server, e: Event): Server {
    match e
    case Check(r, req, id) =>
      if Refuse(s.t, req).None? && r !in s.txs then s.(txs := s.txs[r := Tx(req, id, Wanted(req), {})]) else s
    case InsertParticipant(r, u) =>
      if r in s.txs && u in s.txs[r].todo
      then s.(txs := s.txs[r := s.txs[r].(todo := s.txs[r].todo - {u}, rows := s.txs[r].rows + {(s.txs[r].id, u)})])
      else s
    case Commit(r) =>
      if Committing(s, e) then s.(t := Published(s.t, s.txs[r]), txs := s.txs - {r}) else s
    case Abort(r) =>
      s.(txs := s.txs - {r})
    case CheckPost(p, conv, author) =>
      if author in Members(s.t, conv) then s.(posts := s.posts[p := (conv, author)]) else s.(posts := s.posts - {p})
    case Save(p, body) =>
      if p in s.posts
      then s.(t := s.t.(messages := s.t.messages + [Post(s.posts[p].0, s.posts[p].1, body)]), posts := s.posts - {p})
      else s
  }

  predicate Committing(s: Server, e: Event) {
    e.Commit? && e.r in s.txs && s.txs[e.r].todo == {}
  }

  /** COMMIT makes the transaction's own rows visible. */
  function Published(t: Tables, tx: Tx): Tables {
    t.(conversations := t.conversations[tx.id := RowFor(tx.req)], participants := t.participants + tx.rows)
  }

  ghost function Run(s: Server, es: seq<Event>): Server {
    if es == [] then s else Step(Run(s, Init(es)), Last(es))
  }

  function Idle(t: Tables): Server { Server(t, map[], map[]) }

  /** A drawn row id is in no table and in no open transaction. */
  ghost predicate NewID(s: Server, e: Event) {
    e.Check? ==> e.id !in s.t.conversations && forall r | r in s.txs :: s.txs[r].id != e.id
  }

  ghost predicate NewIDs(s: Server, es: seq<Event>) {
    es == [] || (NewIDs(s, Init(es)) && NewID(Run(s, Init(es)), Last(es)))
  }

  // ------------------------------------------------------------------ what every step keeps

  ghost predicate SoundTx(t: Tables, tx: Tx) {
    && tx.id !in t.conversations
    && tx.todo <= Wanted(tx.req)
    && tx.rows == Rows(tx.id, Wanted(tx.req) - tx.todo)
    && Wanted(tx.req) <= t.users.Keys
    && (!tx.req.isGroup ==> |Wanted(tx.req)| == 2)
  }

  ghost predicate Sound(s: Server) {
    && Consistent(s.t)
    && (forall r | r in s.txs :: SoundTx(s.t, s.txs[r]))
    && (forall q, r | q in s.txs && r in s.txs && q != r :: s.txs[q].id != s.txs[r].id)
    && (forall p | p in s.posts :: s.posts[p] in s.t.participants)
  }

  lemma CheckSound(s: Server, e: Event)
    requires Sound(s) && NewID(s, e) && e.Check?
    ensures Sound(Step(s, e))
  {
  }

  lemma InsertSound(s: Server, e: Event)
    requires Sound(s) && e.InsertParticipant?
    ensures Sound(Step(s, e))
  {
  }

  lemma CommitSound(s: Server, e: Event)
    requires Sound(s) && Committing(s, e)
    ensures Sound(Step(s, e))
    ensures Step(s, e).t == Created(s.t, s.txs[e.r].id, s.txs[e.r].req)
  {
    var tx, after := s.txs[e.r], Step(s, e);
    assert Wanted(tx.req) - {} == Wanted(tx.req);
    assert after.t == Created(s.t, tx.id, tx.req);
    assert Consistent(after.t);
    forall r | r in after.txs
      ensures SoundTx(after.t, after.txs[r])
    {
      assert SoundTx(s.t, s.txs[r]);
    }
    hide Wanted, SoundTx, Consistent, Created;
  }

  lemma PostSound(s: Server, e: Event)
    requires Sound(s) && (e.CheckPost? || e.Save? || e.Abort? || (e.Commit? && !Committing(s, e)))
    ensures Sound(Step(s, e))
  {
  }

  /**
   A commit with nothing left to insert adds one whole conversation for exactly the wanted users, a
   save whose check passed adds one message by a participant, and every other step leaves the visible
   tables alone.
   */
  lemma StepIsAtomic(s: Server, e: Event)
    requires Sound(s) && NewID(s, e)
    ensures Sound(Step(s, e))
    ensures Committing(s, e) ==> s.txs[e.r].id !in s.t.conversations
                                 && Step(s, e).t == Created(s.t, s.txs[e.r].id, s.txs[e.r].req)
    ensures e.Save? && e.p in s.posts ==>
              && s.posts[e.p].1 in Members(s.t, s.posts[e.p].0)
              && Step(s, e).t == s.t.(messages := s.t.messages + [Post(s.posts[e.p].0, s.posts[e.p].1, e.body)])
    ensures !Committing(s, e) && !(e.Save? && e.p in s.posts) ==> Step(s, e).t == s.t
  {
    if e.Check? {
      CheckSound(s, e);
    } else if e.InsertParticipant? {
      InsertSound(s, e);
    } else if Committing(s, e) {
      CommitSound(s, e);
    } else {
      PostSound(s, e);
      if e.Save? && e.p in s.posts {
        assert s.posts[e.p] in s.t.participants;
        assert s.posts[e.p].1 in Members(s.t, s.posts[e.p].0);
      }
    }
    hide Sound, Wanted, Refuse;
  }

  /** Authorship in particular: in every interleaving each stored message's author takes part in its conversation. */
  lemma {:induction false} RunStaysSound(s: Server, es: seq<Event>)
    requires Sound(s) && NewIDs(s, es)
    ensures Sound(Run(s, es))
    ensures forall m | m in Run(s, es).t.messages :: m.author in Members(Run(s, es).t, m.conv)
  {
    if es != [] {
      RunStaysSound(s, Init(es));
      StepIsAtomic(Run(s, Init(es)), Last(es));
    }
    assert forall m | m in Run(s, es).t.messages :: (m.conv, m.author) in Run(s, es).t.participants;
  }

  /** Some accepted request of the run asked for this conversation. */
  ghost predicate Requested(es: seq<Event>, req: Request, id: Uuid) {
    exists r :: Check(r, req, id) in es
  }

  lemma RequestedLater(es: seq<Event>, req: Request, id: Uuid)
    requires es != [] && Requested(Init(es), req, id)
    ensures Requested(es, req, id)
  {
  }

  /** A transaction keeps its request and id while it is open. */
  lemma OpenedByCheck(s: Server, e: Event, r: nat)
    requires r in Step(s, e).txs
    ensures var tx := Step(s, e).txs[r];
            || (r in s.txs && s.txs[r].req == tx.req && s.txs[r].id == tx.id)
            || e == Check(r, tx.req, tx.id)
  {
  }

  lemma CheckRequests(es: seq<Event>, r: nat, req: Request, id: Uuid)
    requires es != [] && Last(es) == Check(r, req, id)
    ensures Requested(es, req, id)
  {
  }

  lemma {:induction false} OpenTransactionsWereRequested(t: Tables, es: seq<Event>)
    requires Consistent(t) && NewIDs(Idle(t), es)
    ensures forall r | r in Run(Idle(t), es).txs ::
              Requested(es, Run(Idle(t), es).txs[r].req, Run(Idle(t), es).txs[r].id)
  {
    if es != [] {
      hide Step, Requested;
      OpenTransactionsWereRequested(t, Init(es));
      var before, after := Run(Idle(t), Init(es)), Run(Idle(t), es);
      forall r | r in after.txs
        ensures Requested(es, after.txs[r].req, after.txs[r].id)
      {
        OpenedByCheck(before, Last(es), r);
        var tx := after.txs[r];
        if Last(es) == Check(r, tx.req, tx.id) {
          CheckRequests(es, r, tx.req, tx.id);
        } else {
          RequestedLater(es, tx.req, tx.id);
        }
      }
    }
  }

  /**
   The conversation was there from the start, unchanged, or is exactly what some request asked for:
   a group under its title, a direct conversation without one, with the creator and the requested users.
   */
  ghost predicate Accountable(t: Tables, es: seq<Event>, now: Tables, c: Uuid)
    requires c in now.conversations
  {
    if c in t.conversations then now.conversations[c] == t.conversations[c] && Members(now, c) == Members(t, c)
    else
      exists req ::
        && Requested(es, req, c)
        && now.conversations[c].title == (if req.isGroup then req.title else None)
        && now.conversations[c].isGroup == req.isGroup && now.conversations[c].creator == req.creator
        && Members(now, c) == (set p | p in req.ids && p != NIL) + {req.creator}
        && Members(now, c) <= now.users.Keys
  }

  /**
   Atomic, exact creation: over every interleaving with failures at any statement, old conversations
   keep their participants and each new one has exactly the users its request wanted, all existing.
   */
  lemma {:induction false} ConversationsAreAccountable(t: Tables, es: seq<Event>)
    requires Consistent(t) && NewIDs(Idle(t), es)
    ensures t.conversations.Keys <= Run(Idle(t), es).t.conversations.Keys
    ensures forall c | c in Run(Idle(t), es).t.conversations :: Accountable(t, es, Run(Idle(t), es).t, c)
  {
    if es != [] {
      ConversationsAreAccountable(t, Init(es));
      RunStaysSound(Idle(t), Init(es));
      OpenTransactionsWereRequested(t, Init(es));
      var before, e := Run(Idle(t), Init(es)), Last(es);
      StepIsAtomic(before, e);
      var now := Step(before, e).t;
      forall c | c in now.conversations
        ensures Accountable(t, es, now, c)
      {
        AccountableStep(t, es, before, c);
      }
    }
  }

  lemma AccountableStep(t: Tables, es: seq<Event>, before: Server, c: Uuid)
    requires es != [] && Sound(before) && NewID(before, Last(es))
    requires t.conversations.Keys <= before.t.conversations.Keys
    requires c in Step(before, Last(es)).t.conversations
    requires c in before.t.conversations ==> Accountable(t, Init(es), before.t, c)
    requires forall r | r in before.txs :: Requested(Init(es), before.txs[r].req, before.txs[r].id)
    ensures Accountable(t, es, Step(before, Last(es)).t, c)
  {
    var e, now := Last(es), Step(before, Last(es)).t;
    StepIsAtomic(before, e);
    if Committing(before, e) {
      var tx := before.txs[e.r];
      CreatedMembers(before.t, tx.id, tx.req, c);
      RequestedLater(es, tx.req, tx.id);
    } else {
      assert Members(now, c) == Members(before.t, c);
    }
    if c in before.t.conversations && c !in t.conversations {
      var req :| Requested(Init(es), req, c) && before.t.conversations[c] == RowFor(req)
                 && Members(before.t, c) == Wanted(req) && Wanted(req) <= before.t.users.Keys;
      RequestedLater(es, req, c);
    }
  }

  // ----------------------------------------------------------------------------- progress

  lemma RunSnoc(s: Server, es: seq<Event>, e: Event)
    ensures Run(s, es + [e]) == Step(Run(s, es), e)
    ensures NewIDs(s, es + [e]) <==> NewIDs(s, es) && NewID(Run(s, es), e)
  {
  }

  function Inserts(r: nat, us: seq<Uuid>): seq<Event> {
    seq(|us|, i requires 0 <= i < |us| => InsertParticipant(r, us[i]))
  }

  lemma {:induction false} InsertsRun(s: Server, r: nat, tx: Tx, us: seq<Uuid>)
    requires r in s.txs && s.txs[r] == tx && Distinct(us) && Elems(us) <= tx.todo
    ensures var after := Run(s, Inserts(r, us));
            && after.t == s.t && after.txs.Keys == s.txs.Keys
            && after.txs[r] == Tx(tx.req, tx.id, tx.todo - Elems(us), tx.rows + Rows(tx.id, Elems(us)))
  {
    hide Refuse, Members;
    if us == [] {
      assert Inserts(r, us) == [];
    } else {
      var before, u := Init(us), Last(us);
      assert Elems(us) == Elems(before) + {u};
      InsertsRun(s, r, tx, before);
      assert Inserts(r, us) == Inserts(r, before) + [InsertParticipant(r, u)];
      hide Run;
      RunSnoc(s, Inserts(r, before), InsertParticipant(r, u));
      hide Inserts, NewIDs;
      assert u !in Elems(before);
      RowsGrow(tx.id, Elems(before), u);
      hide Rows, Elems, Distinct;
    }
  }

  lemma RowsGrow(id: Uuid, members: set<Uuid>, u: Uuid)
    ensures Rows(id, members + {u}) == Rows(id, members) + {(id, u)}
  {
  }

  /** A request the checks pass, with its statements carried out, ends with the whole conversation in the tables. */
  lemma CreateCompletes(s: Server, r: nat, req: Request, id: Uuid, us: seq<Uuid>)
    requires Refuse(s.t, req).None? && r !in s.txs
    requires Distinct(us) && Elems(us) == Wanted(req)
    ensures Run(s, [Check(r, req, id)] + Inserts(r, us) + [Commit(r)]).t == Created(s.t, id, req)
  {
    var first := Step(s, Check(r, req, id));
    RunSnoc(s, [], Check(r, req, id));
    assert [] + [Check(r, req, id)] == [Check(r, req, id)];
    assert Run(s, [Check(r, req, id)]) == first;
    hide Run, Step, Wanted, NewIDs, Distinct, Elems, Inserts;
    InsertsRun(first, r, Tx(req, id, Wanted(req), {}), us);
    RunConcat(s, [Check(r, req, id)], Inserts(r, us));
    RunSnoc(s, [Check(r, req, id)] + Inserts(r, us), Commit(r));
    hide Refuse, Rows, Created;
    CommitFinishes(Run(first, Inserts(r, us)), r, req, id);
  }

  lemma CommitFinishes(s: Server, r: nat, req: Request, id: Uuid)
    requires r in s.txs
    requires s.txs[r] == Tx(req, id, Wanted(req) - Wanted(req), {} + Rows(id, Wanted(req)))
    ensures Step(s, Commit(r)).t == Created(s.t, id, req)
  {
  }

  lemma {:induction false} RunConcat(s: Server, a: seq<Event>, b: seq<Event>)
    ensures Run(s, a + b) == Run(Run(s, a), b)
  {
    hide Step;
    if b == [] {
      assert a + b == a;
    } else {
      RunConcat(s, a, Init(b));
      assert Init(a + b) == a + Init(b);
    }
  }

  /** The event belongs to another post request. */
  predicate SparesPost(e: Event, p: nat) {
    (e.CheckPost? || e.Save?) ==> e.p != p
  }

  lemma {:induction false} PostsWait(s: Server, es: seq<Event>, p: nat)
    requires forall e | e in es :: SparesPost(e, p)
    ensures p in Run(s, es).posts <==> p in s.posts
    ensures p in s.posts ==> Run(s, es).posts[p] == s.posts[p]
  {
    hide Refuse, Members;
    if es != [] {
      assert Last(es) in es && forall e | e in Init(es) :: e in es;
      PostsWait(s, Init(es), p);
    }
  }

  /**
   A post is stored, under its author and its conversation, if and only if its author took part when
   it was checked, whatever other requests do between the check and the insert.
   */
  lemma PostStoredExactly(s: Server, p: nat, conv: Uuid, author: Uuid, es: seq<Event>, body: string)
    requires forall e | e in es :: SparesPost(e, p)
    ensures var before := Run(s, [CheckPost(p, conv, author)] + es);
            Step(before, Save(p, body)).t.messages
            == before.t.messages + if (conv, author) in s.t.participants then [Post(conv, author, body)] else []
  {
    var checked := Step(s, CheckPost(p, conv, author));
    RunSnoc(s, [], CheckPost(p, conv, author));
    assert [] + [CheckPost(p, conv, author)] == [CheckPost(p, conv, author)];
    RunConcat(s, [CheckPost(p, conv, author)], es);
    PostsWait(checked, es, p);
    assert author in Members(s.t, conv) <==> (conv, author) in s.t.participants;
    hide Run, Refuse, Members;
  }

  /** A failed create leaves nothing behind. */
  lemma AbortForgets(s: Server, r: nat)
    ensures Step(s, Abort(r)).t == s.t
    ensures r !in Step(s, Abort(r)).txs
    ensures forall q | q in s.txs && q != r :: q in Step(s, Abort(r)).txs && Step(s, Abort(r)).txs[q] == s.txs[q]
  {
  }

  // ------------------------------------------------------------------------- direct pairs

  /** A committing direct conversation finds its pair still free. */
  ghost predicate PairStillFree(s: Server, e: Event) {
    Committing(s, e) && !s.txs[e.r].req.isGroup ==> !DirectExists(s.t, Wanted(s.txs[e.r].req))
  }

  ghost predicate CommitsFindPairFree(s: Server, es: seq<Event>) {
    es == [] || (CommitsFindPairFree(s, Init(es)) && PairStillFree(Run(s, Init(es)), Last(es)))
  }

  lemma PairStep(s: Server, e: Event)
    requires Sound(s) && NewID(s, e)
    ensures PairUnique(Step(s, e).t) <==> PairUnique(s.t) && PairStillFree(s, e)
    ensures DirectsArePairs(s.t) ==> DirectsArePairs(Step(s, e).t)
  {
    StepIsAtomic(s, e);
    if Committing(s, e) {
      CreatedPairs(s.t, s.txs[e.r].id, s.txs[e.r].req);
      if DirectsArePairs(s.t) {
        CreatedIsPair(s.t, s.txs[e.r].id, s.txs[e.r].req);
      }
    } else {
      var t := Step(s, e).t;
      assert t.conversations == s.t.conversations;
      assert forall c :: Members(t, c) == Members(s.t, c);
      hide Members;
      if PairUnique(t) {
        forall c, d | c in s.t.conversations && d in s.t.conversations
                      && !s.t.conversations[c].isGroup && !s.t.conversations[d].isGroup
                      && Members(s.t, c) == Members(s.t, d)
          ensures c == d
        {
          assert Members(t, c) == Members(t, d);
        }
      }
    }
  }

  /**
   Pair uniqueness, exactly: however creates interleave, no two direct conversations share their
   pair if and only if every direct commit finds its pair still free.
   */
  lemma {:induction false} PairUniqueExactly(t: Tables, es: seq<Event>)
    requires Consistent(t) && PairUnique(t) && DirectsArePairs(t) && NewIDs(Idle(t), es)
    ensures PairUnique(Run(Idle(t), es).t) <==> CommitsFindPairFree(Idle(t), es)
    ensures DirectsArePairs(Run(Idle(t), es).t)
  {
    if es != [] {
      PairUniqueExactly(t, Init(es));
      RunStaysSound(Idle(t), Init(es));
      PairStep(Run(Idle(t), Init(es)), Last(es));
    }
  }

  /** One direct create between two users, from its insert statements to its commit. */
  lemma InsertTwoAndCommit(s: Server, es: seq<Event>, r: nat, a: Uuid, b: Uuid)
    requires NewIDs(s, es) && r in Run(s, es).txs && a != b
    requires Run(s, es).txs[r].todo == {a, b} && Run(s, es).txs[r].rows == {}
    ensures var after := es + [InsertParticipant(r, a), InsertParticipant(r, b), Commit(r)];
            var tx := Run(s, es).txs[r];
            && NewIDs(s, after)
            && Run(s, after).txs == Run(s, es).txs - {r}
            && Run(s, after).t == Published(Run(s, es).t, Tx(tx.req, tx.id, {}, {(tx.id, a), (tx.id, b)}))
  {
    hide Refuse, Members;
    var e1, e2, e3 := InsertParticipant(r, a), InsertParticipant(r, b), Commit(r);
    RunSnoc(s, es, e1);
    RunSnoc(s, es + [e1], e2);
    RunSnoc(s, es + [e1] + [e2], e3);
    assert es + [e1] + [e2] + [e3] == es + [e1, e2, e3];
    var tx := Run(s, es).txs[r];
    assert Run(s, es + [e1]).txs[r] == Tx(tx.req, tx.id, {b}, {(tx.id, a)});
    assert Run(s, es + [e1] + [e2]).txs[r] == Tx(tx.req, tx.id, {}, {(tx.id, a), (tx.id, b)});
    assert Run(s, es + [e1] + [e2]).txs - {r} == Run(s, es).txs - {r};
  }

  function NoConversations(names: map<Uuid, Option<string>>): Tables { Tables(names, map[], {}, []) }

  function Direct(creator: Uuid, other: Uuid): Request { Request(None, false, creator, [other]) }

  lemma DirectPasses(names: map<Uuid, Option<string>>, a: Uuid, b: Uuid)
    requires a != b && b != NIL && {a, b} <= names.Keys
    ensures Wanted(Direct(a, b)) == {a, b} && Refuse(NoConversations(names), Direct(a, b)).None?
  {
  }

  lemma BothChecksPass(a: Uuid, b: Uuid, names: map<Uuid, Option<string>>, c: Uuid, d: Uuid)
    requires a != b && a != NIL && b != NIL && c != d && {a, b} <= names.Keys
    ensures var t := NoConversations(names);
            var checks := [Check(1, Direct(a, b), c), Check(2, Direct(b, a), d)];
            && NewIDs(Idle(t), checks)
            && Run(Idle(t), checks)
               == Server(t, map[1 := Tx(Direct(a, b), c, {a, b}, {}), 2 := Tx(Direct(b, a), d, {a, b}, {})], map[])
  {
    var t := NoConversations(names);
    var first, second := Check(1, Direct(a, b), c), Check(2, Direct(b, a), d);
    DirectPasses(names, a, b);
    DirectPasses(names, b, a);
    assert {b, a} == {a, b};
    hide Refuse, Wanted, Direct, Members;
    RunSnoc(Idle(t), [], first);
    RunSnoc(Idle(t), [first], second);
    assert [] + [first] == [first] && [first] + [second] == [first, second];
    assert Run(Idle(t), [first]) == Server(t, map[1 := Tx(Direct(a, b), c, {a, b}, {})], map[]);
  }

  lemma SamePairTwice(now: Tables, a: Uuid, b: Uuid, c: Uuid, d: Uuid)
    requires c != d && now.conversations.Keys == {c, d}
    requires !now.conversations[c].isGroup && !now.conversations[d].isGroup
    requires now.participants == {(c, a), (c, b), (d, a), (d, b)}
    ensures !PairUnique(now)
  {
  }

  /** Two users ask for each other before either create commits: both checks pass and both commit. */
  lemma RacingCreatesShareAPair(a: Uuid, b: Uuid, names: map<Uuid, Option<string>>, c: Uuid, d: Uuid)
    requires a != b && a != NIL && b != NIL && c != d && {a, b} <= names.Keys
    ensures var t := NoConversations(names);
            var checks := [Check(1, Direct(a, b), c), Check(2, Direct(b, a), d)];
            var es := checks + [InsertParticipant(1, a), InsertParticipant(1, b), Commit(1)]
                             + [InsertParticipant(2, a), InsertParticipant(2, b), Commit(2)];
            && Consistent(t) && PairUnique(t) && DirectsArePairs(t) && NewIDs(Idle(t), es)
            && !PairUnique(Run(Idle(t), es).t)
  {
    hide Run, Step, Refuse, Wanted, NewIDs, PairUnique;
    var t := NoConversations(names);
    var checks := [Check(1, Direct(a, b), c), Check(2, Direct(b, a), d)];
    BothChecksPass(a, b, names, c, d);
    InsertTwoAndCommit(Idle(t), checks, 1, a, b);
    var es := checks + [InsertParticipant(1, a), InsertParticipant(1, b), Commit(1)];
    InsertTwoAndCommit(Idle(t), es, 2, a, b);
    SamePairTwice(Run(Idle(t), es + [InsertParticipant(2, a), InsertParticipant(2, b), Commit(2)]).t, a, b, c, d);
    assert PairUnique(t) by {
      EmptyIsUnique(t);
    }
  }

  lemma EmptyIsUnique(t: Tables)
    requires t.conversations == map[]
    ensures PairUnique(t)
  {
  }

  /** No create is checked while another is still open. */
  ghost predicate SerializedCreates(s: Server, es: seq<Event>) {
    es == [] || (SerializedCreates(s, Init(es)) && (Last(es).Check? ==> Run(s, Init(es)).txs == map[]))
  }

  /** With creates one after another at most one is open, and its pair is free. */
  ghost predicate OneOpenAndFree(s: Server) {
    && (forall q, r | q in s.txs && r in s.txs :: q == r)
    && (forall r | r in s.txs && !s.txs[r].req.isGroup :: !DirectExists(s.t, Wanted(s.txs[r].req)))
  }

  lemma SerializedStep(s: Server, e: Event)
    requires Sound(s) && NewID(s, e) && OneOpenAndFree(s)
    requires e.Check? ==> s.txs == map[]
    ensures OneOpenAndFree(Step(s, e)) && PairStillFree(s, e)
  {
  }

  /** Direct-pair uniqueness for serialized creates, with failures and message posts in between. */
  lemma {:induction false} SerializedCreatesKeepPairsUnique(t: Tables, es: seq<Event>)
    requires Consistent(t) && PairUnique(t) && DirectsArePairs(t)
    requires NewIDs(Idle(t), es) && SerializedCreates(Idle(t), es)
    ensures OneOpenAndFree(Run(Idle(t), es))
    ensures CommitsFindPairFree(Idle(t), es)
    ensures PairUnique(Run(Idle(t), es).t) && DirectsArePairs(Run(Idle(t), es).t)
  {
    if es != [] {
      SerializedCreatesKeepPairsUnique(t, Init(es));
      RunStaysSound(Idle(t), Init(es));
      SerializedStep(Run(Idle(t), Init(es)), Last(es));
    }
    PairUniqueExactly(t, es);
  }
}
