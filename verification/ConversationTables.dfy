/** The conversation tables, what one create request asks for, and the database that carries it out. */
module ConversationTables {
  import opened Prelude

  type Uuid = nat

  const NIL: Uuid := 0

  datatype Conversation = Conversation(title: Option<string>, isGroup: bool, creator: Uuid)

  datatype Post = Post(conv: Uuid, author: Uuid, body: string)

  datatype Tables = Tables(
    users: map<Uuid, Option<string>>,  // id -> display_name, possibly NULL
    conversations: map<Uuid, Conversation>,
    participants: set<(Uuid, Uuid)>,   // primary key (conversation_id, user_id)
    messages: seq<Post>)

  datatype Request = Request(title: Option<string>, isGroup: bool, creator: Uuid, ids: seq<Uuid>)

  datatype Refusal = InvalidDirectParticipants | DirectConversationExists | UnknownParticipant | Storage

  function Members(t: Tables, c: Uuid): set<Uuid> {
    set p | p in t.participants && p.0 == c :: p.1
  }

  function Rows(c: Uuid, members: set<Uuid>): set<(Uuid, Uuid)> {
    set u | u in members :: (c, u)
  }

  /** Who the conversation is for: the requested users that are not the nil id, and the creator. */
  function Wanted(req: Request): set<Uuid> {
    (set p | p in req.ids && p != NIL) + {req.creator}
  }

  ghost predicate DirectExists(t: Tables, pair: set<Uuid>) {
    exists c | c in t.conversations :: !t.conversations[c].isGroup && Members(t, c) == pair
  }

  /** Why a request is turned down, in the order the checks run. */
  ghost function Refuse(t: Tables, req: Request): Option<Refusal> {
    if !req.isGroup && |Wanted(req)| != 2 then Some(InvalidDirectParticipants)
    else if !req.isGroup && DirectExists(t, Wanted(req)) then Some(DirectConversationExists)
    else if !(Wanted(req) <= t.users.Keys) then Some(UnknownParticipant)
    else None
  }

  function RowFor(req: Request): Conversation {
    Conversation(if req.isGroup then req.title else None, req.isGroup, req.creator)
  }

  /** The tables with the whole conversation in place. */
  function Created(t: Tables, id: Uuid, req: Request): Tables {
    t.(conversations := t.conversations[id := RowFor(req)],
       participants := t.participants + Rows(id, Wanted(req)))
  }

  /** The foreign keys, and authorship: who wrote a message takes part in its conversation. */
  ghost predicate Consistent(t: Tables) {
    && (forall p | p in t.participants :: p.0 in t.conversations && p.1 in t.users)
    && (forall m | m in t.messages :: (m.conv, m.author) in t.participants)
  }

  ghost predicate DirectsArePairs(t: Tables) {
    forall c | c in t.conversations && !t.conversations[c].isGroup :: |Members(t, c)| == 2
  }

  ghost predicate PairUnique(t: Tables) {
    forall c, d | c in t.conversations && d in t.conversations
                  && !t.conversations[c].isGroup && !t.conversations[d].isGroup
                  && Members(t, c) == Members(t, d) :: c == d
  }

  lemma CreatedMembers(t: Tables, id: Uuid, req: Request, c: Uuid)
    requires Consistent(t) && id !in t.conversations
    ensures Members(Created(t, id, req), c) == if c == id then Wanted(req) else Members(t, c)
  {
  }

  lemma NewPairMustBeFree(t: Tables, id: Uuid, req: Request)
    requires Consistent(t) && id !in t.conversations && PairUnique(Created(t, id, req))
    ensures PairUnique(t)
    ensures !req.isGroup ==> !DirectExists(t, Wanted(req))
  {
    var after := Created(t, id, req);
    forall c, d | c in t.conversations && d in t.conversations
                  && !t.conversations[c].isGroup && !t.conversations[d].isGroup
                  && Members(t, c) == Members(t, d)
      ensures c == d
    {
      CreatedMembers(t, id, req, c);
      CreatedMembers(t, id, req, d);
    }
    if !req.isGroup {
      forall c | c in t.conversations && !t.conversations[c].isGroup
        ensures Members(t, c) != Wanted(req)
      {
        CreatedMembers(t, id, req, c);
        CreatedMembers(t, id, req, id);
        assert Members(after, c) == Members(after, id) ==> c == id;
      }
    }
  }

  lemma FreePairKeepsUnique(t: Tables, id: Uuid, req: Request)
    requires Consistent(t) && id !in t.conversations && PairUnique(t)
    requires !req.isGroup ==> !DirectExists(t, Wanted(req))
    ensures PairUnique(Created(t, id, req))
  {
    var after := Created(t, id, req);
    forall c, d | c in after.conversations && d in after.conversations
                  && !after.conversations[c].isGroup && !after.conversations[d].isGroup
                  && Members(after, c) == Members(after, d)
      ensures c == d
    {
      CreatedMembers(t, id, req, c);
      CreatedMembers(t, id, req, d);
      hide Members, Wanted, Rows;
    }
  }

  /** A direct conversation of two wanted users is a pair. */
  lemma CreatedIsPair(t: Tables, id: Uuid, req: Request)
    requires Consistent(t) && id !in t.conversations && DirectsArePairs(t)
    requires !req.isGroup ==> |Wanted(req)| == 2
    ensures DirectsArePairs(Created(t, id, req))
  {
    var after := Created(t, id, req);
    forall c | c in after.conversations && !after.conversations[c].isGroup
      ensures |Members(after, c)| == 2
    {
      CreatedMembers(t, id, req, c);
    }
  }

  /** Adding a direct conversation keeps pairs unique exactly when its pair was free. */
  lemma CreatedPairs(t: Tables, id: Uuid, req: Request)
    requires Consistent(t) && id !in t.conversations
    ensures PairUnique(Created(t, id, req)) <==>
              PairUnique(t) && (!req.isGroup ==> !DirectExists(t, Wanted(req)))
  {
    hide PairUnique, Created, DirectExists, Consistent;
    if PairUnique(Created(t, id, req)) {
      NewPairMustBeFree(t, id, req);
    }
    if PairUnique(t) && (!req.isGroup ==> !DirectExists(t, Wanted(req))) {
      FreePairKeepsUnique(t, id, req);
    }
  }

  // -------------------------------------------------------------------------- the database

  /** What COMMIT reports and does: a lost acknowledgement is an error after the fact. */
  datatype CommitOutcome = Committed | RolledBack | AckLost

  datatype PostError = Forbidden | QueryFailed

  /** Drops nil ids and repeats, and adds the creator when missing. */
  method UniqueParticipants(req: Request) returns (unique: seq<Uuid>)
    ensures Distinct(unique)
    ensures Elems(unique) == Wanted(req)
  {
    var ids := req.ids;
    var seen: set<Uuid> := {};
    unique := [];
    var i := 0;
    while i < |ids|
      invariant i <= |ids|
      invariant Distinct(unique) && Elems(unique) == seen
      invariant seen == set p | p in ids[..i] && p != NIL
    {
      var p := ids[i];
      assert ids[..i + 1] == ids[..i] + [p];
      if p != NIL && p !in seen {
        assert p !in unique;
        seen := seen + {p};
        unique := unique + [p];
      }
      i := i + 1;
    }
    assert ids[..i] == ids;
    if req.creator !in seen {
      assert req.creator !in unique;
      unique := unique + [req.creator];
    }
    assert Elems(unique) == seen + {req.creator};
  }

  class Database {
    var users: map<Uuid, Option<string>>
    var conversations: map<Uuid, Conversation>
    var participants: set<(Uuid, Uuid)>
    var messages: seq<Post>

    function Snapshot(): Tables
      reads this
    {
      Tables(users, conversations, participants, messages)
    }

    ghost predicate Valid()
      reads this
    {
      Consistent(Snapshot())
    }

    constructor (users: map<Uuid, Option<string>>)
      ensures Valid() && Snapshot() == Tables(users, map[], {}, [])
    {
      this.users := users;
      conversations, participants, messages := map[], {}, [];
    }

    /**
     Validation, then one transaction. `broken` holds the numbers of the statements that fail
     (0 the duplicate check, 1 the count, 2 BEGIN, 3 the conversation row, 4 + i the i-th
     participant); `id` is the random id drawn for the row.
     */
    method CreateConversation(req: Request, id: Uuid, broken: set<nat>, commit: CommitOutcome)
      returns (r: Result<Uuid, Refusal>)
      requires Valid() && id !in conversations
      modifies `conversations, `participants
      ensures Valid()
      ensures var stored := && Refuse(old(Snapshot()), req).None? && commit != RolledBack
                            && forall k | k in broken :: k >= 4 + |Wanted(req)| || (k == 0 && req.isGroup);
              && Snapshot() == (if stored then Created(old(Snapshot()), id, req) else old(Snapshot()))
              && (r.Ok? <==> stored && commit == Committed)
      ensures r.Ok? ==> r.value == id
      ensures id in conversations ==>
                && conversations[id].title == (if req.isGroup then req.title else None)
                && conversations[id].isGroup == req.isGroup && conversations[id].creator == req.creator
                && forall u :: (id, u) in participants <==> u == req.creator || (u in req.ids && u != NIL)
      ensures conversations == old(conversations) || conversations.Keys == old(conversations).Keys + {id}
      ensures forall c | c in old(conversations) :: c in conversations && conversations[c] == old(conversations)[c]
      ensures forall p | p in participants :: p in old(participants) || p.0 == id
      ensures old(participants) <= participants
      ensures broken == {} && commit == Committed ==>
                r == match Refuse(old(Snapshot()), req)
                     case None => Ok(id)
                     case Some(why) => Err(why)
    {
      var refusal, unique := Validate(req, broken);
      DistinctSize(unique);
      if refusal.Some? {
        return Err(refusal.value);
      }
      if 2 in broken || 3 in broken {
        return Err(Storage);
      }
      var failed, txParticipants := InsertParticipants(id, unique, broken);
      if failed || commit == RolledBack {
        return Err(Storage);
      }
      ghost var before := Snapshot();
      var title := if req.isGroup then req.title else None;
      conversations, participants := conversations[id := Conversation(title, req.isGroup, req.creator)], txParticipants;
      assert Snapshot() == Created(before, id, req);
      if commit == AckLost {
        return Err(Storage);
      }
      return Ok(id);
    }

    /** Everything before the transaction. The COUNT decides existence because `unique` has no repeats. */
    method Validate(req: Request, broken: set<nat>) returns (refusal: Option<Refusal>, unique: seq<Uuid>)
      ensures Distinct(unique) && Elems(unique) == Wanted(req)
      ensures refusal.None? <==> Refuse(Snapshot(), req).None? && 1 !in broken && (0 in broken ==> req.isGroup)
      ensures !(0 in broken || 1 in broken) ==> refusal == Refuse(Snapshot(), req)
    {
      unique := UniqueParticipants(req);
      DistinctSize(unique);
      if !req.isGroup {
        if |unique| != 2 {
          return Some(InvalidDirectParticipants), unique;
        }
        var other := if unique[0] != req.creator then unique[0] else unique[1];
        PairOfTwo(unique, req.creator, other);
        if 0 in broken {
          return Some(Storage), unique;
        }
        var taken := ExistsDirect(req.creator, other);
        if taken {
          return Some(DirectConversationExists), unique;
        }
      }
      if 1 in broken {
        return Some(Storage), unique;
      }
      var existing := set u | u in users && u in unique;
      SubsetSize(existing, Elems(unique));
      assert existing == Elems(unique) * users.Keys;
      assert Wanted(req) <= users.Keys ==> existing == Elems(unique);
      if |existing| != |unique| {
        return Some(UnknownParticipant), unique;
      }
      return None, unique;
    }

    static lemma PairOfTwo(unique: seq<Uuid>, creator: Uuid, other: Uuid)
      requires |unique| == 2 && Distinct(unique) && creator in Elems(unique)
      requires other == if unique[0] != creator then unique[0] else unique[1]
      ensures other != creator && Elems(unique) == {creator, other}
    {
    }

    /** The participant rows inside the open transaction. */
    method InsertParticipants(id: Uuid, unique: seq<Uuid>, broken: set<nat>)
      returns (failed: bool, txParticipants: set<(Uuid, Uuid)>)
      ensures failed <==> exists k | k in broken :: 4 <= k < 4 + |unique|
      ensures !failed ==> txParticipants == participants + Rows(id, Elems(unique))
    {
      txParticipants := participants;
      var i := 0;
      while i < |unique|
        invariant i <= |unique|
        invariant txParticipants == participants + Rows(id, Elems(unique[..i]))
        invariant forall k | k in broken :: !(4 <= k < 4 + i)
      {
        if 4 + i in broken {
          return true, txParticipants;
        }
        assert Elems(unique[..i + 1]) == Elems(unique[..i]) + {unique[i]};
        txParticipants := txParticipants + {(id, unique[i])};
        i := i + 1;
      }
      assert unique[..i] == unique;
      failed := false;
    }

    /** The duplicate check as the query words it: both users take part and nobody else does. */
    method ExistsDirect(a: Uuid, b: Uuid) returns (found: bool)
      requires a != b
      ensures found <==> DirectExists(Snapshot(), {a, b})
    {
      ghost var t := Snapshot();
      var hits := set c | c in conversations
                          && !conversations[c].isGroup
                          && (c, a) in participants
                          && (c, b) in participants
                          && |set p | p in participants && p.0 == c| == 2;
      found := hits != {};
      forall c | c in conversations && !conversations[c].isGroup
        ensures c in hits <==> Members(t, c) == {a, b}
      {
        MembersPair(t, c, a, b);
      }
      if DirectExists(t, {a, b}) {
        var c :| c in conversations && !conversations[c].isGroup && Members(t, c) == {a, b};
        assert c in hits;
      }
    }

    static lemma MembersPair(t: Tables, c: Uuid, a: Uuid, b: Uuid)
      requires a != b
      ensures Members(t, c) == {a, b} <==>
                (c, a) in t.participants && (c, b) in t.participants
                && |set p | p in t.participants && p.0 == c| == 2
    {
      var rows := set p | p in t.participants && p.0 == c;
      var pair := {(c, a), (c, b)};
      assert forall u :: u in Members(t, c) <==> (c, u) in rows;
      if Members(t, c) == {a, b} {
        assert (c, a) in rows && (c, b) in rows;
        assert forall p | p in rows :: p.1 in Members(t, c);
        assert rows == pair;
      }
      if (c, a) in t.participants && (c, b) in t.participants && |rows| == 2 {
        assert |pair| == 2;
        SubsetSize(pair, rows);
        assert forall u :: (c, u) in rows <==> (c, u) in pair;
      }
    }

    /**
     POST /api/messages: membership check, then insert. The environment says whether the check's
     query fails and what becomes of the insert.
     */
    method PostMessage(conv: Uuid, author: Uuid, body: string, checkFails: bool, insert: CommitOutcome)
      returns (r: Result<Post, PostError>)
      requires Valid()
      modifies `messages
      ensures Valid()
      ensures var stored := author in Members(Snapshot(), conv) && !checkFails && insert != RolledBack;
              messages == old(messages) + (if stored then [Post(conv, author, body)] else [])
      ensures r == if checkFails then Err(QueryFailed)
                   else if author !in Members(Snapshot(), conv) then Err(Forbidden)
                   else if insert != Committed then Err(QueryFailed)
                   else Ok(Post(conv, author, body))
    {
      if checkFails {
        return Err(QueryFailed);
      }
      if (conv, author) !in participants {
        return Err(Forbidden);
      }
      assert author in Members(Snapshot(), conv);
      if insert == RolledBack {
        return Err(QueryFailed);
      }
      messages := messages + [Post(conv, author, body)];
      if insert == AckLost {
        return Err(QueryFailed);
      }
      return Ok(Post(conv, author, body));
    }
  }
}
