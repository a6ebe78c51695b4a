/** One server instance: its registry, its publishers and its Redis relay. */
module Hub {
  import opened Prelude
  import opened Registry

  datatype BusMessage = BusMessage(channel: string, payload: Payload)

  /** What one PUBLISH did: acknowledged, not taken, or taken with the acknowledgement lost. */
  datatype Outcome = Acked | Refused | AckLost

  /** The Redis server: the messages it accepted, in order. */
  class Redis {
    var log: seq<BusMessage>

    method Publish(channel: string, b: Payload, outcome: Outcome) returns (err: bool)
      modifies this
      ensures err <==> outcome != Acked
      ensures log == old(log) + Repeat(BusMessage(channel, b), Taken([outcome]))
    {
      if outcome != Refused {
        log := log + [BusMessage(channel, b)];
      }
      err := outcome != Acked;
    }
  }

  /** How many of these attempts reached the bus. */
  function Taken(outcomes: seq<Outcome>): nat {
    if outcomes == [] then 0
    else Taken(Init(outcomes)) + if Last(outcomes) == Refused then 0 else 1
  }

  /** What a single publish of v adds to the log; nothing when there is no payload. */
  function Logged(channel: string, v: Option<Payload>, outcome: Outcome): seq<BusMessage> {
    if v.None? then [] else Repeat(BusMessage(channel, v.value), Taken([outcome]))
  }

  const MAX_ATTEMPTS := 5

  /** Number of failures before the first acknowledged attempt, at most all of them. */
  function Failures(outcomes: seq<Outcome>): (k: nat)
    ensures k <= |outcomes|
    ensures forall j | 0 <= j < k :: outcomes[j] != Acked
    ensures k < |outcomes| ==> outcomes[k] == Acked
  {
    if outcomes == [] || outcomes[0] == Acked then 0 else 1 + Failures(outcomes[1..])
  }

  lemma FailuresUnique(outcomes: seq<Outcome>, k: nat)
    requires k <= |outcomes|
    requires forall j | 0 <= j < k :: outcomes[j] != Acked
    requires k < |outcomes| ==> outcomes[k] == Acked
    ensures Failures(outcomes) == k
  {
  }

  class Hub {
    var clients: Rooms
    const redis: Redis?

    ghost predicate Valid()
      reads this
    {
      NoEmptyRoom(clients)
    }

    function Bus(): set<object> {
      if redis == null then {} else {redis}
    }

    constructor (redis: Redis?)
      ensures Valid() && Pairs(clients) == {} && this.redis == redis
    {
      clients := map[];
      this.redis := redis;
    }

    method AddClient(convID: string, c: Client)
      requires Valid()
      modifies this
      ensures Valid()
      ensures clients == RoomsOf(old(Pairs(clients)) + {(convID, c)})
    {
      ghost var want := Pairs(clients) + {(convID, c)};
      if convID !in clients {
        clients := clients[convID := {}];
      }
      clients := clients[convID := clients[convID] + {c}];
      forall p: (string, Client)
        ensures p in Pairs(clients) <==> p in want
      {
        assert p == (p.0, p.1);
      }
      assert Pairs(clients) == want;
      RoomsAreTheirPairs(clients);
    }

    method RemoveClient(convID: string, c: Client)
      requires Valid()
      modifies this
      ensures Valid()
      ensures clients == RoomsOf(old(Pairs(clients)) - {(convID, c)})
    {
      ghost var want := Pairs(clients) - {(convID, c)};
      if convID in clients {
        var m := clients[convID] - {c};
        clients := clients[convID := m];
        if |m| == 0 {
          clients := clients - {convID};
        }
      }
      forall p: (string, Client)
        ensures p in Pairs(clients) <==> p in want
      {
        assert p == (p.0, p.1);
      }
      assert Pairs(clients) == want;
      RoomsAreTheirPairs(clients);
    }

    /** Writes the frame to every connection of one room, once. `v` is None when marshalling fails. */
    method BroadcastLocal(convID: string, v: Option<Payload>)
      modifies Room(clients, convID)
      ensures v.None? ==> forall c | c in Room(clients, convID) :: c.frames == old(c.frames)
      ensures v.Some? ==> forall c | c in Everyone(clients) ::
                  c.frames == old(c.frames) + Repeat(v.value, RouteCopies(clients, ToRoom(convID), c))
    {
      var room := Room(clients, convID);
      if |room| == 0 || v.None? {
        return;
      }
      SendAll(room, v.value);
    }

    static method SendAll(room: set<Client>, b: Payload)
      modifies room
      ensures forall c | c in room :: c.frames == old(c.frames) + [b]
    {
      var todo := room;
      while todo != {}
        invariant todo <= room
        invariant forall c | c in room ::
            c.frames == if c in todo then old(c.frames) else old(c.frames) + [b]
      {
        var c :| c in todo;
        c.Send(b);
        todo := todo - {c};
      }
    }

    /** The nested loop over all rooms that a user-scoped delivery makes. */
    method SendToUser(userID: string, b: Payload)
      modifies Everyone(clients)
      ensures forall c | c in Everyone(clients) ::
                c.frames == old(c.frames) + Repeat(b, RouteCopies(clients, ToUser(userID), c))
    {
      var todo := clients.Keys;
      ghost var visited: Rooms := map[];
      while todo != {}
        invariant todo <= clients.Keys
        invariant visited == clients - todo
        invariant forall c | c in Everyone(clients) ::
            c.frames == old(c.frames) + Repeat(b, UserCopies(visited, userID, c))
      {
        var k :| k in todo;
        ghost var wider := visited[k := clients[k]];
        forall c | c in Everyone(clients)
          ensures UserCopies(wider, userID, c)
               == UserCopies(visited, userID, c) + if c in clients[k] && c.userID == userID then 1 else 0
        {
          OneMoreRoom(visited, k, clients[k], c);
        }
        SendAll((set c | c in clients[k] && c.userID == userID), b);
        todo := todo - {k};
        visited := wider;
      }
      assert visited == clients;
    }

    static lemma OneMoreRoom(rooms: Rooms, k: string, room: set<Client>, c: Client)
      requires k !in rooms
      ensures |RoomsHolding(rooms[k := room], c)| == |RoomsHolding(rooms, c)| + if c in room then 1 else 0
    {
      var wider := RoomsHolding(rooms[k := room], c);
      assert wider == RoomsHolding(rooms, c) + if c in room then {k} else {};
    }

    /** One message of the runPubSub loop. */
    method Relay(msg: BusMessage)
      modifies Everyone(clients)
      ensures forall c | c in Everyone(clients) ::
                c.frames == old(c.frames) + Repeat(msg.payload, RouteCopies(clients, RouteOf(msg.channel), c))
    {
      var route := RouteOf(msg.channel);
      match route
      case ToRoom(id) => BroadcastLocal(id, Some(msg.payload));
      case ToUser(id) => SendToUser(id, msg.payload);
      case Nowhere =>
    }

    /**
     Publishes a stored message: up to five attempts with doubling backoff and jitter, then a
     local broadcast. The environment supplies each attempt's outcome and each jitter.
     */
    method PublishMessage(convID: string, v: Option<Payload>, outcomes: seq<Outcome>, jitters: seq<nat>)
      returns (err: bool, attempts: nat, slept: nat)
      requires |outcomes| == 5 && |jitters| == 4
      requires forall j | 0 <= j < |jitters| :: jitters[j] < 200
      modifies Room(clients, convID), Bus()
      ensures redis == null ==> !err && attempts == 0
      ensures redis != null && v.None? ==> err && attempts == 0 && redis.log == old(redis.log)
      ensures redis != null && v.Some? ==>
                var k := Failures(outcomes);
                && (err <==> k == 5)
                && attempts == (if k < 5 then k + 1 else 5)
                && redis.log == old(redis.log)
                     + Repeat(BusMessage(MESSAGES + convID, v.value), Taken(outcomes[..attempts]))
      ensures v.None? ==> forall c | c in Everyone(clients) :: c.frames == old(c.frames)
      ensures v.Some? ==> forall c | c in Everyone(clients) ::
                  c.frames == old(c.frames) + (
                  if redis == null || err then Repeat(v.value, RouteCopies(clients, ToRoom(convID), c)) else [])
      ensures attempts > 0 ==>
                var f := attempts - 1;
                100 * (Pow2(f) - 1) <= slept <= 100 * (Pow2(f) - 1) + 199 * f
      ensures slept <= 2296
    {
      attempts, slept := 0, 0;
      if redis == null {
        BroadcastLocal(convID, v);
        return false, 0, 0;
      }
      if v.None? {
        return true, 0, 0;
      }
      var chanName := MESSAGES + convID;
      ghost var entry := BusMessage(chanName, v.value);
      var backoff := 100;
      var attempt := 1;
      while attempt <= MAX_ATTEMPTS
        invariant 1 <= attempt <= MAX_ATTEMPTS
        invariant attempts == attempt - 1
        invariant backoff == 100 * Pow2(attempts)
        invariant 100 * (Pow2(attempts) - 1) <= slept <= 100 * (Pow2(attempts) - 1) + 199 * attempts
        invariant forall j | 0 <= j < attempts :: outcomes[j] != Acked
        invariant redis.log == old(redis.log) + Repeat(entry, Taken(outcomes[..attempts]))
        invariant forall c | c in Everyone(clients) :: c.frames == old(c.frames)
        decreases MAX_ATTEMPTS - attempt
      {
        err := redis.Publish(chanName, v.value, outcomes[attempts]);
        assert Init(outcomes[..attempt]) == outcomes[..attempts];
        attempts := attempt;
        SleepBound(attempt);
        if !err {
          FailuresUnique(outcomes, attempt - 1);
          return;
        }
        if attempt == MAX_ATTEMPTS {
          FailuresUnique(outcomes, MAX_ATTEMPTS);
          BroadcastLocal(convID, v);
          return;
        }
        slept := slept + backoff + jitters[attempt - 1];
        backoff := backoff * 2;
        attempt := attempt + 1;
      }
      // the Go function ends in a second local broadcast; no run gets here
      assert false;
    }

    static lemma SleepBound(attempt: nat)
      requires 1 <= attempt <= MAX_ATTEMPTS
      ensures 100 * (Pow2(attempt - 1) - 1) + 199 * (attempt - 1) <= 2296
    {
      assert Pow2(0) == 1 && Pow2(1) == 2 && Pow2(2) == 4 && Pow2(3) == 8 && Pow2(4) == 16;
    }

    /** Typing and read events. */
    method PublishEvent(convID: string, v: Option<Payload>, outcome: Outcome) returns (err: bool)
      modifies Room(clients, convID), Bus()
      ensures err <==> redis != null && (v.None? || outcome != Acked)
      ensures redis != null ==>
                redis.log == old(redis.log) + Logged(EVENTS + convID, v, outcome)
      ensures forall c | c in Everyone(clients) ::
                c.frames == old(c.frames) + (
                  if redis != null || v.None? then [] else Repeat(v.value, RouteCopies(clients, ToRoom(convID), c)))
    {
      if redis == null {
        BroadcastLocal(convID, v);
        return false;
      }
      if v.None? {
        return true;
      }
      err := redis.Publish(EVENTS + convID, v.value, outcome);
    }

    /** Per-user notifications of a new conversation. */
    method PublishUserEvent(userID: string, v: Option<Payload>, outcome: Outcome) returns (err: bool)
      modifies Everyone(clients), Bus()
      ensures err <==> v.None? || (redis != null && outcome != Acked)
      ensures redis != null ==>
                redis.log == old(redis.log) + Logged(USER_EVENTS + userID, v, outcome)
      ensures forall c | c in Everyone(clients) ::
                c.frames == old(c.frames) + (
                  if redis != null || v.None? then [] else Repeat(v.value, RouteCopies(clients, ToUser(userID), c)))
    {
      if v.None? {
        return true;
      }
      if redis == null {
        SendToUser(userID, v.value);
        return false;
      }
      err := redis.Publish(USER_EVENTS + userID, v.value, outcome);
    }

    /** Presence deltas; the TTL key is written first and its failure ends the call. */
    method UpdatePresence(convID: string, v: Payload, keySet: bool, outcome: Outcome) returns (err: bool)
      modifies Room(clients, convID), Bus()
      ensures err <==> redis != null && (!keySet || outcome != Acked)
      ensures redis != null ==>
                redis.log == old(redis.log) + Logged(PRESENCE + convID, if keySet then Some(v) else None, outcome)
      ensures forall c | c in Everyone(clients) ::
                c.frames == old(c.frames) + (
                  if redis != null then [] else Repeat(v, RouteCopies(clients, ToRoom(convID), c)))
    {
      if redis == null {
        BroadcastLocal(convID, Some(v));
        return false;
      }
      if !keySet {
        return true;
      }
      err := redis.Publish(PRESENCE + convID, v, outcome);
    }
  }
}
