/**
 The hub's two-level client registry, and who a frame sent to a conversation, to a user
 or to a Redis channel reaches.
 */
module Registry {
  import opened Prelude
  import opened GoStrings

  type Payload = string

  /** One WebSocket connection. `frames` is what `send` handed to the socket, in order. */
  class Client {
    const userID: string
    const convID: string
    var frames: seq<Payload>

    constructor (userID: string, convID: string)
      ensures this.userID == userID && this.convID == convID && frames == []
    {
      this.userID := userID;
      this.convID := convID;
      frames := [];
    }

    method Send(b: Payload)
      modifies this
      ensures frames == old(frames) + [b]
    {
      frames := frames + [b];
    }
  }

  /** conversation key -> connections; the Go `map[string]map[*Client]struct{}`. */
  type Rooms = map<string, set<Client>>

  /** A missing key reads as the empty inner map. */
  function Room(rooms: Rooms, id: string): set<Client> {
    if id in rooms then rooms[id] else {}
  }

  function Everyone(rooms: Rooms): set<Client> {
    set k, c | k in rooms && c in rooms[k] :: c
  }

  /** The registry read as a plain set of (conversation key, connection) pairs. */
  function Pairs(rooms: Rooms): set<(string, Client)> {
    set k, c | k in rooms && c in rooms[k] :: (k, c)
  }

  /** The nested map that represents a set of pairs without empty inner maps. */
  function RoomsOf(pairs: set<(string, Client)>): Rooms {
    map k | k in KeysOf(pairs) :: ClientsAt(pairs, k)
  }

  function KeysOf(pairs: set<(string, Client)>): set<string> { set p | p in pairs :: p.0 }

  function ClientsAt(pairs: set<(string, Client)>, k: string): set<Client> {
    set p | p in pairs && p.0 == k :: p.1
  }

  predicate NoEmptyRoom(rooms: Rooms) {
    forall k | k in rooms :: rooms[k] != {}
  }

  /** ServeWS registers a client under its own conversation key only. */
  predicate OwnRoomOnly(rooms: Rooms) {
    forall k, c | k in rooms && c in rooms[k] :: c.convID == k
  }

  /** Without empty rooms the nested map and the set of pairs carry the same information. */
  lemma RoomsAreTheirPairs(rooms: Rooms)
    ensures NoEmptyRoom(rooms) <==> RoomsOf(Pairs(rooms)) == rooms
  {
    var back := RoomsOf(Pairs(rooms));
    if NoEmptyRoom(rooms) {
      forall k | k in rooms
        ensures k in back && back[k] == rooms[k]
      {
        var c :| c in rooms[k];
        assert (k, c) in Pairs(rooms);
        forall d
          ensures d in back[k] <==> d in rooms[k]
        {
          assert d in rooms[k] ==> (k, d) in Pairs(rooms);
        }
      }
      assert back.Keys == rooms.Keys;
    } else {
      var k :| k in rooms && rooms[k] == {};
      assert k !in back;
    }
  }

  lemma PairsAreTheirRooms(pairs: set<(string, Client)>)
    ensures Pairs(RoomsOf(pairs)) == pairs
    ensures NoEmptyRoom(RoomsOf(pairs))
  {
    var rooms := RoomsOf(pairs);
    forall p: (string, Client)
      ensures p in Pairs(rooms) <==> p in pairs
    {
      if p in pairs {
        assert p.0 in rooms && p.1 in rooms[p.0];
        assert (p.0, p.1) in Pairs(rooms);
      }
    }
    forall k | k in rooms
      ensures rooms[k] != {}
    {
      var p :| p in pairs && p.0 == k;
      assert p.1 in rooms[k];
    }
  }

  // ---------------------------------------------------------------- runs of connections

  /** What ServeWS does to the registry: one connect, and one disconnect with the same key. */
  datatype Event = Connected(client: Client) | Disconnected(client: Client)

  function Entry(c: Client): (string, Client) { (c.convID, c) }

  /** The registry after a run that starts empty; AddClient and RemoveClient refine the steps. */
  function After(events: seq<Event>): Rooms {
    if events == [] then map[]
    else
      var rooms := After(Init(events));
      match Last(events)
      case Connected(c) => RoomsOf(Pairs(rooms) + {Entry(c)})
      case Disconnected(c) => RoomsOf(Pairs(rooms) - {Entry(c)})
  }

  /** A connection is live when it connected and has not disconnected since. */
  ghost predicate IsLive(events: seq<Event>, c: Client) {
    exists i :: 0 <= i < |events| && events[i] == Connected(c)
                && forall j | i < j < |events| :: events[j] != Disconnected(c)
  }

  lemma LiveStep(events: seq<Event>, c: Client)
    requires events != []
    ensures IsLive(events, c) <==>
              (Last(events) == Connected(c)
               || (IsLive(Init(events), c) && Last(events) != Disconnected(c)))
  {
  }

  /** Over every run the registry is exactly the set of live connections, each in its own room. */
  lemma {:induction false} RegistryIsLiveSet(events: seq<Event>)
    ensures NoEmptyRoom(After(events))
    ensures OwnRoomOnly(After(events))
    ensures forall c: Client :: Entry(c) in Pairs(After(events)) <==> IsLive(events, c)
    ensures forall k, c | (k, c) in Pairs(After(events)) :: k == c.convID
  {
    if events == [] {
      return;
    }
    RegistryIsLiveSet(Init(events));
    var before := Pairs(After(Init(events)));
    var c0 := Last(events).client;
    PairsAreTheirRooms(before + {Entry(c0)});
    PairsAreTheirRooms(before - {Entry(c0)});
    forall c: Client
      ensures Entry(c) in Pairs(After(events)) <==> IsLive(events, c)
    {
      LiveStep(events, c);
    }
    forall k, c | (k, c) in Pairs(After(events))
      ensures k == c.convID
    {
      assert (k, c) in before || (k, c) == Entry(c0);
    }
    forall k, c | k in After(events) && c in After(events)[k]
      ensures c.convID == k
    {
      assert (k, c) in Pairs(After(events));
    }
  }

  // ------------------------------------------------------------------------- addressing

  function RoomsHolding(rooms: Rooms, c: Client): set<string> {
    set k | k in rooms && c in rooms[k]
  }

  /** How often a conversation-scoped send writes to c. */
  function RoomCopies(rooms: Rooms, id: string, c: Client): nat {
    if c in Room(rooms, id) then 1 else 0
  }

  /** How often a user-scoped send writes to c: once per room that holds it. */
  function UserCopies(rooms: Rooms, userID: string, c: Client): nat {
    if c.userID == userID then |RoomsHolding(rooms, c)| else 0
  }

  /** Where `runPubSub` routes a channel name. */
  datatype Route = ToRoom(id: string) | ToUser(id: string) | Nowhere

  function RouteOf(channel: string): Route {
    var parts := SplitN(channel, ':', 3);
    if |parts| < 3 then Nowhere
    else if parts[1] == "conversation" then ToRoom(parts[2])
    else if parts[1] == "user" then ToUser(parts[2])
    else Nowhere
  }

  function RouteCopies(rooms: Rooms, route: Route, c: Client): nat {
    match route
    case ToRoom(id) => RoomCopies(rooms, id, c)
    case ToUser(id) => UserCopies(rooms, id, c)
    case Nowhere => 0
  }

  const MESSAGES: string := "messages" + ":" + "conversation" + ":"
  const EVENTS: string := "events" + ":" + "conversation" + ":"
  const USER_EVENTS: string := "events" + ":" + "user" + ":"
  const PRESENCE: string := "presence" + ":" + "conversation" + ":"

  /** The four patterns of the PSubscribe call. */
  predicate Subscribed(channel: string) {
    MESSAGES <= channel || EVENTS <= channel || USER_EVENTS <= channel || PRESENCE <= channel
  }

  lemma RouteOfThreeFields(topic: string, scope: string, id: string)
    requires ':' !in topic && ':' !in scope
    ensures RouteOf(topic + ":" + scope + ":" + id)
         == if scope == "conversation" then ToRoom(id) else if scope == "user" then ToUser(id) else Nowhere
  {
    var rest := scope + ":" + id;
    assert topic + ":" + scope + ":" + id == topic + [':'] + rest;
    SplitNHead(topic, ':', rest, 3);
    SplitNHead(scope, ':', id, 2);
    assert SplitN(id, ':', 1) == [id];
    hide SplitN;
    assert [topic] + ([scope] + [id]) == [topic, scope, id];
  }

  /** Every channel a hub publishes on is subscribed to and parsed back to its id, whatever the id. */
  lemma ChannelRoundTrip(id: string)
    ensures Subscribed(MESSAGES + id) && RouteOf(MESSAGES + id) == ToRoom(id)
    ensures Subscribed(EVENTS + id) && RouteOf(EVENTS + id) == ToRoom(id)
    ensures Subscribed(PRESENCE + id) && RouteOf(PRESENCE + id) == ToRoom(id)
    ensures Subscribed(USER_EVENTS + id) && RouteOf(USER_EVENTS + id) == ToUser(id)
  {
    hide RouteOf;
    RouteOfThreeFields("messages", "conversation", id);
    RouteOfThreeFields("events", "conversation", id);
    RouteOfThreeFields("presence", "conversation", id);
    RouteOfThreeFields("events", "user", id);
  }

  /** The subscription covers the channels of four kinds and no others. */
  lemma SubscribedExactly(channel: string)
    ensures Subscribed(channel) <==>
              || "messages:conversation:" <= channel || "events:conversation:" <= channel
              || "events:user:" <= channel || "presence:conversation:" <= channel
  {
    assert MESSAGES == "messages:conversation:" && EVENTS == "events:conversation:";
    assert USER_EVENTS == "events:user:" && PRESENCE == "presence:conversation:";
  }

  /** A channel name of fewer than three fields is routed to nobody. */
  lemma TooFewFields(topic: string, rest: string)
    requires ':' !in topic && ':' !in rest
    ensures RouteOf(topic) == Nowhere && RouteOf(topic + ":" + rest) == Nowhere
  {
  }

  /** The clients a route is meant for, said without the registry. */
  predicate Addresses(route: Route, c: Client) {
    match route
    case ToRoom(id) => c.convID == id
    case ToUser(id) => c.userID == id
    case Nowhere => false
  }

  /** In a registry built by connections, each registered client is hit exactly once or not at all. */
  lemma RegisteredOnce(rooms: Rooms, route: Route, c: Client)
    requires OwnRoomOnly(rooms)
    ensures RouteCopies(rooms, route, c) == (if c in Everyone(rooms) && Addresses(route, c) then 1 else 0)
  {
    if c in Everyone(rooms) {
      assert RoomsHolding(rooms, c) == {c.convID};
    } else {
      assert RoomsHolding(rooms, c) == {};
    }
  }
}
