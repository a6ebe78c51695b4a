# Verified model of the realtime chat

The chat server keeps WebSocket connections in a hub, relays events between instances through
Redis, stores conversations and messages in Postgres, and rotates refresh tokens; the browser keeps
an optimistic message list and reconnects with backoff. This project models those state machines in
Dafny and proves what every run of them keeps. Where the code does not keep a property outright,
the project gives a failing run and proves exactly when the property holds.

| file | contents |
|---|---|
| `Prelude.dfy`, `GoStrings.dfy` | options and sequences; `strings.SplitN`, `Split`, `TrimSpace` |
| `Registry.dfy` | the two-level client registry, addressing, channel names |
| `Hub.dfy` | the hub as a class: registry updates, publishers with retry, the Redis relay |
| `Network.dfy` | several hubs behind one Redis server |
| `MessageList.dfy` | the optimistic list of one conversation as a reconciliation protocol |
| `ChatClient.dfy` | the page: all lists, the active conversation, the request-id guard |
| `RefreshTokens.dfy`, `RefreshHandler.dfy` | the session table under interleaved requests; the refresh endpoint |
| `ConversationTables.dfy` | the tables and `CreateConversation` with failures at every statement |
| `ConversationServer.dfy` | concurrent creates and message posts |
| `ConversationViews.dfy` | pushed against polled display names |
| `Publications.dfy` | whole PublishMessage calls inside network runs, and which instances they reach |
| `EndToEnd.dfy`, `TabOrder.dfy` | from the bus to the screen: what a tab shows, and in which order |
| `RecentMessages.dfy`, `RenderMessages.dfy`, `EscapeHtml.dfy`, `Reconnect.dfy` | the message window query, date separators, escaping, reconnection |

Classes have the fields their source objects update, and their methods are proved against
specification functions; the laws over whole runs are lemmas about those functions.

## Properties that hold only under a condition

- Delivery of stored messages: a connection is keyed by the raw `conversation_id` of its URL but
  messages are published under the canonical text, so it hears them if and only if it used that
  text (`OnlyCanonicalKeyReceives`): for a UUID text, if it has no upper-case digit (`CaseDecides`,
  failing case `UpperCaseKeyHearsNothing`).
- A published message reaches the clients of an instance if and only if the bus took one of the
  attempts or the call was made on that instance (`PublishingReachesExactly`, `IssuedExactly`). After
  five refusals only the caller's own instance hears it (failing run `OtherInstanceNeverHears`), so
  a tab misses no message if and only if every call reached its instance (`NothingMissedExactly`).
- What an instance issues to a connection that stays up is neither lost nor doubled (`ExactlyOnce`), and
  all of it is received once the instance has relayed its queue (`EverythingArrives`). It
  arrives in the order of issue if and only if no local broadcast finds another frame still queued
  (`InOrderExactly`; `FallbackCanOvertake` and `LostAckDoublesFrame` are failing runs). The tab's
  messages are in that order if and only if no broadcast puts a new one ahead of a different new one
  still waiting (`IssueOrderExactly`).
- Provisional entries equal the unanswered sends of a list throughout a run if and only if every
  refusal finds its own entry and every repeated message finds none to remove, unless no entry of
  that author and body is left (`ReconciliationExactly`). `RepeatedEchoEatsSibling` and
  `RefusedTwinStays` are failing runs. On the page the refusal must also find its conversation on
  screen (`PageReconciliationExactly`, failing run `OffScreenRefusalStays`).
- Tokens are single use if and only if every UPDATE finds the hash its SELECT read
  (`SingleUseExactly`, failing run `RacingRotationsBothSucceed`), and a logout is final if and only if
  no rotation holds the row it revokes (`LogoutFinalExactly`, failing run `LogoutUndone`). With rotation atomic both hold
  (`AtomicRotationIsSerial`, `AtomicLogoutIsFinal`).
- Direct pairs stay unique if and only if every direct commit finds its pair still free
  (`PairUniqueExactly`, failing run `RacingCreatesShareAPair`); serialized creates always do.
- The users notified of a new conversation are its participants if and only if no nil id was
  requested or the creator is nil (`RecipientsAreParticipantsExactly`, failing case
  `NilIdIsNotified`); a group's pushed view matches the polled one if and only if nobody else has a
  display name (`GroupPushEqualsPollExactly`, failing case `NamedGroupDiffers`).
- A day has one separator if and only if no day comes back after another (failing case
  `ReturningDayIsSeparatedTwice`); sorted lists qualify.

## Modelling decisions

- One broadcast is one step: the Go code iterates a room after releasing the read lock, and the
  interleaving with a concurrent disconnect is not modelled.
- Redis is an ordered log copied to every instance's queue. Each publish is acknowledged, refused, or
  taken with the acknowledgement lost. Jitters and outcomes are inputs. In `Network` a publish is the
  messages the bus accepted and, after five failures, the instance's local broadcast.
- The ids of provisional entries do not repeat: the page draws a millisecond and a number below 1000,
  and two sends in one millisecond could collide. A refusal names a send of the run or one from
  before it, such as a send whose list was fetched anew since.
- An echo carries no provisional id, so a new message answers the oldest open send of its author and
  body, if there is one; it may also come from another tab, or follow a refusal of a send that was
  stored after all.
- A run carries out a set of PublishMessage calls when its bus steps are those of the calls, with the
  steps of different calls interleaved in any way.
- Marshalling is an input: the payload, or nothing when it fails.
- SHA-256 is injective, random tokens and row ids do not repeat, time is an integer input in seconds
  (tokens) or milliseconds (messages).
- Row ids of the session table are positions; users, sessions and conversations are never deleted,
  as in the code.
- A SELECT, UPDATE, INSERT or COMMIT is one step. The duplicate check and the user count of a create
  are one step in `ConversationServer`, because the set of users does not change.
- In `Database.CreateConversation` the set `broken` names the statements that fail and `commit` says
  what COMMIT did.
- The Cookie value found by net/http's own parser is an input of the refresh endpoint.

## Model

| member | source | states |
|---|---|---|
| Registry.RoomsAreTheirPairs | backend/ws/hub.go:16-18 | the nested map carries exactly the information of a set of (key, client) pairs if and only if no inner map is empty |
| Registry.PairsAreTheirRooms | backend/ws/hub.go:49-67 | every set of pairs is represented by a nested map without empty rooms |
| Registry.RegistryIsLiveSet | backend/ws/ws.go:84-100 | over every run of connects and disconnects the registry has no empty room, holds exactly the live connections, each under its own key |
| Registry.RouteOfThreeFields | backend/ws/hub.go:141-175 | a three-field channel name is routed by its second field to its third, colons in the id included |
| Registry.ChannelRoundTrip | backend/ws/hub.go:128-146 | each channel a publisher uses is subscribed to and parsed back to the very id it was built from |
| Registry.SubscribedExactly | backend/ws/hub.go:128 | the subscription covers exactly the channels that begin with one of its four prefixes |
| Registry.TooFewFields | backend/ws/hub.go:141-144 | a channel name of one or two fields is routed to nobody |
| Registry.RegisteredOnce | backend/ws/hub.go:149-174 | a conversation- or user-scoped send hits each registered client it addresses exactly once and no other |
| GoStrings.SplitN | backend/ws/hub.go:141 | at most n fields, none but an n-th one containing the separator |
| GoStrings.SplitNJoin | backend/ws/hub.go:141 | joining the fields gives back the channel name |
| Hub.Redis.Publish | backend/ws/hub.go:86 | the log grows unless the publish is refused; an error is reported unless it is acknowledged |
| Hub.Hub.AddClient | backend/ws/hub.go:49-56 | the registry represents the old pairs plus the new one |
| Hub.Hub.RemoveClient | backend/ws/hub.go:58-67 | the registry represents the old pairs minus the one removed, with no empty room left |
| Hub.Hub.BroadcastLocal | backend/ws/hub.go:110-124 | each client of the room gets the frame once, nobody else anything, nothing at all if marshalling fails |
| Hub.Hub.SendToUser | backend/ws/hub.go:202-210 | each client of the user gets one frame per room that holds it |
| Hub.Hub.Relay | backend/ws/hub.go:141-175 | a relayed message writes its payload to exactly the clients its channel routes to |
| Hub.Hub.PublishMessage | backend/ws/hub.go:70-107 | at most five attempts; either one acknowledged publish and no error, or five failures, one local broadcast and an error; total sleep within [100(2^f-1), 100(2^f-1)+199f] ms for f sleeps, at most 2296 ms; the code after the loop is unreachable |
| Hub.Hub.PublishEvent | backend/ws/hub.go:180-192 | one publish attempt without fallback, or local delivery when there is no Redis |
| Hub.Hub.PublishUserEvent | backend/ws/hub.go:195-219 | the same for the clients of one user |
| Hub.Hub.UpdatePresence | backend/ws/hub.go:222-249 | a failed key write ends the call before anything is published |
| Network.RelayEqualsLocalDelivery | backend/ws/hub.go:110-219 | on every instance and for all four channels, relaying what a publisher put on the bus writes to each client exactly the frames that local delivery of the same call would |
| Network.DeliveredOnce | backend/ws/hub.go:149-174 | relaying adds the payload once to every addressed client of the instance |
| Network.RelayTakesNext | backend/ws/hub.go:132-177 | a relay takes the first waiting message and no other off its own queue, and writes it to each client as often as it is addressed |
| Network.QueueDrains | backend/ws/hub.go:132-177 | as many relays as messages wait empty the queue, and each attached client has got exactly what they mean for it, in order |
| Network.FallbackEffect | backend/ws/hub.go:94-98 | a local broadcast writes past the queue, once to each addressed client of its own instance |
| Network.StepBalance | backend/ws/hub.go:82-177 | no step, the local broadcast included, loses or doubles a frame for a connected client, and it keeps the order of issue exactly when it does not overtake |
| Network.ExactlyOnce | backend/ws/hub.go:82-177 | over every interleaving a connection that stays up has received, or has waiting, exactly the frames issued to it, with multiplicity |
| Network.EverythingArrives | backend/ws/hub.go:82-177 | every run can be completed by relays after which each connection of the instance has received exactly what was issued to it, with multiplicity |
| Network.NodesRegisterTheLive | backend/ws/ws.go:84-100 | in every run an instance registers exactly the connections made to it and not closed since |
| Network.UpIsAttached | backend/ws/ws.go:84-100 | after a run the hypothesis of the delivery laws holds of a client if and only if it is connected to that instance and to no other |
| Network.InvolvesExactly | backend/ws/ws.go:84-100 | the steps excluded while a connection stays up are exactly its own connects and disconnects |
| Network.InOrderExactly | backend/ws/hub.go:82-177 | they are in the order of issue at every moment if and only if no local broadcast finds another frame still waiting |
| Network.FallbackCanOvertake | backend/ws/hub.go:94-98 | a run in which a broadcast message arrives before one published earlier |
| Network.LostAckDoublesFrame | backend/ws/hub.go:86-98 | a run in which one message arrives over both paths |
| Network.OnlyCanonicalKeyReceives | backend/ws/ws.go:47-85 | a client gets its conversation's messages if and only if it connected with the canonical id text |
| Network.CaseDecides | backend/ws/ws.go:47-85 | a client keyed by a UUID text hears the messages of that UUID if and only if the text has no upper-case digit |
| Network.UpperCaseKeyHearsNothing | backend/ws/ws.go:47-85 | a connection keyed by an upper-case UUID text hears nothing published under the canonical text of the same UUID |
| Publications.PublishingReachesExactly | backend/ws/hub.go:82-106 | one call issues its message, and no other, to an instance's clients if and only if an attempt was taken or the instance is the caller's |
| Publications.IssuedExactly | backend/ws/hub.go:82-177 | over every interleaving of any number of calls an instance's clients are issued exactly the messages whose calls reach it |
| Publications.PublishingIsTheCall | backend/ws/hub.go:82-106 | in a network one call adds one copy per attempt taken to every queue, and after five failures and only then one frame for each addressed client of its own instance |
| Publications.InTurn | backend/ws/hub.go:82-106 | any calls with five outcomes each can be carried out, one after another |
| Publications.AnyInterleaving | backend/ws/hub.go:82-106 | the order of two neighbouring steps does not matter to which calls a run carries out, nor do steps that publish nothing |
| Publications.OtherInstanceNeverHears | backend/ws/hub.go:94-98 | a run in which a client of the conversation on another instance never gets the message |
| MessageList.StoredPartIsFirstArrivals | frontend/script.js:538-570 | over every run the stored part of the list is the initial one followed by the first arrivals of new ids in order |
| MessageList.StoredIDsStayDistinct | frontend/script.js:743-765 | stored ids stay pairwise distinct over every run |
| MessageList.KnownIsRepeated | frontend/script.js:758-760 | the handler's id check is true exactly for messages that arrived before |
| MessageList.ArrivalRemovesFirstMatch | frontend/script.js:745-763 | an arrival removes the first entry with a `local-` id, its author and its body, and no other entry; it is appended unless its id is there |
| MessageList.EchoPicksItsText | frontend/script.js:745-763 | after two sends of different texts the echo of the second leaves the first and itself |
| MessageList.StepPending | frontend/script.js:745-753 | an event changes the number of provisional entries of an author and body by one at most, as its guard decides |
| MessageList.ReconciliationExactly | frontend/script.js:528-570 | provisional entries equal the list's unanswered sends at every moment if and only if every event met the list it should |
| MessageList.EchoOrderExactly | frontend/script.js:745-765 | without refusals the entries are sends minus echoes at every moment if and only if no prefix of the run holds more echoes than sends |
| MessageList.SettledListIsStored | frontend/script.js:528-570 | once every send is answered the list is the stored messages, each once |
| MessageList.RepeatedEchoEatsSibling | frontend/script.js:746-759 | a run in which a repeated echo removes a send that is still awaited |
| MessageList.RefusedTwinStays | frontend/script.js:555-569 | a run in which a provisional entry stays although every send is answered |
| ChatClient.ListsAreIndependent | frontend/script.js:538-557 | until an answer lands or the user logs out each conversation's list evolves by its own events alone |
| ChatClient.ReplacedExactly | frontend/script.js:443-447 | an answer that lands or a logout leaves the answer or nothing; an action without an event for the list leaves it alone |
| ChatClient.HonestExactly | frontend/script.js:522-570 | the page runs of the laws, action by action: sends draw `local-` ids not used before, a refusal names an earlier send of the run or one from before it, arrivals carry server ids |
| ChatClient.EventsAreGenuine | frontend/script.js:522-570 | on a page whose sends draw new provisional ids the events of every list satisfy the hypotheses of the list laws |
| ChatClient.PageStoredPart | frontend/script.js:538-765 | on every page run, stale answers included, the stored part of each list is its start followed by the first arrivals of new ids |
| ChatClient.PageReconciliationExactly | frontend/script.js:522-765 | the provisional entries of a list equal its sends that neither a refusal nor an arrival has answered, whatever is on screen, at every moment if and only if every refusal found its conversation and its entry and every repeat found none |
| ChatClient.PageSettles | frontend/script.js:522-765 | a conversation run that way shows its stored messages and nothing else once all its sends are answered |
| ChatClient.EchoSettlesSend | frontend/script.js:522-765 | a send and its echo leave the stored message alone in the list |
| ChatClient.OffScreenRefusalStays | frontend/script.js:555-566 | a run in which a send refused while another conversation is on screen stays for ever though it is answered |
| ChatClient.PageIDsStayDistinct | frontend/script.js:443-765 | over every page run, refetches and logouts included, no list holds a stored id twice |
| ChatClient.RefusalNeedsItsConversation | frontend/script.js:555-566 | a refused send stays in its list if and only if another conversation is active by then |
| ChatClient.LatestOpenWins | frontend/script.js:418-449 | a fetched list lands if and only if no conversation, the same one included, was opened and no logout happened since its request |
| ChatClient.Page.OnSend | frontend/script.js:522-540 | appends the provisional entry to the active list, nothing without text or active conversation |
| ChatClient.Page.OnSendFailed | frontend/script.js:555-566 | filters the list active by then |
| ChatClient.Page.OnMessage | frontend/script.js:741-765 | drops the first entry with a `local-` id and the message's author and body, if there is one, then appends the message unless its id is known; other lists stay |
| ChatClient.Page.OpenConversation | frontend/script.js:418-427 | draws the next request id and activates the conversation |
| ChatClient.Page.OnFetched | frontend/script.js:443-449 | overwrites the list unless the request is stale |
| ChatClient.Page.OnLogIn | frontend/script.js:288-289 | names the user whose sends follow |
| ChatClient.Page.OnLogOut | frontend/script.js:92-98 | forgets lists and active conversation but not the request counter |
| RefreshTokens.HashesStayDistinct | backend/auth.go:156-206 | token hashes stay pairwise distinct in every interleaving of statements |
| RefreshTokens.EveryAcceptedTokenTraces | backend/auth.go:156-206 | every token a row accepts traces through rotations to a login of the row's user |
| RefreshTokens.GoneStaysGone | backend/auth.go:174-218 | an issued token that names no row never comes back, however it left the table |
| RefreshTokens.ClaimsKeepTheirToken | backend/auth.go:180-201 | a token a request has read stays on the row it read or on none |
| RefreshTokens.SpentIsGone | backend/auth.go:174-206 | in every interleaving a superseded token names no row in any later state and is rejected |
| RefreshTokens.SingleUseExactly | backend/auth.go:174-206 | no token rotates twice if and only if every UPDATE finds the hash its SELECT read |
| RefreshTokens.AtomicRotationIsSerial | backend/auth.go:174-206 | with nothing between SELECT and UPDATE tokens are single use |
| RefreshTokens.RacingRotationsBothSucceed | backend/auth.go:180-201 | a run in which one token rotates twice |
| RefreshTokens.UnclaimedRevokedRowIsFrozen | backend/auth.go:189-218 | a revoked row no request has read never changes again |
| RefreshTokens.RevocationFinalExactly | backend/auth.go:199-218 | after any run a revoked row stays revoked in every continuation with fresh tokens if and only if no open request had read it |
| RefreshTokens.LogoutFinalExactly | backend/auth.go:199-218 | after any run a logout through the current token is final if and only if no open request holds the row |
| RefreshTokens.LogoutUndone | backend/auth.go:180-218 | a run in which a rotation read before the logout brings the session back |
| RefreshTokens.AtomicRunsLeaveRevokedRows | backend/auth.go:174-218 | with rotation atomic a row revoked at a logout is the same at the end of the run |
| RefreshTokens.AtomicLogoutIsFinal | backend/auth.go:174-218 | with rotation atomic a row revoked through its current token stays as the logout left it and is never live again |
| RefreshTokens.TokenStore.CreateRefreshToken | backend/auth.go:156-171 | the issued token is accepted exactly until its lifetime ends |
| RefreshTokens.TokenStore.RotateRefreshToken | backend/auth.go:174-206 | succeeds exactly for a live row, changes only that row, accepts the new token for one lifetime and the old one never again |
| RefreshTokens.TokenStore.RevokeRefreshToken | backend/auth.go:209-218 | the token is rejected at every time, rows with other hashes are untouched, the empty token does nothing |
| RefreshHandler.TrimmedExactly | backend/auth.go:304 | what is trimmed is the Unicode white space, the space and the tab among it, and no visible ASCII character |
| RefreshHandler.TrimsToPair | backend/auth.go:304 | trimming leaves exactly the name=value pair, whatever white space is around it |
| RefreshHandler.PrefixIsName | backend/auth.go:305-306 | the prefix test picks the cookies named refresh_token and yields their whole value |
| RefreshHandler.SplitUndoesJoin | backend/auth.go:303 | splitting recovers the fields a header was joined from |
| RefreshHandler.CandidatesOfHeader | backend/auth.go:300-312 | the candidates are the parser's value, if any, followed by exactly the refresh_token values in order |
| RefreshHandler.CandidatesAsSent | backend/auth.go:300-312 | for pairs joined by a semicolon and a space, as browsers send them, the candidates are the parser's value and then every refresh_token value in order |
| RefreshHandler.ShadowedCookieIsTried | backend/auth.go:300-312 | of two refresh_token cookies the second is a candidate too |
| RefreshHandler.CollectCandidates | backend/auth.go:300-312 | the loop collects those candidates |
| RefreshHandler.Refresh | backend/auth.go:320-335 | rotation succeeds if and only if some candidate names a live row, and renews only the row of the first such candidate, for 604,800 seconds |
| ConversationTables.UniqueParticipants | backend/store/repo.go:174-189 | no repeats, and exactly the non-nil requested ids plus the creator |
| ConversationTables.Database.Validate | backend/store/repo.go:174-238 | the checks turn down exactly the requests that are not a pair, repeat a direct pair, or name an unknown user, in that order |
| ConversationTables.Database.ExistsDirect | backend/store/repo.go:205-218 | the query finds a conversation exactly when one has these two participants and no others |
| ConversationTables.Database.InsertParticipants | backend/store/repo.go:261-270 | adds one row per wanted user, or stops at the first failing statement |
| ConversationTables.Database.CreateConversation | backend/store/repo.go:171-277 | with any statement failing the tables hold exactly the whole new conversation if and only if the checks pass, no statement that is reached fails and COMMIT is not rolled back, and are unchanged otherwise; the row has the title of a group and none for a direct conversation, the requested kind and creator, and the wanted participants |
| ConversationTables.CreatedPairs | backend/store/repo.go:192-222 | adding a direct conversation keeps pairs unique if and only if its pair was free |
| ConversationTables.CreatedIsPair | backend/store/repo.go:191-195 | a direct conversation of two wanted users has exactly two participants |
| ConversationTables.Database.PostMessage | main.go:378-400 | stores the message if and only if the author takes part and neither statement fails; a failed check, a stranger and a failed insert are told apart as the handler does |
| ConversationServer.StepIsAtomic | backend/store/repo.go:240-276 | a commit adds one whole conversation for exactly the wanted users, a save whose check passed adds the message of one participant, and every other step leaves the visible tables alone |
| ConversationServer.CreateCompletes | backend/store/repo.go:240-276 | a request the checks pass, its inserts carried out and committed, ends with the whole conversation in the tables |
| ConversationServer.AbortForgets | backend/store/repo.go:244 | a failed create leaves nothing behind and other open creates alone |
| ConversationServer.PostStoredExactly | main.go:378-393 | whatever happens between check and insert, a post is stored under its author and conversation if and only if the author took part when it was checked |
| ConversationServer.RunStaysSound | main.go:378-393 | in every interleaving the author of every stored message takes part in its conversation |
| ConversationServer.ConversationsAreAccountable | backend/store/repo.go:240-276 | over every interleaving old conversations keep their row and participants and each new one has the title (for a group), kind, creator and participants some accepted request asked for |
| ConversationServer.PairUniqueExactly | backend/store/repo.go:205-276 | pairs stay unique if and only if every direct commit finds its pair still free |
| ConversationServer.RacingCreatesShareAPair | backend/store/repo.go:205-276 | a run in which two users ask for each other and both creates commit |
| ConversationServer.SerializedCreatesKeepPairsUnique | backend/store/repo.go:192-222 | creates checked one at a time keep every direct conversation a pair and every pair unique |
| ConversationViews.BuildRecipients | main.go:218-244 | the creator first, then every other requested id, each once |
| ConversationViews.UserViews | main.go:236-296 | one view per recipient with its pushed name |
| ConversationViews.CreatedStands | backend/store/repo.go:240-276 | a conversation just created meets the hypothesis of the laws about views |
| ConversationViews.DirectPushEqualsPoll | main.go:268-283 | for an accepted direct conversation the pushed name is the one and only name polling can return, for both recipients |
| ConversationViews.GroupPushEqualsPollExactly | backend/store/repo.go:78-90 | for a group the two agree exactly when no other participant has a display name |
| ConversationViews.NilIdIsNotified | main.go:218-234 | a group request whose nil id is notified and takes no part |
| ConversationViews.NamedGroupDiffers | main.go:268-283 | a group in which polling shows a name that is not pushed |
| ConversationViews.RecipientsAreParticipantsExactly | main.go:218-234 | the recipients are the participants exactly when no nil id was requested or the creator is nil |
| EndToEnd.ArrivalsAreFirstOccurrences | frontend/script.js:741-765 | sends and failures leave no trace in the stored part of the list; only the order of deliveries counts |
| EndToEnd.DrainedTabIsWatching | backend/ws/hub.go:132-177 | every run of a connected tab can be completed by relays to one the end-to-end laws speak about, with the same messages issued |
| EndToEnd.TabShowsEveryMessageOnce | backend/ws/hub.go:126-177 | over every run a tab whose connection stays up shows, once its queue is drained, its initial messages and every message issued on its instance for its conversation, no other, and each id once |
| EndToEnd.TabShowsWhatReachesIt | backend/ws/hub.go:70-177 | over every interleaving of publications it shows exactly the ids it started with and those whose publication reached its instance |
| EndToEnd.NothingMissedExactly | backend/ws/hub.go:82-106 | it misses none of its conversation's messages if and only if every call had an attempt taken or was made on its instance |
| EndToEnd.AnsweredTabShowsWhatReachesIt | frontend/script.js:522-765 | the sender's own tab included: with its sends answered and its queue drained the page shows its start and what reached its instance, nothing provisional and no id twice |
| TabOrder.JumpExactly | frontend/script.js:758-765 | putting a message ahead of waiting ones changes the list shown exactly when it is new and a different new one waits first |
| TabOrder.IssueOrderExactly | backend/ws/hub.go:82-177 | the tab's messages are in the order of issue at every moment if and only if no broadcast puts a new message ahead of a different new one still waiting |
| TabOrder.TabShowsIssueOrder | backend/ws/hub.go:82-177 | in that case the drained tab shows its start and then the issued messages in order |
| RecentMessages.QueryIsRecentWindow | backend/store/repo.go:108-123 | an answer is possible if and only if it is ascending, holds only rows of the conversation, each at most as often as the table, min(limit, n) of them for the n in the table (limit 100 when none is given), and omits none newer than one it holds |
| RenderMessages.RenderMessages | frontend/script.js:487-515 | the loop renders the specified sequence of separators and bubbles |
| RenderMessages.DayExactly | frontend/script.js:496-497 | day d is the d-th interval of 86,400,000 ms since the epoch |
| RenderMessages.RenderedIsFaithful | frontend/script.js:487-515 | without separators the rendering is the list, and every separator stands where a day begins |
| RenderMessages.OnlyOneRendering | frontend/script.js:487-515 | no other sequence has these two properties |
| RenderMessages.EveryDayHasSeparator | frontend/script.js:496-504 | the days with a separator are the days of the list |
| RenderMessages.OneSeparatorPerDayExactly | frontend/script.js:496-504 | no day has two separators if and only if no day comes back after another |
| RenderMessages.SortedListHasOneSeparatorPerDay | frontend/script.js:496-504 | a list sorted by time qualifies |
| RenderMessages.ReturningDayIsSeparatedTwice | frontend/script.js:496-504 | a list in which a day comes back and is separated twice |
| EscapeHtml.DecodeEscape | frontend/script.js:848-850 | decoding the five entities returns the input, for every string |
| EscapeHtml.EscapedIsInert | frontend/script.js:848-850 | the output holds no `<`, `>`, `"` or `'`, and each `&` begins one of the five entities |
| EscapeHtml.EscapeIsInjective | frontend/script.js:848-850 | different strings stay different |
| Reconnect.LaterWaitsLonger | frontend/script.js:596-598 | a later attempt never waits less, whatever the jitters, and waits the maximum from the seventh on |
| Reconnect.BackoffIsMonotone | frontend/script.js:588-613 | over every run the delays since the last open never shrink, lie in [500, 30000] ms and are 30000 from the seventh on |
| Reconnect.OneTimer | frontend/script.js:580-613 | over every run at most one reconnect timer is pending, and none after closing by hand |
| Reconnect.ScheduleArmsOne | frontend/script.js:588-613 | after any run a schedule replaces the pending timer by one new timer due after min(500·2^attempts + jitter, 30000) ms, unless closed by hand |
| Reconnect.Reconnector.ScheduleReconnect | frontend/script.js:588-613 | nothing when closed by hand, else replaces the pending timer by one with the next delay |
| Reconnect.Reconnector.OnTimer | frontend/script.js:605-612 | a fired timer is no longer pending and its handle is forgotten |
| Reconnect.Reconnector.BeginConnect | frontend/script.js:615-619 | clears the manual-close flag and any pending timer |
| Reconnect.Reconnector.OnOpen | frontend/script.js:659-665 | resets the attempts and clears the timer |
| Reconnect.Reconnector.CloseWs | frontend/script.js:827-837 | clears the timer and remembers the manual close |

## Left out

- HTTP plumbing, JSON encoding, logging, environment and pool setup: no state of their own.
- bcrypt, JWT signing and the choice among Authorization header, cookie and query token: library behaviour and plain branching.
- UUID parsing: ids are strings or numbers; where the spelling matters the parser is a parameter.
- Redis TTL keys, lost or dropped subscriptions: presence expiry is Redis behaviour, and the relay is modelled with a subscription that stays up.
- HandleClientMessage dispatch and the membership check of ServeWS: they only select among the modelled calls.
- A token UPDATE that succeeds while its error is reported, and RNG failures: the table then changes as in a successful rotation, or not at all.
- User search, titles beyond their storage, avatars, ordering and limit of the conversation list: no claims made.
- `state.convs`, toasts, typing indicators and the typing throttle: display state, or a single guard.
- "One open socket" on the page: superseded sockets still schedule reconnects, so no run-level claim is made beyond the single timer.
- Calendar days outside the years 0 to 9999, where the first ten characters of the ISO time no longer name a day, and invalid dates.
- The local time zone of separator labels: only the UTC day key is modelled.
- NUL characters and encoding: strings are sequences of characters.
