# Room hub of klick-server, modelled in Dafny

klick-server is a real-time room coordinator. A client connects and creates a
room or joins one by its short code. It may then choose a display name, and the
others in the room hear about it when it joins and when it leaves. The whole
logic lives in the SignalR hub `RoomHub`, which keeps two process-wide tables:

- `Rooms`, the set of room codes created so far;
- `Users`, which maps a connection id to its session: `(roomCode, name?)`.

The model treats the hub as a pure state machine. `RoomHub.Hub` holds the two
tables plus the broadcast-group memberships the hub has requested. Each hub
method is a function from one `Hub` to a `Step`. A `Step` holds the next state,
the value returned to the caller, and the transport calls made, in order:
`AddToGroup(conn, code)` and `SendToGroup(code, "RecieveMessage", text)`. The
misspelled method name is kept because it is part of the wire contract.

Modules:

- `Options`: `Option<T>`, standing for a nullable string.
- `RoomCode`: how a code is cut from the generated text. The code is the first
  six characters, upper-cased. The text (a GUID's string form) is an input, so
  randomness stays outside the model.
- `RoomHub`: the state, the invariant `Valid`, and the four operations
  `CreateRoom`, `JoinRoom`, `ChooseName` and `Disconnect` (`OnDisconnectedAsync`).
- `HubProperties`: each operation keeps `Valid`, and rooms and groups only grow.
  It also covers who hears an announcement, repeated disconnects and names,
  and code collisions.
- `HubTrace`: sequences of calls applied one after another. After a run, the
  rooms are exactly the initial ones plus every code a creation asked for. So
  a join succeeds exactly for created codes.
- `Teams`: the `Team` record, with a given id, its name, and score 0. The
  type admits no team with any other score, because the score is read-only
  and the only constructor sets it to 0.

Room codes are not guaranteed unique. The comment at Hubs/RoomHub.cs:16 says
"Generate a unique room code.", but a colliding code is not retried
(Hubs/RoomHub.cs:20, 30-35). The collision branch changes nothing and still
returns the taken code, so two callers can receive the same code
(`HubProperties.CollidingCreateReturnsTakenCode`). A colliding `CreateRoom`
gives the caller no new session and no new group membership.

## Model

| member | source | states |
|---|---|---|
| RoomCode.ToUpper | Hubs/RoomHub.cs:17 | Upper-casing keeps the length, maps each character on its own, and leaves no lower-case ASCII letter |
| RoomCode.RoomCodeOf | Hubs/RoomHub.cs:17 | The room code is the upper-cased first six characters of the generated text: length 6, no lower-case letter; a text shorter than six characters is outside what the slice accepts |
| RoomCode.GuidCodeIsUpperHex | Hubs/RoomHub.cs:17 | A code cut from a GUID's text is six upper-case hexadecimal digits |
| RoomCode.ToUpperIdempotent | Hubs/RoomHub.cs:17 | Upper-casing an upper-cased string changes nothing |
| RoomCode.RoomCodeIsFixedPoint | Hubs/RoomHub.cs:17 | Cutting a code from a code gives the same code back |
| RoomHub.JoinedText | Hubs/RoomHub.cs:64-65 | The "has joined" announcement begins with the chosen name |
| RoomHub.LeftText | Hubs/RoomHub.cs:76-77 | The "has left" announcement begins with the departing name |
| HubProperties.FreshHubIsValid | Hubs/RoomHub.cs:9-12 | A freshly started process has no rooms, no sessions and no groups, and satisfies the invariant |
| HubProperties.AnnouncementNamesTheSender | Hubs/RoomHub.cs:64-77 | Two "has joined" texts, or two "has left" texts, are equal only when the names are equal, so an announcement identifies its name |
| HubProperties.JoinedNeverReadsAsLeft | Hubs/RoomHub.cs:64-77 | No "has joined" text equals any "has left" text, so a client can tell arrivals from departures |
| RoomHub.CreateRoom | Hubs/RoomHub.cs:14-36 | Returns the derived code in every case; a new code is added to the rooms, the caller gets session (code, null), the groups gain exactly (caller, code) with one AddToGroup call, and no other session changes; a taken code changes nothing and emits nothing |
| RoomHub.JoinRoom | Hubs/RoomHub.cs:38-54 | Returns true iff the code is a room; an unknown code changes nothing; a known one sets the caller's session to (code, null), overwriting any earlier one, the groups gain exactly (caller, code) with one AddToGroup call, and rooms and other sessions are left alone |
| RoomHub.ChooseName | Hubs/RoomHub.cs:56-67 | With a session: same room, name set, other sessions and rooms unchanged, exactly one "{name} has joined the room." to that room; without one: nothing changes, nothing is sent |
| RoomHub.Disconnect | Hubs/RoomHub.cs:69-82 | The caller's session is gone and no other changes; at most one message, sent iff the removed session had a name, and it is "{name} has left the room." to the session's room |
| HubProperties.CreateRoomKeepsValid | Hubs/RoomHub.cs:20-28 | CreateRoom keeps every session's room in the rooms and its connection in that room's group; rooms and groups only grow |
| HubProperties.JoinRoomKeepsValid | Hubs/RoomHub.cs:41-51 | JoinRoom keeps the invariant, and rooms and groups only grow |
| HubProperties.ChooseNameKeepsValid | Hubs/RoomHub.cs:58-61 | ChooseName keeps the invariant and leaves rooms and groups alone |
| HubProperties.DisconnectKeepsValid | Hubs/RoomHub.cs:71 | Disconnect keeps the invariant and leaves rooms and groups alone |
| HubProperties.JoinedAnnouncementReachesRoom | Hubs/RoomHub.cs:58-65 | The "has joined" message goes to a group holding every connection whose session is in that room, the sender included |
| HubProperties.LeftAnnouncementReachesRoom | Hubs/RoomHub.cs:71-77 | The "has left" message goes to a group still holding every remaining connection whose session is in that room |
| HubProperties.DisconnectTwiceIsSilent | Hubs/RoomHub.cs:71-79 | A second disconnect of the same connection changes nothing and sends nothing, so one connection's departure is announced at most once |
| HubProperties.ChooseNameOverwrites | Hubs/RoomHub.cs:58-61 | Choosing a name twice leaves the same state as choosing only the second name |
| HubProperties.RejoinForgetsName | Hubs/RoomHub.cs:47-79 | Joining a room again resets the name to null, so a later disconnect announces nothing |
| HubProperties.CollidingCreateReturnsTakenCode | Hubs/RoomHub.cs:17-35 | Two generated texts with the same six-character prefix give both callers the code "3F2A9C"; the second caller gets no session, the groups are unchanged, nothing is sent, and its ChooseName is silent |
| HubTrace.Apply | Hubs/RoomHub.cs:14-82 | One call adds to the rooms exactly the code a creation cuts, and replies with the created code, with whether the joined code was a room, or with nothing |
| HubTrace.Run | Hubs/RoomHub.cs:14-82 | A run yields one reply per call: every creation replies with the code cut from its own text whatever the state (the collision branch returns it too), every join replies with a boolean, and name choices and disconnects reply nothing |
| HubTrace.JoinReplyIffCreatedBefore | Hubs/RoomHub.cs:20-53 | Within a run, a join replies true iff its code was a room at the start or some earlier creation in the run asked for it |
| HubTrace.RunKeepsValid | Hubs/RoomHub.cs:9-82 | Every sequence of calls keeps the invariant, and never removes a room or a group membership |
| HubTrace.RunRooms | Hubs/RoomHub.cs:20 | After a run, the rooms are exactly the initial rooms plus every code some creation in the run asked for |
| HubTrace.JoinSucceedsIffCreated | Hubs/RoomHub.cs:38-45 | After a run from a fresh hub, JoinRoom returns true iff some creation in the run asked for that code |
| HubTrace.LowerCaseCodeNeverJoins | Hubs/RoomHub.cs:17-41 | Codes are compared exactly and every created code is upper-case, so a code holding a lower-case letter never joins |
| Teams.NewTeam | Models/Team.cs:9-29 | A new team's id is the identifier it was given, its name is the given name, and its score is 0 |

## Left out

- Program.cs: host start-up, CORS, HTTPS redirection and routing are framework configuration with no hub logic.
- SignalR delivery: `AddToGroupAsync` and `SendAsync` appear only as emitted `Effect` records. Which clients actually receive a message, including the sender itself, is not modelled.
- Group removal on disconnect: SignalR does this implicitly and the hub code never does it, so the modelled groups only grow.
- Team equality: `class Team` has no `Equals` override, so C# compares teams by reference, while the model's `TeamFields` compares by value. No hub operation compares teams.
- Console logging: `Console.WriteLine` has no effect on state or replies.
- `Guid.NewGuid()`: the GUID text for a room code and the team identifier are inputs. Their uniqueness is not assumed.
- Concurrency: `Rooms` is a shared non-thread-safe `HashSet` and `Users` is a `ConcurrentDictionary`. Each operation is modelled as one atomic step, and a run applies the steps in some order.
- Async and exceptions: `async`/`await`, the `exception` argument of `OnDisconnectedAsync`, and the call to `base.OnDisconnectedAsync` are not modelled.
- RoomCode.ToUpper: only maps the ASCII letters a..z, while .NET's culture-aware `ToUpper` also maps other letters. A GUID's text holds only hexadecimal digits and hyphens.
- RoomHub.ChooseName: takes the name as a non-null string, as the parameter is declared. A client sending null as the name is not modelled.
- Room expiry, retry on code collision, and team/criterion/score operations are not implemented by the hub, so they are not modelled.
