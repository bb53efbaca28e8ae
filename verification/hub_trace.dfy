/**
 * Sequences of hub calls, applied one after another to a single hub. Calls
 * from different connections are taken to arrive in some order, each applied
 * whole before the next.
 */
module HubTrace {
  import opened RoomCode
  import opened RoomHub
  import opened HubProperties

  /** One inbound call: a hub method invoked by a connection, or its disconnection. */
  datatype Call =
    | CreateRoomCall(conn: ConnectionId, candidate: string)
    | JoinRoomCall(conn: ConnectionId, code: string)
    | ChooseNameCall(conn: ConnectionId, name: string)
    | DisconnectCall(conn: ConnectionId)

  /** What the caller gets back. */
  datatype Reply = RoomCodeReply(code: string) | JoinReply(joined: bool) | NoReply

  /** A creation's generated text is long enough to cut a code from. */
  predicate WellFormed(call: Call)
  {
    call.CreateRoomCall? ==> |call.candidate| >= CodeLength
  }

  predicate AllWellFormed(calls: seq<Call>)
  {
    forall i | 0 <= i < |calls| :: WellFormed(calls[i])
  }

  /** The code a call would register: the one cut from a creation's text, none otherwise. */
  function CodesOf(call: Call): set<string>
    requires WellFormed(call)
  {
    if call.CreateRoomCall? then {RoomCodeOf(call.candidate)} else {}
  }

  /** Every code that some creation in `calls` asked for. */
  function CreatedCodes(calls: seq<Call>): set<string>
  {
    set i | 0 <= i < |calls| && calls[i].CreateRoomCall? && |calls[i].candidate| >= CodeLength
      :: RoomCodeOf(calls[i].candidate)
  }

  /** Applies one call to the hub. */
  function Apply(h: Hub, call: Call): (r: Step<Reply>)
    requires WellFormed(call)
    ensures r.hub.rooms == h.rooms + CodesOf(call)
    ensures call.CreateRoomCall? ==> r.result == RoomCodeReply(RoomCodeOf(call.candidate))
    ensures call.JoinRoomCall? ==> r.result == JoinReply(call.code in h.rooms)
    ensures call.ChooseNameCall? || call.DisconnectCall? ==> r.result == NoReply
  {
    match call
    case CreateRoomCall(conn, candidate) =>
      var s := CreateRoom(h, conn, candidate);
      Step(s.hub, RoomCodeReply(s.result), s.effects)
    case JoinRoomCall(conn, code) =>
      var s := JoinRoom(h, conn, code);
      Step(s.hub, JoinReply(s.result), s.effects)
    case ChooseNameCall(conn, name) =>
      var s := ChooseName(h, conn, name);
      Step(s.hub, NoReply, s.effects)
    case DisconnectCall(conn) =>
      var s := Disconnect(h, conn);
      Step(s.hub, NoReply, s.effects)
  }

  /** Applies the calls in order, collecting the replies and the transport calls. */
  function Run(h: Hub, calls: seq<Call>): (r: Step<seq<Reply>>)
    requires AllWellFormed(calls)
    ensures |r.result| == |calls|
    ensures forall i | 0 <= i < |calls| && calls[i].CreateRoomCall? ::
              r.result[i] == RoomCodeReply(RoomCodeOf(calls[i].candidate))
    ensures forall i | 0 <= i < |calls| && calls[i].JoinRoomCall? :: r.result[i].JoinReply?
    ensures forall i | 0 <= i < |calls| && calls[i].ChooseNameCall? :: r.result[i] == NoReply
    ensures forall i | 0 <= i < |calls| && calls[i].DisconnectCall? :: r.result[i] == NoReply
    decreases |calls|
  {
    if calls == [] then
      Step(h, [], [])
    else
      var first := Apply(h, calls[0]);
      var rest := Run(first.hub, calls[1..]);
      Step(rest.hub, [first.result] + rest.result, first.effects + rest.effects)
  }

  lemma ApplyKeepsValid(h: Hub, call: Call)
    requires Valid(h) && WellFormed(call)
    ensures Valid(Apply(h, call).hub)
    ensures Grows(h, Apply(h, call).hub)
  {
    match call
    case CreateRoomCall(conn, candidate) => CreateRoomKeepsValid(h, conn, candidate);
    case JoinRoomCall(conn, code) => JoinRoomKeepsValid(h, conn, code);
    case ChooseNameCall(conn, name) => ChooseNameKeepsValid(h, conn, name);
    case DisconnectCall(conn) => DisconnectKeepsValid(h, conn);
  }

  /** Every sequence of calls keeps the invariant and never loses a room or a membership. */
  lemma {:induction false} RunKeepsValid(h: Hub, calls: seq<Call>)
    requires Valid(h) && AllWellFormed(calls)
    ensures Valid(Run(h, calls).hub)
    ensures Grows(h, Run(h, calls).hub)
    decreases |calls|
  {
    if calls != [] {
      ApplyKeepsValid(h, calls[0]);
      RunKeepsValid(Apply(h, calls[0]).hub, calls[1..]);
    }
  }

  lemma CreatedCodesSplit(calls: seq<Call>)
    requires |calls| > 0 && WellFormed(calls[0])
    ensures CreatedCodes(calls) == CodesOf(calls[0]) + CreatedCodes(calls[1..])
  {
    var tail := calls[1..];
    forall code | code in CreatedCodes(calls)
      ensures code in CodesOf(calls[0]) + CreatedCodes(tail)
    {
      var i :| 0 <= i < |calls| && calls[i].CreateRoomCall? && |calls[i].candidate| >= CodeLength
               && code == RoomCodeOf(calls[i].candidate);
      if i > 0 {
        assert tail[i - 1] == calls[i];
      }
    }
    forall code | code in CreatedCodes(tail)
      ensures code in CreatedCodes(calls)
    {
      var j :| 0 <= j < |tail| && tail[j].CreateRoomCall? && |tail[j].candidate| >= CodeLength
               && code == RoomCodeOf(tail[j].candidate);
      assert calls[j + 1] == tail[j];
    }
  }

  /** After a run, the rooms are the ones there were plus every code some creation asked for. */
  lemma {:induction false} RunRooms(h: Hub, calls: seq<Call>)
    requires AllWellFormed(calls)
    ensures Run(h, calls).hub.rooms == h.rooms + CreatedCodes(calls)
    decreases |calls|
  {
    if calls != [] {
      CreatedCodesSplit(calls);
      RunRooms(Apply(h, calls[0]).hub, calls[1..]);
    }
  }

  /**
   * Within a run, a join replies `true` exactly when its code was a room at
   * the start or was asked for by some creation earlier in the run.
   */
  lemma {:induction false} JoinReplyIffCreatedBefore(h: Hub, calls: seq<Call>, i: nat)
    requires AllWellFormed(calls)
    requires i < |calls| && calls[i].JoinRoomCall?
    ensures Run(h, calls).result[i] == JoinReply(calls[i].code in h.rooms + CreatedCodes(calls[..i]))
    decreases i
  {
    if i == 0 {
      assert CreatedCodes(calls[..0]) == {};
    } else {
      var first := Apply(h, calls[0]);
      var tail := calls[1..];
      JoinReplyIffCreatedBefore(first.hub, tail, i - 1);
      assert tail[i - 1] == calls[i];
      var prefix := calls[..i];
      CreatedCodesSplit(prefix);
      assert prefix[1..] == tail[..i - 1];
      assert prefix[0] == calls[0];
    }
  }

  /** Joining succeeds exactly for codes that some earlier creation asked for. */
  lemma JoinSucceedsIffCreated(calls: seq<Call>, conn: ConnectionId, code: string)
    requires AllWellFormed(calls)
    ensures JoinRoom(Run(Empty, calls).hub, conn, code).result <==> code in CreatedCodes(calls)
  {
    RunRooms(Empty, calls);
  }

  /**
   * Codes are looked up exactly as given, and every code a fresh hub holds is
   * upper-case, so a code with a lower-case letter never joins.
   */
  lemma LowerCaseCodeNeverJoins(calls: seq<Call>, conn: ConnectionId, code: string, k: nat)
    requires AllWellFormed(calls)
    requires k < |code| && IsAsciiLower(code[k])
    ensures !JoinRoom(Run(Empty, calls).hub, conn, code).result
  {
    RunRooms(Empty, calls);
  }
}
