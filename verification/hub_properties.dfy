/**
 * Properties of the hub's transitions that relate several states or several
 * calls: the invariant each operation keeps, who can hear an announcement,
 * and how repeated or overlapping calls behave.
 */
module HubProperties {
  import opened RoomCode
  import opened RoomHub

  /** A freshly started process has no rooms, no sessions and no groups, and is valid. */
  lemma FreshHubIsValid()
    ensures Empty.rooms == {} && Empty.users == map[] && Empty.groups == {}
    ensures Valid(Empty)
  {
  }

  /**
   * An announcement names exactly one person: two "has joined" texts, or two
   * "has left" texts, are equal only for equal names.
   */
  lemma {:induction false} AnnouncementNamesTheSender(a: string, b: string)
    ensures JoinedText(a) == JoinedText(b) ==> a == b
    ensures LeftText(a) == LeftText(b) ==> a == b
  {
    if JoinedText(a) == JoinedText(b) {
      assert |a| == |b|;
      assert a == JoinedText(a)[..|a|] == JoinedText(b)[..|b|] == b;
    }
    if LeftText(a) == LeftText(b) {
      assert |a| == |b|;
      assert a == LeftText(a)[..|a|] == LeftText(b)[..|b|] == b;
    }
  }

  /** A "has joined" text is never a "has left" text, whatever the two names. */
  lemma JoinedNeverReadsAsLeft(a: string, b: string)
    ensures JoinedText(a) != LeftText(b)
  {
    // Both end in " the room."; the character just before that ending differs.
    var j := JoinedText(a);
    var l := LeftText(b);
    assert j[|j| - 11] == " has joined the room."[10] == 'd';
    assert l[|l| - 11] == " has left the room."[8] == 't';
  }

  /** Rooms and group memberships are only ever added to. */
  predicate Grows(h: Hub, h': Hub)
  {
    h.rooms <= h'.rooms && h.groups <= h'.groups
  }

  lemma CreateRoomKeepsValid(h: Hub, conn: ConnectionId, candidate: string)
    requires Valid(h) && |candidate| >= CodeLength
    ensures Valid(CreateRoom(h, conn, candidate).hub)
    ensures Grows(h, CreateRoom(h, conn, candidate).hub)
  {
    var r := CreateRoom(h, conn, candidate);
    forall c | c in r.hub.users
      ensures r.hub.users[c].roomCode in r.hub.rooms
      ensures Membership(c, r.hub.users[c].roomCode) in r.hub.groups
    {
      if c != conn && r.result !in h.rooms {
        assert c in h.users - {conn};
        assert r.hub.users[c] == (r.hub.users - {conn})[c] == h.users[c];
      }
    }
  }

  lemma JoinRoomKeepsValid(h: Hub, conn: ConnectionId, code: string)
    requires Valid(h)
    ensures Valid(JoinRoom(h, conn, code).hub)
    ensures Grows(h, JoinRoom(h, conn, code).hub)
  {
    var r := JoinRoom(h, conn, code);
    forall c | c in r.hub.users
      ensures r.hub.users[c].roomCode in r.hub.rooms
      ensures Membership(c, r.hub.users[c].roomCode) in r.hub.groups
    {
      if c != conn && r.result {
        assert c in h.users - {conn};
        assert r.hub.users[c] == (r.hub.users - {conn})[c] == h.users[c];
      }
    }
  }

  lemma ChooseNameKeepsValid(h: Hub, conn: ConnectionId, name: string)
    requires Valid(h)
    ensures Valid(ChooseName(h, conn, name).hub)
    ensures Grows(h, ChooseName(h, conn, name).hub)
  {
    var r := ChooseName(h, conn, name);
    forall c | c in r.hub.users
      ensures r.hub.users[c].roomCode in r.hub.rooms
      ensures Membership(c, r.hub.users[c].roomCode) in r.hub.groups
    {
      if c != conn && conn in h.users {
        assert c in h.users - {conn};
        assert r.hub.users[c] == (r.hub.users - {conn})[c] == h.users[c];
      }
    }
  }

  lemma DisconnectKeepsValid(h: Hub, conn: ConnectionId)
    requires Valid(h)
    ensures Valid(Disconnect(h, conn).hub)
    ensures Grows(h, Disconnect(h, conn).hub)
  {
    var r := Disconnect(h, conn);
    forall c | c in r.hub.users
      ensures r.hub.users[c].roomCode in r.hub.rooms
      ensures Membership(c, r.hub.users[c].roomCode) in r.hub.groups
    {
      assert c != conn;
      assert c in r.hub.users - {conn};
      assert r.hub.users[c] == (h.users - {conn})[c] == h.users[c];
    }
  }

  /**
   * In a valid hub, the "has joined" announcement goes to a group that holds
   * every connection whose session is in the announcer's room, the announcer
   * included.
   */
  lemma JoinedAnnouncementReachesRoom(h: Hub, conn: ConnectionId, name: string)
    requires Valid(h) && conn in h.users
    ensures var r := ChooseName(h, conn, name);
            && |r.effects| == 1 && r.effects[0].SendToGroup?
            && forall c | c in r.hub.users && r.hub.users[c].roomCode == r.effects[0].group ::
                 Membership(c, r.effects[0].group) in r.hub.groups
  {
    ChooseNameKeepsValid(h, conn, name);
  }

  /**
   * In a valid hub, the "has left" announcement goes to a group that still
   * holds every remaining connection whose session is in the departed
   * connection's room.
   */
  lemma LeftAnnouncementReachesRoom(h: Hub, conn: ConnectionId)
    requires Valid(h) && conn in h.users && h.users[conn].name.Some?
    ensures var r := Disconnect(h, conn);
            && |r.effects| == 1 && r.effects[0].SendToGroup?
            && forall c | c in r.hub.users && r.hub.users[c].roomCode == r.effects[0].group ::
                 Membership(c, r.effects[0].group) in r.hub.groups
  {
    DisconnectKeepsValid(h, conn);
  }

  /** A second disconnect of the same connection changes nothing and sends nothing. */
  lemma DisconnectTwiceIsSilent(h: Hub, conn: ConnectionId)
    ensures var once := Disconnect(h, conn);
            var twice := Disconnect(once.hub, conn);
            twice.hub == once.hub && twice.effects == []
  {
    var once := Disconnect(h, conn);
    assert once.hub.users - {conn} == once.hub.users;
  }

  /** Choosing a name again replaces the earlier one: only the last choice is kept. */
  lemma ChooseNameOverwrites(h: Hub, conn: ConnectionId, first: string, second: string)
    ensures ChooseName(ChooseName(h, conn, first).hub, conn, second).hub
            == ChooseName(h, conn, second).hub
  {
    var a := ChooseName(ChooseName(h, conn, first).hub, conn, second).hub;
    var b := ChooseName(h, conn, second).hub;
    if conn in h.users {
      assert a.users - {conn} == h.users - {conn} == b.users - {conn};
      assert forall c | c in a.users :: c in b.users && a.users[c] == b.users[c] by {
        forall c | c in a.users ensures c in b.users && a.users[c] == b.users[c] {
          if c != conn {
            assert a.users[c] == (a.users - {conn})[c];
            assert b.users[c] == (b.users - {conn})[c];
          }
        }
      }
      assert a.users.Keys == b.users.Keys;
    }
  }

  /**
   * Joining a room again drops the name chosen before, so a later disconnect
   * announces nothing.
   */
  lemma RejoinForgetsName(h: Hub, conn: ConnectionId, code: string)
    requires code in h.rooms
    ensures Disconnect(JoinRoom(h, conn, code).hub, conn).effects == []
  {
  }

  /**
   * Two creations whose generated texts share their first six characters:
   * the second caller gets the same code back, but no session and no group,
   * so its later name choice is silent.
   */
  lemma CollidingCreateReturnsTakenCode()
    ensures var first := CreateRoom(Empty, "conn-a", "3f2a9c1e-4b7d-4e2a-9c1f-0a1b2c3d4e5f");
            var second := CreateRoom(first.hub, "conn-b", "3f2a9c77-0000-4111-8222-333344445555");
            && second.result == first.result == "3F2A9C"
            && "conn-a" in second.hub.users
            && "conn-b" !in second.hub.users
            && second.hub.groups == first.hub.groups
            && second.effects == []
            && ChooseName(second.hub, "conn-b", "Ben").effects == []
  {
    var first := CreateRoom(Empty, "conn-a", "3f2a9c1e-4b7d-4e2a-9c1f-0a1b2c3d4e5f");
    assert first.result == "3F2A9C";
    var second := CreateRoom(first.hub, "conn-b", "3f2a9c77-0000-4111-8222-333344445555");
    assert second.result == "3F2A9C";
  }
}
