/** The `connection` handler of server.js: one shared room store, the list of
    live connections and an outbox that every `emit` appends to. Each
    listener of the handler is a method; each is proved to leave the store
    and the outbox exactly as the functions of module Protocol say, and to
    keep the store's invariant. */
module SignalServer {
  import opened Sequences
  import opened Uuid
  import opened RoomAdapter
  import opened Protocol

  /** The server's invariant on values: the store is consistent and its
      connections are exactly the live ones, each with a socket.io id. */
  ghost predicate Consistent(a: Adapter, connected: seq<Id>) {
    && RoomAdapter.Valid(a)
    && NoDup(connected)
    && (forall c :: c in connected <==> c in a.sids)
    && (forall c | c in connected :: IsSocketId(c))
  }

  lemma ConnectKeepsConsistent(a: Adapter, connected: seq<Id>, id: Id)
    requires Consistent(a, connected)
    requires IsSocketId(id) && id !in connected
    ensures Consistent(AddAll(a, id, id), connected + [id])
  {
    AddAllEffect(a, id, id);
    assert NoDup(connected + [id]) by {
      var t := connected + [id];
      forall i, j | 0 <= i < j < |t| ensures t[i] != t[j] {
        assert t[i] == connected[i];
        if j < |connected| {
          assert t[j] == connected[j];
        }
      }
    }
  }

  lemma JoinKeepsConsistent(a: Adapter, connected: seq<Id>, s: Id, r: Id)
    requires Consistent(a, connected)
    requires s in connected
    ensures Consistent(JoinAdapter(a, s, r), connected)
  {
    JoinEffect(a, s, r);
  }

  lemma DelEachKeepsConsistent(a: Adapter, connected: seq<Id>, s: Id, rs: seq<Id>)
    requires Consistent(a, connected)
    ensures Consistent(DelEach(a, s, rs), connected)
  {
    DelEachEffect(a, s, rs);
  }

  lemma DisconnectKeepsConsistent(a: Adapter, connected: seq<Id>, s: Id)
    requires Consistent(a, connected)
    ensures Consistent(DelAll(a, s), Remove(connected, s))
  {
    DelAllEffect(a, s);
    RemoveNoDup(connected, s);
  }

  class Server {
    /** `io.sockets.adapter`. */
    var adapter: Adapter
    /** The live connections in the order they connected (the order in
        which socket.io broadcasts). */
    var connected: seq<Id>
    /** Every event sent so far, in order. */
    var outbox: seq<Delivery>

    ghost predicate Valid()
      reads this
    {
      Consistent(adapter, connected)
    }

    constructor ()
      ensures Valid()
      ensures adapter == Empty && connected == [] && outbox == []
    {
      adapter := Empty;
      connected := [];
      outbox := [];
    }

    /** `shareRoomsInfo()`. */
    method ShareRoomsInfo()
      modifies this`outbox
      ensures outbox == old(outbox) + Directory(adapter, connected)
    {
      outbox := outbox + Fanout(connected, ShareRooms(ClientRooms(adapter)));
    }

    /** A new connection: socket.io puts it in the room named by its id,
        then the handler broadcasts the directory (server.js:17-20). */
    method Connect(id: Id)
      requires Valid()
      requires IsSocketId(id) && id !in connected
      modifies this
      ensures Valid()
      ensures adapter == AddAll(old(adapter), id, id)
      ensures connected == old(connected) + [id]
      ensures outbox == old(outbox) + Directory(adapter, connected)
    {
      ConnectKeepsConsistent(adapter, connected, id);
      adapter := AddAll(adapter, id, id);
      connected := connected + [id];
      ShareRoomsInfo();
    }

    /** The `JOIN` listener. A room the connection is already in (its own-id
        room included) changes nothing and sends nothing. Otherwise, on the
        member list read before the join: every member is told about the
        joiner (not to make the offer) and the joiner about every member (to
        make it); then the joiner is added and the directory broadcast. */
    method Join(s: Id, room: Id)
      requires Valid()
      requires s in connected
      modifies this
      ensures Valid()
      ensures connected == old(connected)
      ensures adapter == JoinAdapter(old(adapter), s, room)
      ensures Joined(old(adapter), s, room) ==> outbox == old(outbox)
      ensures !Joined(old(adapter), s, room) ==>
        outbox == old(outbox) + JoinIntroductions(old(adapter), s, room) + Directory(adapter, connected)
    {
      if room in adapter.sids[s] {
        return;
      }
      JoinKeepsConsistent(adapter, connected, s, room);
      NotifyPeers(Introduce, s, Members(adapter, room));
      adapter := AddAll(adapter, s, room);
      ShareRoomsInfo();
    }

    /** The `clients.forEach` loop of JOIN and of leaveRoom: for each client
        in turn, `io.to(client)` gets the notice about `s`, then `s` gets the
        one about the client. */
    method NotifyPeers(n: Notice, s: Id, clients: seq<Id>)
      modifies this`outbox
      ensures outbox == old(outbox) + PeerNotices(adapter, n, s, clients)
    {
      var i := 0;
      while i < |clients|
        invariant 0 <= i <= |clients|
        invariant outbox == old(outbox) + PeerNotices(adapter, n, s, clients[..i])
      {
        var c := clients[i];
        assert clients[..i + 1][..i] == clients[..i];
        outbox := outbox + ToRoom(adapter, c, NoticeFor(n, s, false));
        outbox := outbox + [Delivery(s, NoticeFor(n, c, true))];
        i := i + 1;
      }
      assert clients[..i] == clients;
    }

    /** `leaveRoom`, the `LEAVE` listener. For every room the connection is
        in, its own-id room included and in the order entered: every member
        found there (the leaver too) is told to remove the leaver, the leaver
        is told to remove every member, and the leaver leaves that room.
        Then the directory is broadcast. */
    method Leave(s: Id)
      requires Valid()
      requires s in connected
      modifies this
      ensures Valid()
      ensures connected == old(connected)
      ensures adapter == DelEach(old(adapter), s, RoomsOf(old(adapter), s))
      ensures outbox == old(outbox) + LeaveNotices(old(adapter), s, RoomsOf(old(adapter), s)) + Directory(adapter, connected)
    {
      LeaveRooms(s, adapter.sids[s]);
      ShareRoomsInfo();
    }

    /** The loop of leaveRoom over the rooms `rs`. */
    method LeaveRooms(s: Id, rs: seq<Id>)
      requires Valid()
      modifies this`adapter, this`outbox
      ensures Valid()
      ensures adapter == DelEach(old(adapter), s, rs)
      ensures outbox == old(outbox) + LeaveNotices(old(adapter), s, rs)
    {
      ghost var a0, o0 := adapter, outbox;
      var i := 0;
      while i < |rs|
        invariant 0 <= i <= |rs|
        invariant adapter == DelEach(a0, s, rs[..i])
        invariant outbox == o0 + LeaveNotices(a0, s, rs[..i])
      {
        ghost var done := rs[..i + 1];
        assert done[..i] == rs[..i] && done[i] == rs[i];
        LeaveRoom(s, rs[i]);
        i := i + 1;
      }
      assert rs[..i] == rs;
      DelEachKeepsConsistent(a0, connected, s, rs);
    }

    /** One turn of that loop: the notices for `room`, then `socket.leave`. */
    method LeaveRoom(s: Id, room: Id)
      modifies this`adapter, this`outbox
      ensures adapter == Del(old(adapter), s, room)
      ensures outbox == old(outbox) + PeerNotices(old(adapter), Teardown, s, Members(old(adapter), room))
    {
      NotifyPeers(Teardown, s, Members(adapter, room));
      adapter := Del(adapter, s, room);
    }

    /** The `RELAY_SDP` listener: the description goes unchanged to the room
        named `peerID`, tagged with the sender's id. */
    method RelaySdp(s: Id, peerID: Id, sessionDescription: Blob)
      requires Valid()
      requires s in connected
      modifies this`outbox
      ensures outbox == old(outbox) + ToRoom(adapter, peerID, SessionDescription(s, sessionDescription))
    {
      outbox := outbox + ToRoom(adapter, peerID, SessionDescription(s, sessionDescription));
    }

    /** The `RELAY_ICE` listener: likewise for an ICE candidate. */
    method RelayIce(s: Id, peerID: Id, iceCandidate: Blob)
      requires Valid()
      requires s in connected
      modifies this`outbox
      ensures outbox == old(outbox) + ToRoom(adapter, peerID, IceCandidate(s, iceCandidate))
    {
      outbox := outbox + ToRoom(adapter, peerID, IceCandidate(s, iceCandidate));
    }

    /** A connection closes. server.js listens for 'disconnection', an event
        socket.io never emits, so no handler of server.js runs: socket.io
        alone takes the connection out of every room and forgets it. Nothing
        is sent; its peers are not told and the directory is not refreshed. */
    method Disconnect(s: Id)
      requires Valid()
      requires s in connected
      modifies this
      ensures Valid()
      ensures adapter == DelAll(old(adapter), s)
      ensures connected == Remove(old(connected), s)
      ensures outbox == old(outbox)
    {
      DisconnectKeepsConsistent(adapter, connected, s);
      adapter := DelAll(adapter, s);
      connected := Remove(connected, s);
    }

    /** The evidently intended disconnect: leaveRoom runs first (teardown
        notices to every peer and a directory refresh), then socket.io drops
        the connection. */
    method DisconnectWithLeave(s: Id)
      requires Valid()
      requires s in connected
      modifies this
      ensures Valid()
      ensures adapter == DelAll(DelEach(old(adapter), s, RoomsOf(old(adapter), s)), s)
      ensures connected == Remove(old(connected), s)
      ensures outbox == old(outbox) + LeaveNotices(old(adapter), s, RoomsOf(old(adapter), s))
        + Directory(DelEach(old(adapter), s, RoomsOf(old(adapter), s)), old(connected))
    {
      Leave(s);
      Disconnect(s);
    }

    /** The corrected leave: the same loop over every room except the
        connection's own-id room, so that `io.to(s)` still reaches it. */
    method LeaveKeepingOwnRoom(s: Id)
      requires Valid()
      requires s in connected
      modifies this
      ensures Valid()
      ensures connected == old(connected)
      ensures adapter == DelEach(old(adapter), s, Remove(RoomsOf(old(adapter), s), s))
      ensures outbox == old(outbox) + LeaveNotices(old(adapter), s, Remove(RoomsOf(old(adapter), s), s))
        + Directory(adapter, connected)
    {
      LeaveRooms(s, Remove(adapter.sids[s], s));
      ShareRoomsInfo();
    }
  }
}
