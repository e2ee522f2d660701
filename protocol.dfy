/** The messages the relay sends, and what each connection event of server.js
    sends, as functions of the room store: the peer introductions of a join,
    the teardown notices of a leave, the relayed handshake messages and the
    room directory. Every `emit` becomes one or more deliveries, each naming
    the one connection that receives it. */
module Protocol {
  import opened Sequences
  import opened Uuid
  import opened RoomAdapter

  /** A handshake payload (session description or ICE candidate); the relay
      never looks inside it. */
  type Blob = string

  /** The server-to-client events (the `ACTIONS` names of server.js). */
  datatype Event =
    | AddPeer(peerID: Id, createOffer: bool)
    | RemovePeer(peerID: Id)
    | SessionDescription(peerID: Id, sessionDescription: Blob)
    | IceCandidate(peerID: Id, iceCandidate: Blob)
    | ShareRooms(rooms: seq<Id>)

  /** One event handed to one connection. */
  datatype Delivery = Delivery(to: Id, event: Event)

  /** `emit` to every connection of `targets`, in order. */
  function Fanout(targets: seq<Id>, e: Event): seq<Delivery> {
    seq(|targets|, i requires 0 <= i < |targets| => Delivery(targets[i], e))
  }

  /** `io.to(x).emit(e)`: socket.io addresses the ROOM named `x`, so the event
      reaches every member of that room (for a connection id, normally the
      connection itself) and nobody when the room does not exist. */
  function ToRoom(a: Adapter, x: Id, e: Event): seq<Delivery> {
    Fanout(Members(a, x), e)
  }

  /** `socket.rooms` as an array: the rooms connection `c` is in, in the
      order it entered them (its own-id room first). */
  function RoomsOf(a: Adapter, c: Id): seq<Id> {
    if c in a.sids then a.sids[c] else []
  }

  // ---------------------------------------------------------------------
  // Peer notices: the `clients.forEach` loops of JOIN and leaveRoom.

  /** The two loops differ only in the event they send. */
  datatype Notice = Introduce | Teardown

  function NoticeFor(n: Notice, peer: Id, createOffer: bool): Event {
    match n
    case Introduce => AddPeer(peer, createOffer)
    case Teardown => RemovePeer(peer)
  }

  /** One turn of the loop for client `c`: `io.to(c)` is told about `s`,
      then `s` itself is told about `c` (and, on a join, to make the offer). */
  function PeerNotice(a: Adapter, n: Notice, s: Id, c: Id): seq<Delivery> {
    ToRoom(a, c, NoticeFor(n, s, false)) + [Delivery(s, NoticeFor(n, c, true))]
  }

  /** The whole loop over the snapshot `clients`. */
  function PeerNotices(a: Adapter, n: Notice, s: Id, clients: seq<Id>): seq<Delivery>
    decreases |clients|
  {
    if clients == [] then []
    else PeerNotices(a, n, s, clients[..|clients| - 1]) + PeerNotice(a, n, s, clients[|clients| - 1])
  }

  // ---------------------------------------------------------------------
  // JOIN

  /** The room store after `s` asks to join `r`: unchanged on a duplicate
      join (which includes asking for its own-id room), else `socket.join`. */
  function JoinAdapter(a: Adapter, s: Id, r: Id): Adapter {
    if Joined(a, s, r) then a else AddAll(a, s, r)
  }

  /** The `ADD_PEER` introductions of that join, computed from the member
      list taken before `s` is added. */
  function JoinIntroductions(a: Adapter, s: Id, r: Id): seq<Delivery> {
    if Joined(a, s, r) then [] else PeerNotices(a, Introduce, s, Members(a, r))
  }

  /** The connections `ids` join `r` one after another. */
  function JoinAllAdapter(a: Adapter, ids: seq<Id>, r: Id): Adapter
    decreases |ids|
  {
    if ids == [] then a
    else JoinAdapter(JoinAllAdapter(a, ids[..|ids| - 1], r), ids[|ids| - 1], r)
  }

  function JoinAllIntroductions(a: Adapter, ids: seq<Id>, r: Id): seq<Delivery>
    decreases |ids|
  {
    if ids == [] then []
    else
      var init := ids[..|ids| - 1];
      JoinAllIntroductions(a, init, r) + JoinIntroductions(JoinAllAdapter(a, init, r), ids[|ids| - 1], r)
  }

  // ---------------------------------------------------------------------
  // leaveRoom

  /** The `REMOVE_PEER` notices of leaveRoom for the rooms `rs` of `s`, in
      order: the member list of each room is read after `s` has already left
      the rooms before it. */
  function LeaveNotices(a: Adapter, s: Id, rs: seq<Id>): seq<Delivery>
    decreases |rs|
  {
    if rs == [] then []
    else
      var init := rs[..|rs| - 1];
      var b := DelEach(a, s, init);
      LeaveNotices(a, s, init) + PeerNotices(b, Teardown, s, Members(b, rs[|rs| - 1]))
  }

  // ---------------------------------------------------------------------
  // getClientRooms / shareRoomsInfo

  /** The keys that pass the `uuid` test, in their order. */
  function UuidRooms(keys: seq<Id>): (r: seq<Id>)
    ensures forall x :: x in r <==> x in keys && IsUuidV4(x)
    ensures NoDup(keys) ==> NoDup(r)
  {
    if keys == [] then []
    else
      var rest := UuidRooms(keys[1..]);
      assert NoDup(keys) ==> keys[0] !in keys[1..] && NoDup(keys[1..]) by {
        if NoDup(keys) {
          forall i, j | 0 <= i < j < |keys[1..]| ensures keys[1..][i] != keys[1..][j] {
            assert keys[1..][i] == keys[i + 1] && keys[1..][j] == keys[j + 1];
          }
        }
      }
      if IsUuidV4(keys[0]) then
        assert NoDup(keys) ==> NoDup([keys[0]] + rest) by {
          if NoDup(keys) {
            forall i, j | 0 <= i < j < |[keys[0]] + rest| ensures ([keys[0]] + rest)[i] != ([keys[0]] + rest)[j] {
              assert ([keys[0]] + rest)[j] == rest[j - 1];
              if i > 0 {
                assert ([keys[0]] + rest)[i] == rest[i - 1];
              }
            }
          }
        }
        [keys[0]] + rest
      else rest
  }

  /** `getClientRooms()`. */
  function ClientRooms(a: Adapter): seq<Id> {
    UuidRooms(a.keys)
  }

  /** `shareRoomsInfo()`: `io.emit` of the directory to every connection. */
  function Directory(a: Adapter, connected: seq<Id>): seq<Delivery> {
    Fanout(connected, ShareRooms(ClientRooms(a)))
  }

  // =====================================================================
  // Properties

  lemma FanoutMembership(targets: seq<Id>, e: Event)
    ensures |Fanout(targets, e)| == |targets|
    ensures forall d :: d in Fanout(targets, e) <==> d.to in targets && d.event == e
  {
    var f := Fanout(targets, e);
    forall d: Delivery | d.to in targets && d.event == e ensures d in f {
      var i :| 0 <= i < |targets| && targets[i] == d.to;
      assert f[i] == d;
    }
  }

  /** Relaying: the event reaches exactly the members of the room named by
      the target id, unchanged; nothing is delivered when no such room
      exists, and exactly one delivery when the room is the target's own. */
  lemma RelayDelivery(a: Adapter, peer: Id, e: Event)
    requires Valid(a)
    ensures forall d :: d in ToRoom(a, peer, e) <==> d.event == e && Joined(a, d.to, peer)
    ensures peer !in a.rooms ==> ToRoom(a, peer, e) == []
    ensures Members(a, peer) == [peer] ==> ToRoom(a, peer, e) == [Delivery(peer, e)]
  {
    FanoutMembership(Members(a, peer), e);
    if Members(a, peer) == [peer] {
      assert ToRoom(a, peer, e)[0] == Delivery(peer, e);
    }
  }

  /** Every client of the loop's snapshot gets its notice about `s`, on each
      member of the room named by the client, and `s` gets one about each
      client. */
  lemma {:induction false} PeerNoticesReach(a: Adapter, n: Notice, s: Id, clients: seq<Id>)
    ensures forall c | c in clients :: Delivery(s, NoticeFor(n, c, true)) in PeerNotices(a, n, s, clients)
    ensures forall c, m | c in clients && m in Members(a, c) ::
      Delivery(m, NoticeFor(n, s, false)) in PeerNotices(a, n, s, clients)
    decreases |clients|
  {
    if clients != [] {
      var init, last := clients[..|clients| - 1], clients[|clients| - 1];
      assert clients == init + [last];
      PeerNoticesReach(a, n, s, init);
      FanoutMembership(Members(a, last), NoticeFor(n, s, false));
    }
  }

  /** When every client's own-id room holds just that client, the loop
      sends exactly two events per client, in order: the client is told
      about `s` (not to make the offer), then `s` is told about the client
      (to make the offer). */
  lemma {:induction false} PeerNoticesPrivate(a: Adapter, n: Notice, s: Id, clients: seq<Id>)
    requires forall c | c in clients :: Members(a, c) == [c]
    ensures |PeerNotices(a, n, s, clients)| == 2 * |clients|
    ensures forall i | 0 <= i < |clients| ::
      && PeerNotices(a, n, s, clients)[2 * i] == Delivery(clients[i], NoticeFor(n, s, false))
      && PeerNotices(a, n, s, clients)[2 * i + 1] == Delivery(s, NoticeFor(n, clients[i], true))
    decreases |clients|
  {
    if clients != [] {
      var k := |clients| - 1;
      var init, last := clients[..k], clients[k];
      assert forall c | c in init :: c in clients;
      PeerNoticesPrivate(a, n, s, init);
      var p := PeerNotice(a, n, s, last);
      assert p == [Delivery(last, NoticeFor(n, s, false)), Delivery(s, NoticeFor(n, last, true))];
      var out := PeerNotices(a, n, s, clients);
      assert out == PeerNotices(a, n, s, init) + p;
      forall i | 0 <= i < |clients|
        ensures out[2 * i] == Delivery(clients[i], NoticeFor(n, s, false))
        ensures out[2 * i + 1] == Delivery(s, NoticeFor(n, clients[i], true))
      {
        if i < k {
          assert clients[i] == init[i];
        }
      }
    }
  }

  /** A join changes only the joined room: afterwards the joiner is in it
      (appended after the members it had), every other room is as before, no
      other connection's room list changes, and a room that was absent now
      holds the joiner alone and caused no introduction. */
  lemma JoinEffect(a: Adapter, s: Id, r: Id)
    requires Valid(a)
    requires s in a.sids
    ensures var b := JoinAdapter(a, s, r);
      && Valid(b)
      && Joined(b, s, r)
      && Members(b, r) == (if Joined(a, s, r) then Members(a, r) else Members(a, r) + [s])
      && b.sids[s] == (if Joined(a, s, r) then a.sids[s] else a.sids[s] + [r])
      && (forall x | x != r :: Members(b, x) == Members(a, x))
      && b.sids.Keys == a.sids.Keys
      && (forall c | c in a.sids && c != s :: b.sids[c] == a.sids[c])
    ensures Members(a, r) == [] ==> Members(JoinAdapter(a, s, r), r) == [s] && JoinIntroductions(a, s, r) == []
  {
    if !Joined(a, s, r) {
      var b := AddAll(a, s, r);
      assert JoinAdapter(a, s, r) == b;
      AddAllEffect(a, s, r);
      assert s !in Members(a, r);
    }
  }

  /** The joiner never hears about itself, and no member hears about
      itself: every introduction names a connection other than its
      receiver. The joiner is told about each member exactly once, asked to
      make the offer, and each member is told about the joiner once, asked
      not to (own-id rooms assumed to hold only their connection). */
  lemma JoinerNeverIntroducedToItself(a: Adapter, s: Id, r: Id)
    requires Valid(a)
    requires forall c | c in Members(a, r) :: Members(a, c) == [c]
    ensures forall d | d in JoinIntroductions(a, s, r) :: d.event.AddPeer? && d.to != d.event.peerID
    ensures !Joined(a, s, r) ==>
      && |JoinIntroductions(a, s, r)| == 2 * |Members(a, r)|
      && forall i | 0 <= i < |Members(a, r)| ::
        && JoinIntroductions(a, s, r)[2 * i] == Delivery(Members(a, r)[i], AddPeer(s, false))
        && JoinIntroductions(a, s, r)[2 * i + 1] == Delivery(s, AddPeer(Members(a, r)[i], true))
  {
    if !Joined(a, s, r) {
      var ms := Members(a, r);
      var out := JoinIntroductions(a, s, r);
      PeerNoticesPrivate(a, Introduce, s, ms);
      PeerNoticesShape(a, Introduce, s, ms);
      assert s !in ms;
      forall d | d in out ensures d.event.AddPeer? && d.to != d.event.peerID {
        if d.to == s && exists c | c in ms :: d.event == AddPeer(c, true) {
          var c :| c in ms && d.event == AddPeer(c, true);
        } else {
          var c :| c in ms && d.to in Members(a, c);
          assert Members(a, c) == [c];
        }
      }
    }
  }

  /** What one turn of either loop can send: the notice about `s` (to the
      members of some client's own-id room), or a notice about one of the
      clients, addressed to `s`, with createOffer set. */
  lemma {:induction false} PeerNoticesShape(a: Adapter, n: Notice, s: Id, clients: seq<Id>)
    ensures forall d | d in PeerNotices(a, n, s, clients) ::
      || (d.event == NoticeFor(n, s, false) && exists c | c in clients :: d.to in Members(a, c))
      || (d.to == s && exists c | c in clients :: d.event == NoticeFor(n, c, true))
    decreases |clients|
  {
    if clients != [] {
      var init, last := clients[..|clients| - 1], clients[|clients| - 1];
      PeerNoticesShape(a, n, s, init);
      FanoutMembership(Members(a, last), NoticeFor(n, s, false));
      forall d | d in PeerNotices(a, n, s, clients)
        ensures || (d.event == NoticeFor(n, s, false) && exists c | c in clients :: d.to in Members(a, c))
                || (d.to == s && exists c | c in clients :: d.event == NoticeFor(n, c, true))
      {
        if d in PeerNotices(a, n, s, init) {
          if d.to == s && exists c | c in init :: d.event == NoticeFor(n, c, true) {
            var c :| c in init && d.event == NoticeFor(n, c, true);
            assert c in clients;
          } else {
            var c :| c in init && d.to in Members(a, c);
            assert c in clients;
          }
        } else if d in ToRoom(a, last, NoticeFor(n, s, false)) {
          assert d.to in Members(a, last);
        }
      }
    }
  }

  /** Without any assumption on the own-id rooms: every introduction is an
      `ADD_PEER`; each one that asks for the offer goes to the joiner and
      names a member of the room other than the joiner; each other one names
      the joiner. */
  lemma JoinOffersGoToJoiner(a: Adapter, s: Id, r: Id)
    requires Valid(a)
    ensures forall d | d in JoinIntroductions(a, s, r) ::
      && d.event.AddPeer?
      && (d.event.createOffer ==> d.to == s && d.event.peerID != s && Joined(a, d.event.peerID, r))
      && (!d.event.createOffer ==> d.event.peerID == s)
  {
    if !Joined(a, s, r) {
      PeerNoticesShape(a, Introduce, s, Members(a, r));
    }
  }

  /** The case the assumption of JoinerNeverIntroducedToItself excludes:
      "S" has joined the room named by connection "C", which is also in "R".
      When "S" joins "R", the notice about "S" sent to room "C" reaches "S"
      itself, so the joiner is introduced to itself. */
  lemma SelfIntroductionScenario()
    ensures Delivery("S", AddPeer("S", false)) in JoinIntroductions(SelfIntroductionState(), "S", "R")
  {
    var a := SelfIntroductionState();
    SelfIntroductionStateMembers();
    assert PeerNotices(a, Introduce, "S", ["C"]) == PeerNotices(a, Introduce, "S", []) + PeerNotice(a, Introduce, "S", "C");
    assert ToRoom(a, "C", AddPeer("S", false))[1] == Delivery("S", AddPeer("S", false));
  }

  /** "C" and "S" connect, "C" joins "R", then "S" joins the room "C". */
  function SelfIntroductionState(): Adapter {
    AddAll(AddAll(AddAll(AddAll(Empty, "C", "C"), "S", "S"), "C", "R"), "S", "C")
  }

  lemma SelfIntroductionStateMembers()
    ensures var a := SelfIntroductionState();
      Members(a, "R") == ["C"] && Members(a, "C") == ["C", "S"] && !Joined(a, "S", "R")
  {
    var a1 := AddAll(Empty, "C", "C");
    assert [] + ["C"] == ["C"];
    assert Members(a1, "C") == ["C"] && RoomsOf(a1, "C") == ["C"];
    assert "R" !in a1.rooms && "S" !in a1.sids;
    var a2 := AddAll(a1, "S", "S");
    assert [] + ["S"] == ["S"];
    assert Members(a2, "C") == ["C"] && RoomsOf(a2, "S") == ["S"];
    assert "R" !in a2.rooms;
    var a3 := AddAll(a2, "C", "R");
    assert Members(a3, "R") == ["C"] && Members(a3, "C") == ["C"] && RoomsOf(a3, "S") == ["S"];
    assert ["C"] + ["S"] == ["C", "S"];
  }

  /** N connections joining a fresh room one after another: each finds the
      earlier ones, so the room ends with all of them in join order and
      no other room changes. */
  lemma {:induction false} SequentialJoinsState(a: Adapter, ids: seq<Id>, r: Id)
    requires Valid(a)
    requires NoDup(ids)
    requires forall c | c in ids :: c in a.sids
    requires r !in a.rooms
    ensures var b := JoinAllAdapter(a, ids, r);
      && Valid(b)
      && b.sids.Keys == a.sids.Keys
      && Members(b, r) == ids
      && (forall x | x != r :: Members(b, x) == Members(a, x))
    decreases |ids|
  {
    if ids != [] {
      var n := |ids|;
      var init, last := ids[..n - 1], ids[n - 1];
      assert ids == init + [last];
      NoDupInit(ids);
      assert forall c | c in init :: c in ids;
      SequentialJoinsState(a, init, r);
      JoinEffect(JoinAllAdapter(a, init, r), last, r);
    }
  }

  /** ... and N(N-1) introductions are sent in all, two per pair. */
  lemma {:induction false} SequentialJoins(a: Adapter, ids: seq<Id>, r: Id)
    requires Valid(a)
    requires NoDup(ids)
    requires forall c | c in ids :: c in a.sids && Members(a, c) == [c]
    requires r !in a.rooms && r !in ids
    ensures |JoinAllIntroductions(a, ids, r)| == |ids| * (|ids| - 1)
    ensures forall d | d in JoinAllIntroductions(a, ids, r) :: d.event.AddPeer?
    decreases |ids|
  {
    if ids != [] {
      var n := |ids|;
      var init, last := ids[..n - 1], ids[n - 1];
      assert ids == init + [last];
      NoDupInit(ids);
      SequentialJoins(a, init, r);
      SequentialJoinsState(a, init, r);
      var b0 := JoinAllAdapter(a, init, r);
      assert Members(b0, r) == init;
      assert last !in Members(b0, r);
      JoinerNeverIntroducedToItself(b0, last, r);
      assert |JoinIntroductions(b0, last, r)| == 2 * (n - 1);
      PairCount(n);
    }
  }

  /** (n-1)(n-2) introductions before the last join, 2(n-1) from it. */
  lemma PairCount(n: int)
    requires n >= 1
    ensures (n - 1) * (n - 2) + 2 * (n - 1) == n * (n - 1)
  {
  }

  /** After leaveRoom the connection is in no room at all, its own-id room
      included; every room loses it and nothing else (a room it was not in
      is untouched, a room it was the last member of is gone), and no other
      connection's room list changes. */
  lemma LeaveEffect(a: Adapter, s: Id)
    requires Valid(a)
    ensures var b := DelEach(a, s, RoomsOf(a, s));
      && Valid(b)
      && RoomsOf(b, s) == []
      && (forall x :: s !in Members(b, x))
      && (forall x :: Members(b, x) == Remove(Members(a, x), s))
      && (forall x | Members(a, x) == [s] :: x !in b.rooms)
      && b.sids.Keys == a.sids.Keys
      && (forall c | c != s :: RoomsOf(b, c) == RoomsOf(a, c))
  {
    var rs := RoomsOf(a, s);
    var b := DelEach(a, s, rs);
    DelEachEffect(a, s, rs);
    forall x | x !in rs ensures Remove(Members(a, x), s) == Members(a, x) {
      assert !Joined(a, s, x);
      RemoveAbsent(Members(a, x), s);
    }
    NoElementIsEmpty(RoomsOf(b, s));
  }

  /** Leave symmetry: for every room left, the leaver is told to remove
      every member it found there (itself included, as written), and every
      other member reachable through its own-id room is told to remove the
      leaver. */
  lemma LeaveNoticesCoverPeers(a: Adapter, s: Id)
    requires Valid(a)
    ensures forall r, c | r in RoomsOf(a, s) && c in Members(a, r) ::
      Delivery(s, RemovePeer(c)) in LeaveNotices(a, s, RoomsOf(a, s))
    ensures forall r, c | r in RoomsOf(a, s) && c in Members(a, r) && c != s && c in Members(a, c) ::
      Delivery(c, RemovePeer(s)) in LeaveNotices(a, s, RoomsOf(a, s))
  {
    LeaveNoticesPrefix(a, s, RoomsOf(a, s));
  }

  lemma {:induction false} LeaveNoticesPrefix(a: Adapter, s: Id, rs: seq<Id>)
    requires Valid(a)
    requires NoDup(rs)
    ensures forall r, c | r in rs && c in Members(a, r) ::
      Delivery(s, RemovePeer(c)) in LeaveNotices(a, s, rs)
    ensures forall r, c | r in rs && c in Members(a, r) && c != s && c in Members(a, c) ::
      Delivery(c, RemovePeer(s)) in LeaveNotices(a, s, rs)
    decreases |rs|
  {
    if rs != [] {
      var init, last := rs[..|rs| - 1], rs[|rs| - 1];
      assert rs == init + [last];
      NoDupInit(rs);
      LeaveNoticesPrefix(a, s, init);
      var b := DelEach(a, s, init);
      DelEachEffect(a, s, init);
      assert Members(b, last) == Members(a, last);
      PeerNoticesReach(b, Teardown, s, Members(b, last));
      var out := LeaveNotices(a, s, rs);
      assert out == LeaveNotices(a, s, init) + PeerNotices(b, Teardown, s, Members(b, last));
      forall c | c in Members(a, last) && c != s && c in Members(a, c)
        ensures Delivery(c, RemovePeer(s)) in out
      {
        assert c in Members(b, c);
      }
    }
  }

  /** The filter keeps the key order: filtering a concatenation filters each
      part in turn, and a single name is kept exactly when it is a UUID.
      Together these fix the result of `UuidRooms` element by element. */
  lemma {:induction false} UuidRoomsAppend(xs: seq<Id>, ys: seq<Id>)
    ensures UuidRooms(xs + ys) == UuidRooms(xs) + UuidRooms(ys)
    decreases |xs|
  {
    if xs == [] {
      assert xs + ys == ys;
    } else {
      assert (xs + ys)[0] == xs[0];
      assert (xs + ys)[1..] == xs[1..] + ys;
      UuidRoomsAppend(xs[1..], ys);
    }
  }

  lemma UuidRoomsSingle(x: Id)
    ensures UuidRooms([x]) == if IsUuidV4(x) then [x] else []
  {
    assert [x][1..] == [];
  }

  /** Nothing else is sent by leaveRoom: every notice is a `REMOVE_PEER`,
      and one that names someone other than the leaver goes to the leaver
      and names a member of one of the rooms it left. */
  lemma {:induction false} LeaveNoticesShape(a: Adapter, s: Id, rs: seq<Id>)
    requires Valid(a)
    ensures forall d | d in LeaveNotices(a, s, rs) ::
      && d.event.RemovePeer?
      && (d.event.peerID != s ==> d.to == s && exists r | r in rs :: d.event.peerID in Members(a, r))
    decreases |rs|
  {
    if rs != [] {
      var init, last := rs[..|rs| - 1], rs[|rs| - 1];
      LeaveNoticesShape(a, s, init);
      var b := DelEach(a, s, init);
      DelEachEffect(a, s, init);
      var ms := Members(b, last);
      PeerNoticesShape(b, Teardown, s, ms);
      forall d | d in LeaveNotices(a, s, rs)
        ensures && d.event.RemovePeer?
                && (d.event.peerID != s ==> d.to == s && exists r | r in rs :: d.event.peerID in Members(a, r))
      {
        if d in LeaveNotices(a, s, init) {
          if d.event.peerID != s {
            var r :| r in init && d.event.peerID in Members(a, r);
            assert r in rs;
          }
        } else {
          assert d in PeerNotices(b, Teardown, s, ms);
          if d.event.peerID != s {
            var c :| c in ms && d.event == RemovePeer(c);
            assert c in Members(a, last);
          }
        }
      }
    }
  }

  /** Taking a name out of the key list takes it out of the filtered list,
      the order of the rest kept. */
  lemma {:induction false} UuidRoomsRemove(ks: seq<Id>, r: Id)
    ensures UuidRooms(Remove(ks, r)) == Remove(UuidRooms(ks), r)
    decreases |ks|
  {
    if ks != [] {
      UuidRoomsRemove(ks[1..], r);
      if ks[0] != r {
        assert Remove(ks, r) == [ks[0]] + Remove(ks[1..], r);
        assert ([ks[0]] + Remove(ks[1..], r))[1..] == Remove(ks[1..], r);
      }
    }
  }

  /** How the directory list changes when the store does. A join appends a
      newly created room at the end (if its name is a UUID) and otherwise
      leaves the list as it was; a leave drops the room it emptied and keeps
      the order of the rest. */
  lemma DirectoryOrder(a: Adapter, id: Id, r: Id)
    ensures ClientRooms(AddAll(a, id, r)) == ClientRooms(a) + (if r in a.rooms then [] else UuidRooms([r]))
    ensures ClientRooms(Del(a, id, r)) ==
      if r in a.rooms && Remove(Members(a, r), id) == [] then Remove(ClientRooms(a), r) else ClientRooms(a)
  {
    if r !in a.rooms {
      UuidRoomsAppend(a.keys, [r]);
    }
    UuidRoomsRemove(a.keys, r);
  }

  /** The directory lists exactly the rooms that have members and pass the
      `uuid` test, each once. */
  lemma ClientRoomsExact(a: Adapter)
    requires Valid(a)
    ensures forall x :: x in ClientRooms(a) <==> IsUuidV4(x) && Members(a, x) != []
    ensures NoDup(ClientRooms(a))
  {
  }

  /** Own-id rooms and names such as "not-a-uuid" are never listed, and a
      room that has lost its last member is not listed either. */
  lemma DirectoryHidesRooms(a: Adapter, x: Id)
    requires Valid(a)
    ensures IsSocketId(x) ==> x !in ClientRooms(a)
    ensures "not-a-uuid" !in ClientRooms(a)
    ensures x !in a.rooms ==> x !in ClientRooms(a)
  {
    ClientRoomsExact(a);
  }

  /** shareRoomsInfo reaches every connection, once each, with that list. */
  lemma DirectoryReachesAll(a: Adapter, connected: seq<Id>)
    ensures |Directory(a, connected)| == |connected|
    ensures forall d :: d in Directory(a, connected) <==> d.to in connected && d.event == ShareRooms(ClientRooms(a))
  {
    FanoutMembership(connected, ShareRooms(ClientRooms(a)));
  }

  /** As written, leaveRoom also leaves the connection's own-id room, so no
      later `io.to(s)` reaches `s`: introductions from later joiners and
      relayed handshake messages for it go nowhere. */
  lemma LeftConnectionUnreachable(a: Adapter, s: Id, e: Event)
    requires Valid(a)
    ensures forall d | d in ToRoom(DelEach(a, s, RoomsOf(a, s)), s, e) :: d.to != s
  {
    LeaveEffect(a, s);
    FanoutMembership(Members(DelEach(a, s, RoomsOf(a, s)), s), e);
  }

  /** Once the own-id room of `s` is gone, joining or leaving any other room,
      by `s` or by anyone, does not bring it back; only a join of the room
      named `s` does. */
  lemma LeftConnectionStaysUnreachable(a: Adapter, s: Id, c: Id, r: Id)
    requires Valid(a)
    requires Members(a, s) == []
    requires c in a.sids && r != s
    ensures Members(JoinAdapter(a, c, r), s) == []
    ensures Members(Del(a, c, r), s) == []
  {
    JoinEffect(a, c, r);
    DelEffect(a, c, r);
  }

  /** The corrected leave skips the own-id room: the connection leaves every
      room it joined and stays reachable through `io.to(s)`. */
  lemma LeaveKeepingOwnRoomEffect(a: Adapter, s: Id, e: Event)
    requires Valid(a)
    requires s in Members(a, s)
    ensures var b := DelEach(a, s, Remove(RoomsOf(a, s), s));
      && Valid(b)
      && Members(b, s) == Members(a, s)
      && (forall x | x != s :: s !in Members(b, x))
      && RoomsOf(b, s) == [s]
      && Delivery(s, e) in ToRoom(b, s, e)
  {
    var rs := Remove(RoomsOf(a, s), s);
    var b := DelEach(a, s, rs);
    DelEachEffect(a, s, rs);
    assert s !in rs;
    forall x | x != s ensures s !in Members(b, x) {
      if x !in rs {
        assert !Joined(a, s, x);
      }
    }
    var t := b.sids[s];
    assert forall x :: x in t <==> x == s;
    assert t == [s] by {
      assert t[0] in t;
      assert s !in t[1..];
      assert forall x | x in t[1..] :: x in t;
      NoElementIsEmpty(t[1..]);
      assert t == [t[0]] + t[1..];
    }
    FanoutMembership(Members(b, s), e);
  }

  /** The input that shows it: "A" and "B" are connected, "A" sends LEAVE and
      then joins "R", then "B" joins "R". "B" is told to call "A", but the
      notice meant for "A" is addressed to a room that no longer exists, so
      "A" hears nothing and the call is never set up. */
  lemma RejoinAfterLeaveScenario()
    ensures var a0 := AddAll(AddAll(Empty, "A", "A"), "B", "B");
      var a1 := DelEach(a0, "A", RoomsOf(a0, "A"));
      var a2 := JoinAdapter(a1, "A", "R");
      JoinIntroductions(a2, "B", "R") == [Delivery("B", AddPeer("A", true))]
  {
    var a0 := AddAll(AddAll(Empty, "A", "A"), "B", "B");
    assert RoomsOf(a0, "A") == ["A"];
    var a1 := DelEach(a0, "A", ["A"]);
    assert DelEach(a0, "A", ["A"]) == Del(a0, "A", "A");
    assert Remove(Members(a0, "A"), "A") == [];
    assert "A" !in a1.rooms;
    var a2 := JoinAdapter(a1, "A", "R");
    assert Members(a2, "R") == ["A"];
    assert !Joined(a2, "B", "R");
    assert Members(a2, "A") == [];
    assert PeerNotices(a2, Introduce, "B", ["A"]) == PeerNotices(a2, Introduce, "B", []) + PeerNotice(a2, Introduce, "B", "A");
  }

  /** The same input with the corrected leave: both sides are introduced. */
  lemma RejoinAfterCorrectedLeaveScenario()
    ensures var a0 := AddAll(AddAll(Empty, "A", "A"), "B", "B");
      var a1 := DelEach(a0, "A", Remove(RoomsOf(a0, "A"), "A"));
      var a2 := JoinAdapter(a1, "A", "R");
      JoinIntroductions(a2, "B", "R") == [Delivery("A", AddPeer("B", false)), Delivery("B", AddPeer("A", true))]
  {
    var a0 := AddAll(AddAll(Empty, "A", "A"), "B", "B");
    assert RoomsOf(a0, "A") == ["A"];
    assert Remove(["A"], "A") == [];
    var a2 := JoinAdapter(a0, "A", "R");
    assert Members(a2, "R") == ["A"];
    assert !Joined(a2, "B", "R");
    assert Members(a2, "A") == ["A"];
    assert PeerNotices(a2, Introduce, "B", ["A"]) == PeerNotices(a2, Introduce, "B", []) + PeerNotice(a2, Introduce, "B", "A");
  }
}
