/** The in-memory room store that socket.io keeps for the default namespace
    and that server.js reads (`io.sockets.adapter.rooms`, `socket.rooms`) and
    changes (`socket.join`, `socket.leave`, the cleanup on disconnect).

    Two maps that mirror each other: `rooms` from a room to its members and
    `sids` from a connection to the rooms it is in, both JavaScript `Set`s kept
    in insertion order, so sequences without duplicates here; `keys` is the
    insertion order of the keys of `rooms` (what `rooms.keys()` yields). A
    room exists exactly while it has a member: removing the last member
    deletes the key. */
module RoomAdapter {
  import opened Sequences

  /** Connection ids and room names are both strings; every connection is
      also a member of the room named by its own id. */
  type Id = string

  datatype Adapter = Adapter(rooms: map<Id, seq<Id>>, keys: seq<Id>, sids: map<Id, seq<Id>>)

  const Empty := Adapter(map[], [], map[])

  /** `Array.from(rooms.get(r) || [])`. */
  function Members(a: Adapter, r: Id): seq<Id> {
    if r in a.rooms then a.rooms[r] else []
  }

  /** `socket.rooms.has(r)` for connection `c`. */
  predicate Joined(a: Adapter, c: Id, r: Id) {
    c in a.sids && r in a.sids[c]
  }

  /** The adapter's invariant: key order lists exactly the rooms, no room is
      empty, no list repeats, and the two maps agree on who is where. */
  ghost predicate Valid(a: Adapter) {
    && NoDup(a.keys)
    && (forall r :: r in a.keys <==> r in a.rooms)
    && (forall r | r in a.rooms :: a.rooms[r] != [] && NoDup(a.rooms[r]))
    && (forall c | c in a.sids :: NoDup(a.sids[c]))
    && (forall c, r :: c in Members(a, r) <==> Joined(a, c, r))
  }

  /** `addAll(id, {r})`: puts connection `id` into room `r`, creating the room
      (at the end of the key order) and the connection's entry if absent. */
  function AddAll(a: Adapter, id: Id, r: Id): Adapter {
    Adapter(
      a.rooms[r := AddUnique(Members(a, r), id)],
      if r in a.rooms then a.keys else a.keys + [r],
      a.sids[id := AddUnique(if id in a.sids then a.sids[id] else [], r)])
  }

  /** `del(id, r)`: takes connection `id` out of room `r` and deletes the room
      once it is empty; a room or connection that is absent is left alone. */
  function Del(a: Adapter, id: Id, r: Id): Adapter {
    var m := Remove(Members(a, r), id);
    Adapter(
      if r !in a.rooms then a.rooms else if m == [] then a.rooms - {r} else a.rooms[r := m],
      if r in a.rooms && m == [] then Remove(a.keys, r) else a.keys,
      if id in a.sids then a.sids[id := Remove(a.sids[id], r)] else a.sids)
  }

  /** `del(id, r)` for each room of `rs` in turn. */
  function DelEach(a: Adapter, id: Id, rs: seq<Id>): Adapter
    decreases |rs|
  {
    if rs == [] then a else Del(DelEach(a, id, rs[..|rs| - 1]), id, rs[|rs| - 1])
  }

  /** `delAll(id)`, run by socket.io when a connection closes: leaves every
      room the connection is in, then forgets the connection. */
  function DelAll(a: Adapter, id: Id): Adapter {
    if id !in a.sids then a
    else
      var b := DelEach(a, id, a.sids[id]);
      b.(sids := b.sids - {id})
  }

  lemma AddAllEffect(a: Adapter, id: Id, r: Id)
    requires Valid(a)
    ensures var b := AddAll(a, id, r);
      && Valid(b)
      && Joined(b, id, r)
      && b.sids[id] == AddUnique(if id in a.sids then a.sids[id] else [], r)
      && (forall x :: Members(b, x) == if x == r then AddUnique(Members(a, r), id) else Members(a, x))
      && b.sids.Keys == a.sids.Keys + {id}
      && (forall c | c in a.sids && c != id :: b.sids[c] == a.sids[c])
      && (r !in a.rooms ==> b.keys == a.keys + [r])
  {
    var b := AddAll(a, id, r);
    assert r !in a.rooms ==> r !in a.keys;
    assert NoDup(b.keys) by {
      if r !in a.rooms {
        forall i, j | 0 <= i < j < |b.keys| ensures b.keys[i] != b.keys[j] {
          if j == |a.keys| {
            assert b.keys[i] == a.keys[i];
          } else {
            assert b.keys[i] == a.keys[i] && b.keys[j] == a.keys[j];
          }
        }
      }
    }
    forall c, x ensures c in Members(b, x) <==> Joined(b, c, x) {
      assert c in Members(a, x) <==> Joined(a, c, x);
      if c == id {
        assert r in b.sids[id];
        assert x != r ==> (x in b.sids[id] <==> Joined(a, id, x));
      } else {
        assert Joined(b, c, x) == Joined(a, c, x);
      }
    }
  }

  lemma DelEffect(a: Adapter, id: Id, r: Id)
    requires Valid(a)
    ensures var b := Del(a, id, r);
      && Valid(b)
      && (forall x :: Members(b, x) == if x == r then Remove(Members(a, r), id) else Members(a, x))
      && b.sids.Keys == a.sids.Keys
      && (forall c | c in a.sids && c != id :: b.sids[c] == a.sids[c])
      && (id in a.sids ==> b.sids[id] == Remove(a.sids[id], r))
  {
    var b := Del(a, id, r);
    var m := Remove(Members(a, r), id);
    if r in a.rooms {
      RemoveNoDup(a.rooms[r], id);
      if m == [] {
        RemoveNoDup(a.keys, r);
      }
    }
    if id in a.sids {
      RemoveNoDup(a.sids[id], r);
    }
    assert forall x :: Members(b, x) == if x == r then m else Members(a, x);
    forall c, x ensures c in Members(b, x) <==> Joined(b, c, x) {
      assert c in Members(a, x) <==> Joined(a, c, x);
    }
  }

  lemma {:induction false} DelEachEffect(a: Adapter, id: Id, rs: seq<Id>)
    requires Valid(a)
    ensures var b := DelEach(a, id, rs);
      && Valid(b)
      && (forall x :: Members(b, x) == if x in rs then Remove(Members(a, x), id) else Members(a, x))
      && b.sids.Keys == a.sids.Keys
      && (forall c | c in a.sids && c != id :: b.sids[c] == a.sids[c])
      && (id in a.sids ==> forall x :: x in b.sids[id] <==> x in a.sids[id] && x !in rs)
    decreases |rs|
  {
    if rs != [] {
      var init, last := rs[..|rs| - 1], rs[|rs| - 1];
      assert rs == init + [last];
      var b0 := DelEach(a, id, init);
      DelEachEffect(a, id, init);
      DelEffect(b0, id, last);
      forall x ensures Members(DelEach(a, id, rs), x) == if x in rs then Remove(Members(a, x), id) else Members(a, x) {
        if x == last && x in init {
          RemoveAbsent(Remove(Members(a, x), id), id);
        }
      }
    }
  }

  lemma DelAllEffect(a: Adapter, id: Id)
    requires Valid(a)
    ensures var b := DelAll(a, id);
      && Valid(b)
      && (forall x :: Members(b, x) == Remove(Members(a, x), id))
      && b.sids.Keys == a.sids.Keys - {id}
      && (forall c | c in b.sids :: b.sids[c] == a.sids[c])
  {
    if id in a.sids {
      var rs := a.sids[id];
      var b := DelEach(a, id, rs);
      DelEachEffect(a, id, rs);
      forall x | x !in rs ensures Remove(Members(a, x), id) == Members(a, x) {
        assert !Joined(a, id, x);
        RemoveAbsent(Members(a, x), id);
      }
      var b' := b.(sids := b.sids - {id});
      assert forall x :: Members(b', x) == Members(b, x);
      forall c, x ensures c in Members(b', x) <==> Joined(b', c, x) {
        assert c in Members(b, x) <==> Joined(b, c, x);
      }
    } else {
      forall x ensures Remove(Members(a, x), id) == Members(a, x) {
        RemoveAbsent(Members(a, x), id);
      }
    }
  }
}
