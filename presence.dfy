/**
  The per-topic presence counter of the topic selector: on every snapshot of
  the open rooms it rebuilds, for the signed-in observer, a map from catalog
  topic id to the number of people listed in other users' rooms on that topic
  (components/videochat/TopicSelector.js).
 */
module Presence {
  import opened Wrappers
  import opened Seqs
  import Catalog

  /** An opaque user id, as issued by the identity provider. */
  type Identity = string

  datatype Status = Waiting | Active | Closed

  /** A stored room record; every field but the status may be absent. */
  datatype Room = Room(
    topic: Option<string>,
    status: Status,
    createdBy: Option<Identity>,
    participants: Option<seq<Identity>>)

  /** The room listener subscribes only to rooms in one of these statuses. */
  predicate IsOpen(s: Status)
  {
    s == Waiting || s == Active
  }

  /** The subscription query: the open rooms of the collection, in collection order. */
  function OpenRooms(rooms: seq<Room>): (r: seq<Room>)
    ensures forall i :: 0 <= i < |r| ==> IsOpen(r[i].status)
    ensures forall x :: x in r <==> x in rooms && IsOpen(x.status)
    ensures multiset(r) <= multiset(rooms)
  {
    if rooms == [] then []
    else
      assert rooms == [rooms[0]] + rooms[1..];
      (if IsOpen(rooms[0].status) then [rooms[0]] else []) + OpenRooms(rooms[1..])
  }

  /** The query keeps every open room as often as the collection holds it, drops every closed one, and keeps the order. */
  lemma {:induction false} OpenRoomsExact(rooms: seq<Room>)
    ensures forall x :: multiset(OpenRooms(rooms))[x] == if IsOpen(x.status) then multiset(rooms)[x] else 0
    ensures IsSubsequence(OpenRooms(rooms), rooms)
    decreases |rooms|
  {
    if rooms != [] {
      var rest := rooms[1..];
      OpenRoomsExact(rest);
      assert rooms == [rooms[0]] + rest;
      if IsOpen(rooms[0].status) {
        assert OpenRooms(rooms) == [rooms[0]] + OpenRooms(rest);
        assert OpenRooms(rooms)[1..] == OpenRooms(rest);
      } else {
        assert OpenRooms(rooms) == OpenRooms(rest);
        var r := OpenRooms(rest);
        if r != [] {
          assert r[0] in multiset(r);
          assert IsOpen(r[0].status);
        }
      }
    }
  }

  /** The room was created by the observer; a room without a creator is nobody's. */
  predicate IsOwn(uid: Identity, room: Room)
  {
    room.createdBy == Some(uid)
  }

  /**
    The room's participants count towards topic t: the room is someone else's,
    its topic is t (a non-empty id) and it has a participant list at all.
   */
  predicate Counted(uid: Identity, room: Room, t: string)
  {
    !IsOwn(uid, room) && room.topic == Some(t) && t != "" && room.participants.Some?
  }

  /** What room adds to the count of topic t: the length of its participant list when counted. */
  function Contribution(uid: Identity, room: Room, t: string): (n: nat)
    ensures n > 0 ==> Counted(uid, room, t)
    ensures Counted(uid, room, t) ==> n == |room.participants.value|
  {
    if Counted(uid, room, t) then |room.participants.value| else 0
  }

  /** Reference count for topic t over a snapshot: the contributions of its rooms. */
  function TopicTotal(uid: Identity, docs: seq<Room>, t: string): (n: nat)
  {
    if docs == [] then 0
    else TopicTotal(uid, docs[..|docs| - 1], t) + Contribution(uid, docs[|docs| - 1], t)
  }

  /** The counts the listener should publish for a snapshot: one entry per catalog id. */
  function TopicCounts(uid: Identity, docs: seq<Room>): (counts: map<string, nat>)
  {
    map t | t in Catalog.TopicIds() :: TopicTotal(uid, docs, t)
  }

  /**
    One step of the count over the snapshot's documents: own rooms are skipped;
    a room whose topic is a key of the map and which has a participant list adds
    that list's length to its topic; anything else leaves the map as it is.
   */
  function CountRoom(uid: Identity, counts: map<string, nat>, room: Room): (r: map<string, nat>)
    ensures r.Keys == counts.Keys
    ensures forall t :: t in counts ==> r[t] == counts[t] + Contribution(uid, room, t)
  {
    if IsOwn(uid, room) then counts
    else if room.topic.Some? && room.topic.value != "" && room.topic.value in counts then
      if room.participants.Some? then
        counts[room.topic.value := counts[room.topic.value] + |room.participants.value|]
      else counts
    else counts
  }

  /** The initial map of the snapshot callback: every catalog topic at zero, nothing else. */
  method ZeroCounts() returns (topicCounts: map<string, nat>)
    ensures topicCounts.Keys == Catalog.TopicIds()
    ensures forall t :: t in topicCounts ==> topicCounts[t] == 0
  {
    topicCounts := map[];
    var i := 0;
    while i < |Catalog.Topics|
      invariant 0 <= i <= |Catalog.Topics|
      invariant topicCounts.Keys == set j | 0 <= j < i :: Catalog.Topics[j].id
      invariant forall t :: t in topicCounts ==> topicCounts[t] == 0
    {
      topicCounts := topicCounts[Catalog.Topics[i].id := 0];
      i := i + 1;
    }
  }

  /**
    The snapshot callback: start every catalog topic at zero, then fold the
    documents into the map one by one.
   */
  method OnSnapshot(uid: Identity, docs: seq<Room>) returns (topicCounts: map<string, nat>)
    ensures topicCounts.Keys == Catalog.TopicIds()
    ensures forall t :: t in topicCounts ==> topicCounts[t] == TopicTotal(uid, docs, t)
    ensures topicCounts == TopicCounts(uid, docs)
  {
    topicCounts := ZeroCounts();

    var k := 0;
    while k < |docs|
      invariant 0 <= k <= |docs|
      invariant topicCounts.Keys == Catalog.TopicIds()
      invariant forall t :: t in topicCounts ==> topicCounts[t] == TopicTotal(uid, docs[..k], t)
    {
      topicCounts := CountRoom(uid, topicCounts, docs[k]);
      assert docs[..k + 1][..k] == docs[..k];
      k := k + 1;
    }
    assert docs[..|docs|] == docs;
  }

  // ---------------------------------------------------------------------------
  // Properties of the reference count

  /** The count of a concatenation is the sum of the counts of its parts. */
  lemma {:induction false} TopicTotalConcat(uid: Identity, a: seq<Room>, b: seq<Room>, t: string)
    ensures TopicTotal(uid, a + b, t) == TopicTotal(uid, a, t) + TopicTotal(uid, b, t)
    decreases |b|
  {
    if b == [] {
      assert a + b == a;
    } else {
      var b' := b[..|b| - 1];
      assert (a + b)[..|a + b| - 1] == a + b';
      TopicTotalConcat(uid, a, b', t);
    }
  }

  /** A single room inserted anywhere adds exactly its own contribution. */
  lemma TopicTotalInsert(uid: Identity, a: seq<Room>, room: Room, b: seq<Room>, t: string)
    ensures TopicTotal(uid, a + [room] + b, t) == TopicTotal(uid, a + b, t) + Contribution(uid, room, t)
  {
    TopicTotalConcat(uid, a + [room], b, t);
    TopicTotalConcat(uid, a, [room], t);
    TopicTotalConcat(uid, a, b, t);
    assert ([] + [room]) == [room];
    assert [room][..0] == [];
  }

  /** The count for a topic does not depend on the order of the snapshot's documents. */
  lemma {:induction false} TopicTotalPermutation(uid: Identity, a: seq<Room>, b: seq<Room>, t: string)
    requires multiset(a) == multiset(b)
    ensures TopicTotal(uid, a, t) == TopicTotal(uid, b, t)
    decreases |b|
  {
    if b != [] {
      var x := b[|b| - 1];
      var b' := b[..|b| - 1];
      assert b == b' + [x];
      assert x in multiset(a);
      var i :| 0 <= i < |a| && a[i] == x;
      var a' := a[..i] + a[i + 1..];
      assert a == a[..i] + [x] + a[i + 1..];
      assert multiset(a) == multiset(a[..i]) + multiset([x]) + multiset(a[i + 1..]);
      assert multiset(b) == multiset(b') + multiset([x]);
      assert multiset(a') == multiset(a) - multiset([x]);
      assert multiset(b') == multiset(b) - multiset([x]);
      TopicTotalPermutation(uid, a', b', t);
      TopicTotalInsert(uid, a[..i], x, a[i + 1..], t);
    } else {
      assert |a| == |multiset(a)|;
    }
  }

  /** Reordering the snapshot yields the same count map. */
  lemma CountsPermutation(uid: Identity, a: seq<Room>, b: seq<Room>)
    requires multiset(a) == multiset(b)
    ensures TopicCounts(uid, a) == TopicCounts(uid, b)
  {
    forall t | t in Catalog.TopicIds()
      ensures TopicTotal(uid, a, t) == TopicTotal(uid, b, t)
    {
      TopicTotalPermutation(uid, a, b, t);
    }
  }

  /** A room that adds nothing to any count: the observer's own, without a catalog topic, or without a participant list. */
  predicate Ignored(uid: Identity, room: Room)
  {
    IsOwn(uid, room) || room.topic.None? || room.topic.value !in Catalog.TopicIds() || room.participants.None?
  }

  /** An ignored room, wherever it stands in the snapshot, changes no count and adds no key. */
  lemma IgnoredRoomInvisible(uid: Identity, a: seq<Room>, room: Room, b: seq<Room>)
    requires Ignored(uid, room)
    ensures TopicCounts(uid, a + [room] + b) == TopicCounts(uid, a + b)
  {
    forall t | t in Catalog.TopicIds()
      ensures TopicTotal(uid, a + [room] + b, t) == TopicTotal(uid, a + b, t)
    {
      TopicTotalInsert(uid, a, room, b, t);
    }
  }

  /** Any other room adds its participant count to its own topic and to no other. */
  lemma CountedRoomAdds(uid: Identity, a: seq<Room>, room: Room, b: seq<Room>)
    requires !Ignored(uid, room)
    ensures var before := TopicCounts(uid, a + b);
      TopicCounts(uid, a + [room] + b)
        == before[room.topic.value := before[room.topic.value] + |room.participants.value|]
  {
    var topic, n := room.topic.value, |room.participants.value|;
    var before, after := TopicCounts(uid, a + b), TopicCounts(uid, a + [room] + b);
    assert topic in before;
    forall t | t in Catalog.TopicIds()
      ensures after[t] == before[topic := before[topic] + n][t]
    {
      TopicTotalInsert(uid, a, room, b, t);
      if t == topic {
        assert Counted(uid, room, t);
      }
    }
  }

  /** The rooms of a snapshot that the observer did not create. */
  function OthersRooms(uid: Identity, docs: seq<Room>): (r: seq<Room>)
    ensures forall i :: 0 <= i < |r| ==> !IsOwn(uid, r[i])
  {
    if docs == [] then []
    else
      var last := docs[|docs| - 1];
      OthersRooms(uid, docs[..|docs| - 1]) + (if IsOwn(uid, last) then [] else [last])
  }

  /** Dropping own rooms keeps every other room as often as the snapshot holds it. */
  lemma {:induction false} OthersRoomsExact(uid: Identity, docs: seq<Room>)
    ensures forall x :: multiset(OthersRooms(uid, docs))[x] == if IsOwn(uid, x) then 0 else multiset(docs)[x]
    decreases |docs|
  {
    if docs != [] {
      var init, last := docs[..|docs| - 1], docs[|docs| - 1];
      OthersRoomsExact(uid, init);
      assert docs == init + [last];
    }
  }

  /** Per topic: own rooms add nothing, so dropping them leaves the count unchanged. */
  lemma {:induction false} OwnRoomsExcludedAt(uid: Identity, docs: seq<Room>, t: string)
    ensures TopicTotal(uid, docs, t) == TopicTotal(uid, OthersRooms(uid, docs), t)
    decreases |docs|
  {
    if docs != [] {
      var init, last := docs[..|docs| - 1], docs[|docs| - 1];
      OwnRoomsExcludedAt(uid, init, t);
      var others := OthersRooms(uid, init);
      if !IsOwn(uid, last) {
        assert (others + [last])[..|others + [last]| - 1] == others;
      } else {
        assert others + [] == others;
      }
    }
  }

  /** The counts never include a room created by the observer. */
  lemma OwnRoomsExcluded(uid: Identity, docs: seq<Room>)
    ensures TopicCounts(uid, docs) == TopicCounts(uid, OthersRooms(uid, docs))
  {
    forall t | t in Catalog.TopicIds()
      ensures TopicTotal(uid, docs, t) == TopicTotal(uid, OthersRooms(uid, docs), t)
    {
      OwnRoomsExcludedAt(uid, docs, t);
    }
  }

  /** The query distributes over concatenation. */
  lemma {:induction false} OpenRoomsConcat(a: seq<Room>, b: seq<Room>)
    ensures OpenRooms(a + b) == OpenRooms(a) + OpenRooms(b)
    decreases |a|
  {
    if a != [] {
      assert (a + b)[1..] == a[1..] + b;
      OpenRoomsConcat(a[1..], b);
    } else {
      assert a + b == b;
    }
  }

  /** A closed room anywhere in the collection never reaches the counts. */
  lemma ClosedRoomInvisible(uid: Identity, a: seq<Room>, room: Room, b: seq<Room>)
    requires room.status == Closed
    ensures TopicCounts(uid, OpenRooms(a + [room] + b)) == TopicCounts(uid, OpenRooms(a + b))
  {
    OpenRoomsConcat(a + [room], b);
    OpenRoomsConcat(a, [room]);
    OpenRoomsConcat(a, b);
    assert OpenRooms([room]) == [];
    assert OpenRooms(a) + [] == OpenRooms(a);
  }

  /** The people listed in other users' rooms on topic t, front to back. */
  function Occupants(uid: Identity, docs: seq<Room>, t: string): (people: seq<Identity>)
  {
    if docs == [] then []
    else
      (if Counted(uid, docs[0], t) then docs[0].participants.value else [])
      + Occupants(uid, docs[1..], t)
  }

  /** The count for a topic is the number of entries in the occupant list of others' rooms on it. */
  lemma {:induction false} CountIsOccupantLength(uid: Identity, docs: seq<Room>, t: string)
    ensures TopicTotal(uid, docs, t) == |Occupants(uid, docs, t)|
    decreases |docs|
  {
    if docs != [] {
      CountIsOccupantLength(uid, docs[1..], t);
      TopicTotalInsert(uid, [], docs[0], docs[1..], t);
      assert [] + [docs[0]] + docs[1..] == docs;
      assert [] + docs[1..] == docs[1..];
    }
  }

  /** Two observers see the same room differently: its creator does not count it, anyone else does. */
  lemma NewWaitingRoomScenario(creator: Identity, other: Identity)
    requires creator != other
    ensures var r1 := Room(Some("technology"), Waiting, Some(creator), Some([creator]));
      && "technology" in TopicCounts(creator, OpenRooms([r1]))
      && TopicCounts(creator, OpenRooms([r1]))["technology"] == 0
      && TopicCounts(other, OpenRooms([r1]))["technology"] == 1
  {
    assert Catalog.Topics[1].id == "technology";
    assert "technology" in Catalog.TopicIds();
    var r1 := Room(Some("technology"), Waiting, Some(creator), Some([creator]));
    assert OpenRooms([r1]) == [r1];
    assert [r1][..0] == [];
    assert TopicTotal(creator, [r1], "technology") == 0;
    assert TopicTotal(other, [r1], "technology") == 1;
  }
}
