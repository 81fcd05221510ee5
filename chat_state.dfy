/**
 * The room directory of the chat server as values: the presence table, the
 * room records, and what a garbage-collection pass and a `roomUpdate` do to
 * the ordered room array. The `ChatServer` class in module ChatSocket holds
 * this state and its handlers are proved to compute exactly these functions;
 * the lemmas here state what the functions guarantee.
 */
module ChatState {
  import opened Wrappers
  import opened JsArray

  type SocketId = string

  /** One value of `connectedUsers`: the user behind a socket and their status. */
  datatype Presence = Presence(id: int, name: string, status: string, isIdle: bool)

  /**
   * One element of `rooms`. `joinedUserId` is the property the connection
   * handler merges into the stored record when it re-attaches a user.
   */
  datatype Room = Room(name: string, userIds: seq<int>, starter: int, joinedUserId: Option<int>)

  /** The two operations `roomUpdate` understands. */
  datatype Operation = Add | Remove

  /** A pass over the rooms: what stays (in order) and what was collected (in order). */
  datatype Swept = Swept(kept: seq<Room>, removed: seq<Room>)

  /**
   * A `roomUpdate` call: the new rooms, the rooms it collected, and whether
   * the all-rooms pass ran into unbounded recursion (see UpdateEvery).
   */
  datatype Update = Update(rooms: seq<Room>, removed: seq<Room>, aborted: bool)

  /** `!roomName`: a missing name and the empty name both select every room. */
  predicate Falsy(name: Option<string>) {
    name.None? || name.value == ""
  }

  /** The user ids of all entries of `connectedUsers`. */
  function OnlineIds(users: map<SocketId, Presence>): set<int> {
    set k | k in users :: users[k].id
  }

  /** A room is collectible when it has no member, or none of its members is online. */
  predicate Collectible(room: Room, online: set<int>) {
    |room.userIds| == 0 || forall i :: 0 <= i < |room.userIds| ==> room.userIds[i] !in online
  }

  /** `rooms.findIndex(room => room.name === name)`, with None for -1. */
  function FindRoom(rooms: seq<Room>, name: string): (r: Option<nat>)
    ensures r.Some? ==> r.value < |rooms| && rooms[r.value].name == name
  {
    if |rooms| == 0 then None
    else if rooms[0].name == name then Some(0)
    else match FindRoom(rooms[1..], name)
      case None => None
      case Some(k) => Some(k + 1)
  }

  /** `findIndex` finds the first room with the name, and fails only when no room has it. */
  lemma {:induction false} FindRoomFirst(rooms: seq<Room>, name: string)
    ensures FindRoom(rooms, name).Some? ==>
      forall j :: 0 <= j < FindRoom(rooms, name).value ==> rooms[j].name != name
    ensures FindRoom(rooms, name).None? <==> forall j :: 0 <= j < |rooms| ==> rooms[j].name != name
    decreases |rooms|
  {
    if |rooms| > 0 && rooms[0].name != name {
      FindRoomFirst(rooms[1..], name);
      assert forall j :: 1 <= j < |rooms| ==> rooms[j] == rooms[1..][j - 1];
    }
  }

  /** Rooms appended at the end are found only when no earlier room has the name. */
  lemma {:induction false} FindRoomAppend(rooms: seq<Room>, extra: seq<Room>, name: string)
    ensures FindRoom(rooms, name).Some? ==> FindRoom(rooms + extra, name) == FindRoom(rooms, name)
    ensures FindRoom(rooms, name).None? && FindRoom(extra, name).Some? ==>
      FindRoom(rooms + extra, name) == Some(|rooms| + FindRoom(extra, name).value)
    ensures FindRoom(rooms, name).None? && FindRoom(extra, name).None? ==> FindRoom(rooms + extra, name).None?
    decreases |rooms|
  {
    if |rooms| == 0 {
      assert rooms + extra == extra;
    } else {
      assert (rooms + extra)[1..] == rooms[1..] + extra;
      FindRoomAppend(rooms[1..], extra, name);
    }
  }

  /** The lookup only looks at names: rooms with the same names give the same answer. */
  lemma {:induction false} FindRoomSameNames(a: seq<Room>, b: seq<Room>, name: string)
    requires |a| == |b| && forall j :: 0 <= j < |a| ==> a[j].name == b[j].name
    ensures FindRoom(a, name) == FindRoom(b, name)
    decreases |a|
  {
    if |a| > 0 && a[0].name != name {
      FindRoomSameNames(a[1..], b[1..], name);
    }
  }

  /**
   * One garbage-collection pass as the source runs it: `forEach` over the
   * live array with `splice(index, 1)` inside. After a collectible room is
   * spliced out, the next room moves into its slot while the iteration moves
   * on to the following index, so the moved room is kept without being
   * examined in this pass.
   */
  function Sweep(rooms: seq<Room>, online: set<int>): (r: Swept)
    ensures |r.kept| + |r.removed| == |rooms|
    decreases |rooms|
  {
    if |rooms| == 0 then Swept([], [])
    else if Collectible(rooms[0], online) then
      if |rooms| == 1 then Swept([], [rooms[0]])
      else
        var rest := Sweep(rooms[2..], online);
        Swept([rooms[1]] + rest.kept, [rooms[0]] + rest.removed)
    else
      var rest := Sweep(rooms[1..], online);
      Swept([rooms[0]] + rest.kept, rest.removed)
  }

  /** Replace the member list of the room at `k`. */
  function WithMembers(rooms: seq<Room>, k: nat, ids: seq<int>): (r: seq<Room>)
    requires k < |rooms|
    ensures |r| == |rooms| && r[k].userIds == ids && r[k].name == rooms[k].name
    ensures r[k] == rooms[k].(userIds := ids)
    ensures forall j :: 0 <= j < |rooms| && j != k ==> r[j] == rooms[j]
  {
    rooms[k := rooms[k].(userIds := ids)]
  }

  /**
   * `roomUpdate(op, name, userId)` for a truthy `name`: the first room with
   * that name gets `userId` pushed if absent (add), or loses its first
   * occurrence of `userId` followed by a garbage-collection pass (remove).
   * An unknown name changes nothing.
   */
  function UpdateNamed(rooms: seq<Room>, op: Operation, name: string, userId: int, online: set<int>): (r: Swept)
    ensures |r.kept| <= |rooms|
    ensures FindRoom(rooms, name).None? ==> r == Swept(rooms, [])
    ensures op == Add ==> r.removed == [] && |r.kept| == |rooms|
  {
    match FindRoom(rooms, name)
    case None => Swept(rooms, [])
    case Some(k) =>
      match op
      case Add => Swept(WithMembers(rooms, k, PushAbsent(rooms[k].userIds, userId)), [])
      case Remove => Sweep(WithMembers(rooms, k, RemoveFirst(rooms[k].userIds, userId)), online)
  }

  /**
   * What `op` on behalf of `userId` can still change in the rooms: for
   * `add`, the rooms that do not list the user yet; for `remove`, the rooms
   * themselves plus every occurrence of the user in a member list. A named
   * update either changes nothing or lowers it (UpdateNamedShrinks).
   */
  function Remaining(rooms: seq<Room>, op: Operation, userId: int): nat
    decreases |rooms|
  {
    if |rooms| == 0 then 0
    else RoomRemaining(rooms[0], op, userId) + Remaining(rooms[1..], op, userId)
  }

  /** The share of one room in `Remaining`. */
  function RoomRemaining(room: Room, op: Operation, userId: int): nat {
    match op
    case Add => if userId in room.userIds then 0 else 1
    case Remove => 1 + multiset(room.userIds)[userId]
  }

  /**
   * `roomUpdate(op, null, userId)` entered with the rooms `entry`: `forEach`
   * over the live array, updating each room by its name; `rooms` is the array
   * as it is now and `i` the `forEach` position. A removal's garbage
   * collection can shorten the array under the iteration, so rooms that
   * shift below `i` are not visited.
   *
   * The name "" is falsy, so visiting a room named "" runs the all-rooms
   * pass again, nested, on the current array. If the array is still `entry`,
   * the nested pass repeats this one step by step, reaches the same room and
   * nests again: the source recurses without end, and the model reports
   * `aborted`. Otherwise the array changed since `entry`, which lowered
   * `Remaining`, and the nested pass runs to its own end before this one
   * goes on.
   */
  function UpdateEvery(entry: seq<Room>, rooms: seq<Room>, op: Operation, userId: int, online: set<int>, i: nat): (r: Update)
    requires rooms == entry || Remaining(rooms, op, userId) < Remaining(entry, op, userId)
    ensures Remaining(r.rooms, op, userId) <= Remaining(rooms, op, userId)
    ensures |r.rooms| <= |rooms|
    ensures op == Add ==> r.removed == [] && |r.rooms| == |rooms|
    decreases Remaining(entry, op, userId), |rooms| - i
  {
    if i >= |rooms| then Update(rooms, [], false)
    else if rooms[i].name == "" then
      if rooms == entry then Update(rooms, [], true)
      else
        var nested := UpdateEvery(rooms, rooms, op, userId, online, 0);
        if nested.aborted then Update(nested.rooms, nested.removed, true)
        else
          var rest := UpdateEvery(entry, nested.rooms, op, userId, online, i + 1);
          Update(rest.rooms, nested.removed + rest.removed, rest.aborted)
    else
      var step := UpdateNamed(rooms, op, rooms[i].name, userId, online);
      UpdateNamedShrinks(rooms, op, rooms[i].name, userId, online);
      var rest := UpdateEvery(entry, step.kept, op, userId, online, i + 1);
      Update(rest.rooms, step.removed + rest.removed, rest.aborted)
  }

  /** `roomUpdate(op, name, userId)` in full. */
  function UpdateRooms(rooms: seq<Room>, op: Operation, name: Option<string>, userId: int, online: set<int>): (r: Update)
    ensures |r.rooms| <= |rooms|
    ensures r.aborted ==> Falsy(name)
    ensures !Falsy(name) && FindRoom(rooms, name.value).None? ==> r == Update(rooms, [], false)
  {
    if Falsy(name) then UpdateEvery(rooms, rooms, op, userId, online, 0)
    else
      var s := UpdateNamed(rooms, op, name.value, userId, online);
      Update(s.kept, s.removed, false)
  }

  /** Some room called `name` lists `v` as a member. */
  ghost predicate Hosts(rooms: seq<Room>, name: string, v: int) {
    exists j :: 0 <= j < |rooms| && rooms[j].name == name && v in rooms[j].userIds
  }

  /** Every room's member list is free of duplicates. */
  ghost predicate MembersDistinct(rooms: seq<Room>) {
    forall j :: 0 <= j < |rooms| ==> Distinct(rooms[j].userIds)
  }

  /** No two rooms share a name, and no name is empty. */
  ghost predicate NamesProper(rooms: seq<Room>) {
    (forall j :: 0 <= j < |rooms| ==> rooms[j].name != "")
    && forall i, j :: 0 <= i < j < |rooms| ==> rooms[i].name != rooms[j].name
  }

  // ---------------------------------------------------------------------
  // Garbage collection

  /** A pass neither loses nor invents rooms: kept and removed partition the input. */
  lemma {:induction false} SweepPartition(rooms: seq<Room>, online: set<int>)
    ensures multiset(Sweep(rooms, online).kept) + multiset(Sweep(rooms, online).removed) == multiset(rooms)
    decreases |rooms|
  {
    if |rooms| == 0 {
    } else if Collectible(rooms[0], online) {
      if |rooms| == 1 {
        assert Sweep(rooms, online) == Swept([], [rooms[0]]) && rooms == [rooms[0]];
      } else {
        SweepPartition(rooms[2..], online);
        SweepPartitionSplice(rooms, online);
      }
    } else {
      SweepPartition(rooms[1..], online);
      SweepPartitionKeep(rooms, online);
    }
  }

  /** The partition step for a spliced-out room and the room moved into its slot. */
  lemma SweepPartitionSplice(rooms: seq<Room>, online: set<int>)
    requires |rooms| > 1 && Collectible(rooms[0], online)
    requires multiset(Sweep(rooms[2..], online).kept) + multiset(Sweep(rooms[2..], online).removed) == multiset(rooms[2..])
    ensures multiset(Sweep(rooms, online).kept) + multiset(Sweep(rooms, online).removed) == multiset(rooms)
  {
    var rest := Sweep(rooms[2..], online);
    assert Sweep(rooms, online) == Swept([rooms[1]] + rest.kept, [rooms[0]] + rest.removed);
    SpliceCount(rooms, rest.kept, rest.removed);
  }

  /** Counting for SweepPartitionSplice, apart from the pass itself. */
  lemma SpliceCount(rooms: seq<Room>, restKept: seq<Room>, restRemoved: seq<Room>)
    requires |rooms| > 1 && multiset(restKept) + multiset(restRemoved) == multiset(rooms[2..])
    ensures multiset([rooms[1]] + restKept) + multiset([rooms[0]] + restRemoved) == multiset(rooms)
  {
    var a, b := rooms[0], rooms[1];
    assert multiset([b] + restKept) == multiset{b} + multiset(restKept);
    assert multiset([a] + restRemoved) == multiset{a} + multiset(restRemoved);
    assert multiset(rooms) == multiset{a} + multiset{b} + multiset(rooms[2..]) by {
      assert rooms == [a] + [b] + rooms[2..];
    }
  }

  /** The partition step for a room that is kept. */
  lemma SweepPartitionKeep(rooms: seq<Room>, online: set<int>)
    requires |rooms| > 0 && !Collectible(rooms[0], online)
    requires multiset(Sweep(rooms[1..], online).kept) + multiset(Sweep(rooms[1..], online).removed) == multiset(rooms[1..])
    ensures multiset(Sweep(rooms, online).kept) + multiset(Sweep(rooms, online).removed) == multiset(rooms)
  {
    var rest := Sweep(rooms[1..], online);
    var kept := [rooms[0]] + rest.kept;
    assert Sweep(rooms, online) == Swept(kept, rest.removed);
    var a := rooms[0];
    var tail, restKept, restRemoved := multiset(rooms[1..]), multiset(rest.kept), multiset(rest.removed);
    assert multiset(kept) == multiset{a} + restKept;
    assert multiset(rooms) == multiset{a} + tail by {
      assert rooms == [a] + rooms[1..];
    }
    assert restKept + restRemoved == tail;
  }

  /** Only collectible rooms are removed (and each has its files deleted). */
  lemma {:induction false} SweepRemovesOnlyCollectible(rooms: seq<Room>, online: set<int>)
    ensures forall x :: x in Sweep(rooms, online).removed ==> Collectible(x, online)
    decreases |rooms|
  {
    if |rooms| == 0 {
    } else if Collectible(rooms[0], online) {
      if |rooms| > 1 {
        SweepRemovesOnlyCollectible(rooms[2..], online);
      }
    } else {
      SweepRemovesOnlyCollectible(rooms[1..], online);
    }
  }

  /** A room that has an online member is never removed. */
  lemma SweepKeepsLiveRooms(rooms: seq<Room>, online: set<int>, room: Room)
    requires room in rooms && !Collectible(room, online)
    ensures room in Sweep(rooms, online).kept
  {
    var s := Sweep(rooms, online);
    SweepPartition(rooms, online);
    SweepRemovesOnlyCollectible(rooms, online);
    assert room in multiset(rooms);
    assert room !in s.removed;
    assert room in multiset(s.kept);
  }

  /** Surviving rooms keep their relative order. */
  lemma {:induction false} SweepKeepsOrder(rooms: seq<Room>, online: set<int>)
    ensures Subsequence(Sweep(rooms, online).kept, rooms)
    decreases |rooms|
  {
    var s := Sweep(rooms, online);
    if |rooms| == 0 {
    } else if Collectible(rooms[0], online) {
      if |rooms| > 1 {
        SweepKeepsOrder(rooms[2..], online);
        assert rooms[1..][1..] == rooms[2..];
        assert s.kept[1..] == Sweep(rooms[2..], online).kept;
        assert Subsequence(s.kept, rooms[1..]);
      }
    } else {
      SweepKeepsOrder(rooms[1..], online);
      assert s.kept[1..] == Sweep(rooms[1..], online).kept;
    }
  }

  /** The deleted rooms are listed in the order the pass met them. */
  lemma {:induction false} SweepRemovedInOrder(rooms: seq<Room>, online: set<int>)
    ensures Subsequence(Sweep(rooms, online).removed, rooms)
    decreases |rooms|
  {
    var s := Sweep(rooms, online);
    if |rooms| == 0 {
    } else if Collectible(rooms[0], online) {
      if |rooms| > 1 {
        SweepRemovedInOrder(rooms[2..], online);
        var rest := Sweep(rooms[2..], online).removed;
        assert s.removed[1..] == rest;
        SubsequenceSkip(rest, rooms[1..]);
        assert rooms[1..][1..] == rooms[2..];
      } else {
        assert s.removed[1..] == [];
      }
    } else {
      SweepRemovedInOrder(rooms[1..], online);
    }
  }

  /** A pass over rooms none of which is collectible changes nothing. */
  lemma {:induction false} SweepNothingCollectible(rooms: seq<Room>, online: set<int>)
    requires forall j :: 0 <= j < |rooms| ==> !Collectible(rooms[j], online)
    ensures Sweep(rooms, online) == Swept(rooms, [])
    decreases |rooms|
  {
    if |rooms| > 0 {
      SweepNothingCollectible(rooms[1..], online);
      assert rooms == [rooms[0]] + rooms[1..];
    }
  }

  /**
   * The skip in numbers: when every room is collectible, one pass removes
   * only every other room and leaves half of them (rounded down) listed.
   */
  lemma {:induction false} SweepAllCollectibleKeepsHalf(rooms: seq<Room>, online: set<int>)
    requires forall j :: 0 <= j < |rooms| ==> Collectible(rooms[j], online)
    ensures |Sweep(rooms, online).kept| == |rooms| / 2
    decreases |rooms|
  {
    if |rooms| > 1 {
      SweepAllCollectibleKeepsHalf(rooms[2..], online);
    }
  }

  /** Two abandoned rooms in a row: the second one survives the pass. */
  lemma SweepSkipsShiftedRoom(a: Room, b: Room, online: set<int>)
    requires Collectible(a, online) && Collectible(b, online)
    ensures Sweep([a, b], online) == Swept([b], [a])
  {
    assert [a, b][2..] == [];
  }

  // ---------------------------------------------------------------------
  // roomUpdate on one room

  /**
   * Adding to an existing room pushes the id only when absent, touches no
   * other room, keeps every name, and runs no garbage collection.
   */
  lemma UpdateNamedAdd(rooms: seq<Room>, name: string, userId: int, online: set<int>)
    requires FindRoom(rooms, name).Some?
    ensures var k := FindRoom(rooms, name).value;
      var r := UpdateNamed(rooms, Add, name, userId, online);
      && r.removed == []
      && |r.kept| == |rooms|
      && r.kept[k].userIds == PushAbsent(rooms[k].userIds, userId)
      && userId in r.kept[k].userIds
      && (forall j :: 0 <= j < |rooms| && j != k ==> r.kept[j] == rooms[j])
      && (forall j :: 0 <= j < |rooms| ==> r.kept[j].name == rooms[j].name)
  {
  }

  /** Repeated adds never create duplicates: the second add changes nothing. */
  lemma UpdateNamedAddIdempotent(rooms: seq<Room>, name: string, userId: int, online: set<int>)
    ensures var once := UpdateNamed(rooms, Add, name, userId, online).kept;
      UpdateNamed(once, Add, name, userId, online) == Swept(once, [])
  {
    var once := UpdateNamed(rooms, Add, name, userId, online).kept;
    match FindRoom(rooms, name)
    case None =>
    case Some(k) =>
      assert forall j :: 0 <= j < |rooms| ==> once[j].name == rooms[j].name;
      FindRoomSameNames(rooms, once, name);
      assert once[k := once[k].(userIds := once[k].userIds)] == once;
  }

  /**
   * Removing from an existing room takes out the first occurrence of the id
   * (others keep their order) and then always runs a collection pass, even
   * when the id was not a member.
   */
  lemma UpdateNamedRemove(rooms: seq<Room>, name: string, userId: int, online: set<int>)
    requires FindRoom(rooms, name).Some?
    ensures var k := FindRoom(rooms, name).value;
      var ids := rooms[k].userIds;
      && UpdateNamed(rooms, Remove, name, userId, online)
         == Sweep(WithMembers(rooms, k, RemoveFirst(ids, userId)), online)
      && (userId !in ids ==> UpdateNamed(rooms, Remove, name, userId, online) == Sweep(rooms, online))
  {
    var k := FindRoom(rooms, name).value;
    if userId !in rooms[k].userIds {
      assert WithMembers(rooms, k, rooms[k].userIds) == rooms;
    }
  }

  // ---------------------------------------------------------------------
  // Why the nested all-rooms passes end

  lemma {:induction false} RemainingAppend(a: seq<Room>, b: seq<Room>, op: Operation, userId: int)
    ensures Remaining(a + b, op, userId) == Remaining(a, op, userId) + Remaining(b, op, userId)
    decreases |a|
  {
    if |a| == 0 {
      assert a + b == b;
    } else {
      assert (a + b)[1..] == a[1..] + b;
      RemainingAppend(a[1..], b, op, userId);
    }
  }

  /** A collection pass only moves rooms between the kept and the removed list. */
  lemma {:induction false} SweepSplitsRemaining(rooms: seq<Room>, online: set<int>, op: Operation, userId: int)
    ensures var s := Sweep(rooms, online);
      Remaining(s.kept, op, userId) + Remaining(s.removed, op, userId) == Remaining(rooms, op, userId)
    decreases |rooms|
  {
    if |rooms| == 0 {
    } else if Collectible(rooms[0], online) {
      if |rooms| == 1 {
        assert Sweep(rooms, online) == Swept([], [rooms[0]]);
        assert rooms[1..] == [];
      } else {
        var rest := Sweep(rooms[2..], online);
        SweepSplitsRemaining(rooms[2..], online, op, userId);
        assert Sweep(rooms, online) == Swept([rooms[1]] + rest.kept, [rooms[0]] + rest.removed);
        assert ([rooms[1]] + rest.kept)[1..] == rest.kept;
        assert ([rooms[0]] + rest.removed)[1..] == rest.removed;
        assert rooms[1..][1..] == rooms[2..];
      }
    } else {
      var rest := Sweep(rooms[1..], online);
      SweepSplitsRemaining(rooms[1..], online, op, userId);
      assert Sweep(rooms, online) == Swept([rooms[0]] + rest.kept, rest.removed);
      assert ([rooms[0]] + rest.kept)[1..] == rest.kept;
    }
  }

  /** A collection pass that removes nothing keeps the array as it was. */
  lemma {:induction false} SweepWithoutRemovalKeepsAll(rooms: seq<Room>, online: set<int>)
    ensures Sweep(rooms, online).removed == [] ==> Sweep(rooms, online).kept == rooms
    decreases |rooms|
  {
    if |rooms| > 0 && !Collectible(rooms[0], online) {
      SweepWithoutRemovalKeepsAll(rooms[1..], online);
      assert rooms == [rooms[0]] + rooms[1..];
    }
  }

  /** Replacing one room's members changes `Remaining` by that room's share only. */
  lemma RemainingWithMembers(rooms: seq<Room>, k: nat, ids: seq<int>, op: Operation, userId: int)
    requires k < |rooms|
    ensures Remaining(WithMembers(rooms, k, ids), op, userId) + RoomRemaining(rooms[k], op, userId)
      == Remaining(rooms, op, userId) + RoomRemaining(rooms[k].(userIds := ids), op, userId)
  {
    var old_, new_ := rooms[k], rooms[k].(userIds := ids);
    var front, back := rooms[..k], rooms[k + 1..];
    assert rooms == front + [old_] + back;
    assert WithMembers(rooms, k, ids) == front + [new_] + back;
    RemainingAppend(front + [old_], back, op, userId);
    RemainingAppend(front, [old_], op, userId);
    RemainingAppend(front + [new_], back, op, userId);
    RemainingAppend(front, [new_], op, userId);
    assert [old_][1..] == [] && [new_][1..] == [];
  }

  /**
   * A named update either leaves the rooms exactly as they were or strictly
   * lowers `Remaining`; it never raises it.
   */
  lemma UpdateNamedShrinks(rooms: seq<Room>, op: Operation, name: string, userId: int, online: set<int>)
    ensures var r := UpdateNamed(rooms, op, name, userId, online).kept;
      && Remaining(r, op, userId) <= Remaining(rooms, op, userId)
      && (r == rooms || Remaining(r, op, userId) < Remaining(rooms, op, userId))
  {
    match FindRoom(rooms, name)
    case None =>
    case Some(k) =>
      var ids := rooms[k].userIds;
      if op == Add {
        AddMemberShrinks(rooms, k, userId);
      } else {
        var changed := WithMembers(rooms, k, RemoveFirst(ids, userId));
        RemoveMemberShrinks(rooms, k, userId);
        SweepShrinks(changed, online, userId);
      }
  }

  /** Adding a member to one room lowers `Remaining` for `add`, unless it was listed already. */
  lemma AddMemberShrinks(rooms: seq<Room>, k: nat, userId: int)
    requires k < |rooms|
    ensures var r := WithMembers(rooms, k, PushAbsent(rooms[k].userIds, userId));
      (r == rooms && userId in rooms[k].userIds)
      || Remaining(r, Add, userId) < Remaining(rooms, Add, userId)
  {
    var ids := rooms[k].userIds;
    var pushed := PushAbsent(ids, userId);
    RemainingWithMembers(rooms, k, pushed, Add, userId);
    if userId in ids {
      assert pushed == ids;
      assert rooms[k].(userIds := ids) == rooms[k];
      assert WithMembers(rooms, k, ids) == rooms;
    }
  }

  /** Removing a member from one room lowers `Remaining` for `remove`, unless it was not listed. */
  lemma RemoveMemberShrinks(rooms: seq<Room>, k: nat, userId: int)
    requires k < |rooms|
    ensures var r := WithMembers(rooms, k, RemoveFirst(rooms[k].userIds, userId));
      (r == rooms && userId !in rooms[k].userIds)
      || Remaining(r, Remove, userId) < Remaining(rooms, Remove, userId)
  {
    var ids := rooms[k].userIds;
    var dropped := RemoveFirst(ids, userId);
    RemainingWithMembers(rooms, k, dropped, Remove, userId);
    RemoveFirstCount(ids, userId);
    if userId !in ids {
      assert dropped == ids;
      assert rooms[k].(userIds := ids) == rooms[k];
      assert WithMembers(rooms, k, dropped) == rooms;
    } else {
      assert multiset(ids)[userId] >= 1;
      assert multiset(dropped)[userId] == multiset(ids)[userId] - 1;
    }
  }

  /** Collection lowers `Remaining` for `remove`, unless it collects nothing and so keeps the rooms. */
  lemma SweepShrinks(rooms: seq<Room>, online: set<int>, userId: int)
    ensures var r := Sweep(rooms, online).kept;
      r == rooms || Remaining(r, Remove, userId) < Remaining(rooms, Remove, userId)
  {
    SweepSplitsRemaining(rooms, online, Remove, userId);
    SweepWithoutRemovalKeepsAll(rooms, online);
    var s := Sweep(rooms, online);
    if s.removed != [] {
      assert Remaining(s.removed, Remove, userId) >= 1;
    }
  }

  /**
   * One named room of the all-rooms pass: the pass goes on after it from
   * the updated rooms, which still satisfy the measure's requirement.
   */
  lemma UpdateEveryVisit(entry: seq<Room>, rooms: seq<Room>, op: Operation, userId: int, online: set<int>, i: nat)
    requires rooms == entry || Remaining(rooms, op, userId) < Remaining(entry, op, userId)
    requires i < |rooms| && rooms[i].name != ""
    ensures var step := UpdateNamed(rooms, op, rooms[i].name, userId, online);
      && (step.kept == entry || Remaining(step.kept, op, userId) < Remaining(entry, op, userId))
      && var rest := UpdateEvery(entry, step.kept, op, userId, online, i + 1);
         UpdateEvery(entry, rooms, op, userId, online, i) == Update(rest.rooms, step.removed + rest.removed, rest.aborted)
  {
    UpdateNamedShrinks(rooms, op, rooms[i].name, userId, online);
  }

  // ---------------------------------------------------------------------
  // What every roomUpdate guarantees

  /** Every room a pass collects is collectible for the online ids it was given. */
  lemma UpdateNamedRemovesOnlyCollectible(rooms: seq<Room>, op: Operation, name: string, userId: int, online: set<int>)
    ensures var r := UpdateNamed(rooms, op, name, userId, online);
      forall x :: x in r.removed ==> Collectible(x, online)
  {
    match FindRoom(rooms, name)
    case None =>
    case Some(k) =>
      if op == Remove {
        SweepRemovesOnlyCollectible(WithMembers(rooms, k, RemoveFirst(rooms[k].userIds, userId)), online);
      }
  }

  lemma {:induction false} UpdateEveryRemovesOnlyCollectible(entry: seq<Room>, rooms: seq<Room>, op: Operation, userId: int, online: set<int>, i: nat)
    requires rooms == entry || Remaining(rooms, op, userId) < Remaining(entry, op, userId)
    ensures var r := UpdateEvery(entry, rooms, op, userId, online, i);
      forall x :: x in r.removed ==> Collectible(x, online)
    decreases Remaining(entry, op, userId), |rooms| - i
  {
    if i >= |rooms| {
    } else if rooms[i].name == "" {
      if rooms != entry {
        var nested := UpdateEvery(rooms, rooms, op, userId, online, 0);
        UpdateEveryRemovesOnlyCollectible(rooms, rooms, op, userId, online, 0);
        if !nested.aborted {
          UpdateEveryRemovesOnlyCollectible(entry, nested.rooms, op, userId, online, i + 1);
        }
      }
    } else {
      var step := UpdateNamed(rooms, op, rooms[i].name, userId, online);
      UpdateNamedRemovesOnlyCollectible(rooms, op, rooms[i].name, userId, online);
      UpdateNamedShrinks(rooms, op, rooms[i].name, userId, online);
      UpdateEveryRemovesOnlyCollectible(entry, step.kept, op, userId, online, i + 1);
    }
  }

  /** roomUpdate deletes only rooms with no online member. */
  lemma UpdateRoomsRemovesOnlyCollectible(rooms: seq<Room>, op: Operation, name: Option<string>, userId: int, online: set<int>)
    ensures var r := UpdateRooms(rooms, op, name, userId, online);
      forall x :: x in r.removed ==> Collectible(x, online)
  {
    if Falsy(name) {
      UpdateEveryRemovesOnlyCollectible(rooms, rooms, op, userId, online, 0);
    } else {
      UpdateNamedRemovesOnlyCollectible(rooms, op, name.value, userId, online);
    }
  }

  /** A room that lists an online user `v` survives a pass, still listing `v`. */
  lemma SweepKeepsHost(rooms: seq<Room>, online: set<int>, name: string, v: int)
    requires Hosts(rooms, name, v) && v in online
    ensures Hosts(Sweep(rooms, online).kept, name, v)
  {
    var j :| 0 <= j < |rooms| && rooms[j].name == name && v in rooms[j].userIds;
    var i :| 0 <= i < |rooms[j].userIds| && rooms[j].userIds[i] == v;
    assert !Collectible(rooms[j], online);
    SweepKeepsLiveRooms(rooms, online, rooms[j]);
    var kept := Sweep(rooms, online).kept;
    var m :| 0 <= m < |kept| && kept[m] == rooms[j];
    assert kept[m].name == name && v in kept[m].userIds;
  }

  lemma UpdateNamedKeepsHost(rooms: seq<Room>, op: Operation, target: string, userId: int, online: set<int>, name: string, v: int)
    requires Hosts(rooms, name, v) && v in online && v != userId
    ensures Hosts(UpdateNamed(rooms, op, target, userId, online).kept, name, v)
  {
    match FindRoom(rooms, target)
    case None =>
    case Some(k) =>
      var ids := if op == Add then PushAbsent(rooms[k].userIds, userId) else RemoveFirst(rooms[k].userIds, userId);
      var changed := WithMembers(rooms, k, ids);
      var j :| 0 <= j < |rooms| && rooms[j].name == name && v in rooms[j].userIds;
      if j == k {
        if op == Remove {
          RemoveFirstCount(rooms[k].userIds, userId);
          assert v in multiset(rooms[k].userIds);
          assert v in multiset(ids);
        }
        assert v in changed[j].userIds;
      } else {
        assert changed[j] == rooms[j];
      }
      assert changed[j].name == name && v in changed[j].userIds;
      if op == Remove {
        SweepKeepsHost(changed, online, name, v);
      }
  }

  lemma {:induction false} UpdateEveryKeepsHost(entry: seq<Room>, rooms: seq<Room>, op: Operation, userId: int, online: set<int>, i: nat, name: string, v: int)
    requires rooms == entry || Remaining(rooms, op, userId) < Remaining(entry, op, userId)
    requires Hosts(rooms, name, v) && v in online && v != userId
    ensures Hosts(UpdateEvery(entry, rooms, op, userId, online, i).rooms, name, v)
    decreases Remaining(entry, op, userId), |rooms| - i
  {
    if i >= |rooms| {
    } else if rooms[i].name == "" {
      if rooms != entry {
        var nested := UpdateEvery(rooms, rooms, op, userId, online, 0);
        UpdateEveryKeepsHost(rooms, rooms, op, userId, online, 0, name, v);
        if !nested.aborted {
          UpdateEveryKeepsHost(entry, nested.rooms, op, userId, online, i + 1, name, v);
        }
      }
    } else {
      var step := UpdateNamed(rooms, op, rooms[i].name, userId, online);
      UpdateNamedKeepsHost(rooms, op, rooms[i].name, userId, online, name, v);
      UpdateNamedShrinks(rooms, op, rooms[i].name, userId, online);
      UpdateEveryKeepsHost(entry, step.kept, op, userId, online, i + 1, name, v);
    }
  }

  /**
   * Collection never takes away a room that still has an online member:
   * whatever roomUpdate does on behalf of `userId`, a room that listed
   * another online user `v` is still there (same name) and still lists `v`.
   */
  lemma UpdateRoomsKeepsLiveRooms(rooms: seq<Room>, op: Operation, name: Option<string>, userId: int, online: set<int>, room: string, v: int)
    requires Hosts(rooms, room, v) && v in online && v != userId
    ensures Hosts(UpdateRooms(rooms, op, name, userId, online).rooms, room, v)
  {
    if Falsy(name) {
      UpdateEveryKeepsHost(rooms, rooms, op, userId, online, 0, room, v);
    } else {
      UpdateNamedKeepsHost(rooms, op, name.value, userId, online, room, v);
    }
  }

  /** Kept rooms are rooms of the input, so a pass keeps member lists duplicate-free. */
  lemma SweepKeepsDistinct(rooms: seq<Room>, online: set<int>)
    requires MembersDistinct(rooms)
    ensures MembersDistinct(Sweep(rooms, online).kept)
  {
    var kept := Sweep(rooms, online).kept;
    SweepPartition(rooms, online);
    forall j | 0 <= j < |kept|
      ensures Distinct(kept[j].userIds)
    {
      assert kept[j] in multiset(kept);
      assert kept[j] in multiset(rooms);
      var m :| 0 <= m < |rooms| && rooms[m] == kept[j];
    }
  }

  lemma UpdateNamedKeepsDistinct(rooms: seq<Room>, op: Operation, name: string, userId: int, online: set<int>)
    requires MembersDistinct(rooms)
    ensures MembersDistinct(UpdateNamed(rooms, op, name, userId, online).kept)
  {
    match FindRoom(rooms, name)
    case None =>
    case Some(k) =>
      if op == Add {
        PushAbsentKeepsDistinct(rooms[k].userIds, userId);
      } else {
        RemoveFirstDistinct(rooms[k].userIds, userId);
        SweepKeepsDistinct(WithMembers(rooms, k, RemoveFirst(rooms[k].userIds, userId)), online);
      }
  }

  lemma {:induction false} UpdateEveryKeepsDistinct(entry: seq<Room>, rooms: seq<Room>, op: Operation, userId: int, online: set<int>, i: nat)
    requires rooms == entry || Remaining(rooms, op, userId) < Remaining(entry, op, userId)
    requires MembersDistinct(rooms)
    ensures MembersDistinct(UpdateEvery(entry, rooms, op, userId, online, i).rooms)
    decreases Remaining(entry, op, userId), |rooms| - i
  {
    if i >= |rooms| {
    } else if rooms[i].name == "" {
      if rooms != entry {
        var nested := UpdateEvery(rooms, rooms, op, userId, online, 0);
        UpdateEveryKeepsDistinct(rooms, rooms, op, userId, online, 0);
        if !nested.aborted {
          UpdateEveryKeepsDistinct(entry, nested.rooms, op, userId, online, i + 1);
        }
      }
    } else {
      var next := UpdateNamed(rooms, op, rooms[i].name, userId, online).kept;
      UpdateNamedKeepsDistinct(rooms, op, rooms[i].name, userId, online);
      UpdateNamedShrinks(rooms, op, rooms[i].name, userId, online);
      UpdateEveryKeepsDistinct(entry, next, op, userId, online, i + 1);
    }
  }

  /** roomUpdate preserves the invariant that no member list holds an id twice. */
  lemma UpdateRoomsKeepsDistinct(rooms: seq<Room>, op: Operation, name: Option<string>, userId: int, online: set<int>)
    requires MembersDistinct(rooms)
    ensures MembersDistinct(UpdateRooms(rooms, op, name, userId, online).rooms)
  {
    if Falsy(name) {
      UpdateEveryKeepsDistinct(rooms, rooms, op, userId, online, 0);
    } else {
      UpdateNamedKeepsDistinct(rooms, op, name.value, userId, online);
    }
  }

  /**
   * Adding to every room: with unique, non-empty names, each room ends up
   * listing `userId`, nothing is collected and the pass completes.
   */
  lemma {:induction false} UpdateEveryAddReachesAll(entry: seq<Room>, rooms: seq<Room>, userId: int, online: set<int>, i: nat)
    requires rooms == entry || Remaining(rooms, Add, userId) < Remaining(entry, Add, userId)
    requires NamesProper(rooms) && i <= |rooms|
    requires forall j :: 0 <= j < i ==> userId in rooms[j].userIds
    ensures var r := UpdateEvery(entry, rooms, Add, userId, online, i);
      && !r.aborted && r.removed == [] && |r.rooms| == |rooms|
      && forall j :: 0 <= j < |r.rooms| ==> userId in r.rooms[j].userIds
    decreases |rooms| - i
  {
    if i < |rooms| {
      FindRoomFirst(rooms, rooms[i].name);
      assert FindRoom(rooms, rooms[i].name) == Some(i);
      var next := UpdateNamed(rooms, Add, rooms[i].name, userId, online).kept;
      UpdateNamedAdd(rooms, rooms[i].name, userId, online);
      UpdateNamedShrinks(rooms, Add, rooms[i].name, userId, online);
      UpdateEveryAddReachesAll(entry, next, userId, online, i + 1);
    }
  }

  /** Every room lists some online member other than `userId`. */
  ghost predicate OthersOnline(rooms: seq<Room>, userId: int, online: set<int>) {
    forall j :: 0 <= j < |rooms| ==> exists v :: v in rooms[j].userIds && v in online && v != userId
  }

  /** Taking `userId` out of one room leaves every room's other online members in place. */
  lemma RemoveMemberKeepsOthersOnline(rooms: seq<Room>, k: nat, userId: int, online: set<int>)
    requires k < |rooms| && OthersOnline(rooms, userId, online)
    ensures OthersOnline(WithMembers(rooms, k, RemoveFirst(rooms[k].userIds, userId)), userId, online)
  {
    var ids := RemoveFirst(rooms[k].userIds, userId);
    var changed := WithMembers(rooms, k, ids);
    RemoveFirstCount(rooms[k].userIds, userId);
    forall j | 0 <= j < |changed| ensures exists v :: v in changed[j].userIds && v in online && v != userId
    {
      var v :| v in rooms[j].userIds && v in online && v != userId;
      if j == k {
        assert v in multiset(rooms[k].userIds);
        assert v in multiset(ids);
      }
      assert v in changed[j].userIds;
    }
  }

  /** A room with an online member is not collectible. */
  lemma OthersOnlineNothingCollectible(rooms: seq<Room>, userId: int, online: set<int>)
    requires OthersOnline(rooms, userId, online)
    ensures forall j :: 0 <= j < |rooms| ==> !Collectible(rooms[j], online)
  {
    forall j | 0 <= j < |rooms| ensures !Collectible(rooms[j], online)
    {
      var v :| v in rooms[j].userIds && v in online && v != userId;
    }
  }

  /**
   * Taking `userId` out of the room at `k` keeps names and duplicate-free
   * lists, and the user is then absent from the rooms up to `k`.
   */
  lemma RemoveMemberKeepsShape(rooms: seq<Room>, k: nat, userId: int)
    requires k < |rooms| && NamesProper(rooms) && MembersDistinct(rooms)
    requires forall j :: 0 <= j < k ==> userId !in rooms[j].userIds
    ensures var changed := WithMembers(rooms, k, RemoveFirst(rooms[k].userIds, userId));
      && NamesProper(changed) && MembersDistinct(changed)
      && forall j :: 0 <= j < k + 1 ==> userId !in changed[j].userIds
  {
    var changed := WithMembers(rooms, k, RemoveFirst(rooms[k].userIds, userId));
    RemoveFirstDistinct(rooms[k].userIds, userId);
    assert forall j :: 0 <= j < |rooms| ==> changed[j].name == rooms[j].name;
  }

  /**
   * Removing `userId` from a named room while every room has another online
   * member: only that room's list changes, the user is gone from it and the
   * collection removes nothing.
   */
  lemma UpdateNamedRemoveCollectsNothing(rooms: seq<Room>, k: nat, userId: int, online: set<int>)
    requires k < |rooms| && NamesProper(rooms) && MembersDistinct(rooms) && OthersOnline(rooms, userId, online)
    requires forall j :: 0 <= j < k ==> userId !in rooms[j].userIds
    ensures var next := UpdateNamed(rooms, Remove, rooms[k].name, userId, online);
      && next.removed == [] && |next.kept| == |rooms|
      && NamesProper(next.kept) && MembersDistinct(next.kept) && OthersOnline(next.kept, userId, online)
      && (forall j :: 0 <= j < k + 1 ==> userId !in next.kept[j].userIds)
      && forall j :: 0 <= j < |rooms| && j != k ==> next.kept[j] == rooms[j]
  {
    FindRoomFirst(rooms, rooms[k].name);
    var changed := WithMembers(rooms, k, RemoveFirst(rooms[k].userIds, userId));
    RemoveMemberKeepsOthersOnline(rooms, k, userId, online);
    OthersOnlineNothingCollectible(changed, userId, online);
    SweepNothingCollectible(changed, online);
    RemoveMemberKeepsShape(rooms, k, userId);
    assert UpdateNamed(rooms, Remove, rooms[k].name, userId, online) == Swept(changed, []);
  }

  /** A completed pass that collected nothing, kept `n` rooms and left `userId` in none of them. */
  ghost predicate RemovedEverywhere(r: Update, n: nat, userId: int) {
    !r.aborted && r.removed == [] && |r.rooms| == n
    && forall j :: 0 <= j < |r.rooms| ==> userId !in r.rooms[j].userIds
  }

  /**
   * Removing from every room, as a disconnect does: with distinct non-empty
   * names, duplicate-free member lists and another online member in every
   * room, the user ends up in no room, nothing is collected and the pass
   * completes.
   */
  lemma {:induction false} UpdateEveryRemoveReachesAll(entry: seq<Room>, rooms: seq<Room>, userId: int, online: set<int>, i: nat)
    requires rooms == entry || Remaining(rooms, Remove, userId) < Remaining(entry, Remove, userId)
    requires NamesProper(rooms) && MembersDistinct(rooms) && i <= |rooms|
    requires OthersOnline(rooms, userId, online)
    requires forall j :: 0 <= j < i ==> userId !in rooms[j].userIds
    ensures RemovedEverywhere(UpdateEvery(entry, rooms, Remove, userId, online, i), |rooms|, userId)
    decreases |rooms| - i
  {
    if i < |rooms| {
      var step := UpdateNamed(rooms, Remove, rooms[i].name, userId, online);
      UpdateNamedRemoveCollectsNothing(rooms, i, userId, online);
      UpdateNamedShrinks(rooms, Remove, rooms[i].name, userId, online);
      UpdateEveryRemoveReachesAll(entry, step.kept, userId, online, i + 1);
      RemovedEverywhereStep(entry, rooms, userId, online, i);
    }
  }

  /** One named room of the removal pass: what holds after it holds from it. */
  lemma RemovedEverywhereStep(entry: seq<Room>, rooms: seq<Room>, userId: int, online: set<int>, i: nat)
    requires rooms == entry || Remaining(rooms, Remove, userId) < Remaining(entry, Remove, userId)
    requires i < |rooms| && rooms[i].name != ""
    requires var step := UpdateNamed(rooms, Remove, rooms[i].name, userId, online);
      && step.removed == [] && |step.kept| == |rooms|
      && (step.kept == entry || Remaining(step.kept, Remove, userId) < Remaining(entry, Remove, userId))
      && RemovedEverywhere(UpdateEvery(entry, step.kept, Remove, userId, online, i + 1), |rooms|, userId)
    ensures RemovedEverywhere(UpdateEvery(entry, rooms, Remove, userId, online, i), |rooms|, userId)
  {
    UpdateEveryVisit(entry, rooms, Remove, userId, online, i);
  }

  /** `roomUpdate('remove', null, userId)` under the same conditions takes the user out of every room. */
  lemma UpdateRoomsRemoveReachesAll(rooms: seq<Room>, name: Option<string>, userId: int, online: set<int>)
    requires Falsy(name) && NamesProper(rooms) && MembersDistinct(rooms) && OthersOnline(rooms, userId, online)
    ensures var r := UpdateRooms(rooms, Remove, name, userId, online);
      && !r.aborted && r.removed == [] && |r.rooms| == |rooms|
      && forall j :: 0 <= j < |r.rooms| ==> userId !in r.rooms[j].userIds
  {
    UpdateEveryRemoveReachesAll(rooms, rooms, userId, online, 0);
  }

  /**
   * The live-array iteration in numbers: user 7 is the only member of rooms
   * "a" and "b" and is offline. Removing 7 everywhere empties "a", whose
   * collection shifts "b" into slot 0; the pass then stops at index 1, so
   * "b" survives still listing 7.
   */
  lemma RemoveEverywhereMissesShiftedRoom()
    ensures var a := Room("a", [7], 7, None);
      var b := Room("b", [7], 7, None);
      UpdateRooms([a, b], Remove, None, 7, {})
        == Update([b], [Room("a", [], 7, None)], false)
  {
    var a := Room("a", [7], 7, None);
    var b := Room("b", [7], 7, None);
    var a' := Room("a", [], 7, None);
    assert FindRoom([a, b], "a") == Some(0);
    assert RemoveFirst([7], 7) == [];
    assert WithMembers([a, b], 0, []) == [a', b];
    SweepSkipsShiftedRoom(a', b, {});
    assert UpdateNamed([a, b], Remove, "a", 7, {}) == Swept([b], [a']);
  }

  /**
   * A room named "" in numbers: user 1 leaves everything; room "x" lists
   * only 1, room "y" nobody, and room "" lists the online user 2. Leaving
   * "x" collects it and shifts "y" into slot 0, so position 1 holds "".
   * The array changed since the pass began, so visiting "" runs one nested
   * pass, which collects "y" and ends; the outer pass then ends too.
   */
  lemma RemoveEverywhereNestsAtEmptyName()
    ensures var x := Room("x", [1], 1, None);
      var y := Room("y", [], 1, None);
      var e := Room("", [2], 2, None);
      UpdateRooms([x, y, e], Remove, None, 1, {2})
        == Update([e], [Room("x", [], 1, None), y], false)
  {
    var x := Room("x", [1], 1, None);
    var y := Room("y", [], 1, None);
    var e := Room("", [2], 2, None);
    NestedExampleLeavesX(x, y, e);
    NestedExampleInnerPass(y, e);
    assert Remaining([y, e], Remove, 1) < Remaining([x, y, e], Remove, 1);
    assert UpdateEvery([x, y, e], [y, e], Remove, 1, {2}, 1) == Update([e], [y], false);
  }

  /** The first visit of RemoveEverywhereNestsAtEmptyName: leaving "x" collects it. */
  lemma NestedExampleLeavesX(x: Room, y: Room, e: Room)
    requires x == Room("x", [1], 1, None) && y == Room("y", [], 1, None) && e == Room("", [2], 2, None)
    ensures UpdateNamed([x, y, e], Remove, "x", 1, {2}) == Swept([y, e], [Room("x", [], 1, None)])
  {
    var x' := Room("x", [], 1, None);
    assert FindRoom([x, y, e], "x") == Some(0);
    assert RemoveFirst([1], 1) == [];
    assert WithMembers([x, y, e], 0, []) == [x', y, e];
    assert !Collectible(e, {2}) by { assert e.userIds[0] in {2}; }
    assert Sweep([e], {2}) == Swept([e], []);
    assert Sweep([x', y, e], {2}) == Swept([y, e], [x']);
  }

  /** The nested pass of RemoveEverywhereNestsAtEmptyName: it collects "y" and ends. */
  lemma NestedExampleInnerPass(y: Room, e: Room)
    requires y == Room("y", [], 1, None) && e == Room("", [2], 2, None)
    ensures UpdateEvery([y, e], [y, e], Remove, 1, {2}, 0) == Update([e], [y], false)
  {
    assert FindRoom([y, e], "y") == Some(0);
    assert RemoveFirst([], 1) == [];
    assert WithMembers([y, e], 0, []) == [y, e];
    assert !Collectible(e, {2}) by { assert e.userIds[0] in {2}; }
    assert Sweep([e], {2}) == Swept([e], []);
    assert Sweep([y, e], {2}) == Swept([e], [y]);
    assert UpdateNamed([y, e], Remove, "y", 1, {2}) == Swept([e], [y]);
  }
}
