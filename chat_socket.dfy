/**
 * The websocket server's process-wide state (`connectedUsers` and `rooms`)
 * and its connection handlers. Sockets, channels and the storage model are
 * not called: what the handlers would send or request is appended to two
 * ghost logs, `transport` (broadcasts, channel joins and leaves) and
 * `storage` (file deletions and message/file saves).
 */
module ChatSocket {
  import opened Wrappers
  import opened JsArray
  import opened ChatState
  import HdMath

  /** The session of an authenticated connection (`session.login` with `loginned` set). */
  datatype Login = Login(userId: int, userName: string)

  /** Names of the events the server emits. */
  datatype EventName =
    | UserConnected | StatusChanged | RoomJoined | Disconnect | RoomCreated | RoomLeaved
    | RoomForceJoined | RoomForceLeaved | SendMessage | SendFile | TypeMessage

  /** Who a broadcast reaches. */
  datatype Audience =
    | Everyone                                        // io.of('/chat').emit
    | AllBut(socket: SocketId)                        // socket.broadcast.emit
    | Channel(room: Option<string>)                   // io.of('/chat').to(room).emit
    | ChannelBut(room: Option<string>, socket: SocketId)  // socket.broadcast.to(room).emit

  /** What the server asks of the socket layer; an emitted room record travels with its event. */
  datatype TransportOp =
    | Emit(event: EventName, audience: Audience, roomData: Option<Room>)
    | Join(socket: SocketId, room: Option<string>)
    | Leave(socket: SocketId, room: Option<string>)

  /** What the server asks of the storage model. */
  datatype StorageRequest =
    | DeleteFiles(room: string)
    | SaveMessage(userId: int, channel: Option<string>)
    | SaveFile(userId: int, channel: Option<string>)

  /** One `deleteFile` request per collected room, in collection order. */
  function DeleteRequests(rooms: seq<Room>): (r: seq<StorageRequest>)
    ensures |r| == |rooms|
  {
    if |rooms| == 0 then []
    else DeleteRequests(rooms[..|rooms| - 1]) + [DeleteFiles(rooms[|rooms| - 1].name)]
  }

  /** The j-th request deletes the files of the j-th collected room. */
  lemma {:induction false} DeleteRequestsNames(rooms: seq<Room>)
    ensures forall j :: 0 <= j < |rooms| ==> DeleteRequests(rooms)[j] == DeleteFiles(rooms[j].name)
    decreases |rooms|
  {
    if |rooms| > 0 {
      DeleteRequestsNames(rooms[..|rooms| - 1]);
    }
  }

  lemma {:induction false} DeleteRequestsAppend(a: seq<Room>, b: seq<Room>)
    ensures DeleteRequests(a + b) == DeleteRequests(a) + DeleteRequests(b)
    decreases |b|
  {
    if |b| > 0 {
      var b' := b[..|b| - 1];
      assert (a + b)[..|a + b| - 1] == a + b';
      DeleteRequestsAppend(a, b');
    } else {
      assert a + b == a;
    }
  }

  /** The delete requests of a later batch extend the log of the earlier ones. */
  lemma StorageAppend(base: seq<StorageRequest>, removed: seq<Room>, more: seq<Room>)
    ensures (base + DeleteRequests(removed)) + DeleteRequests(more) == base + DeleteRequests(removed + more)
  {
    DeleteRequestsAppend(removed, more);
    var d, e := DeleteRequests(removed), DeleteRequests(more);
    assert (base + d) + e == base + (d + e);
  }

  /** The stored rooms after a connection of `userId`: each room listing the user gets `joinedUserId`. */
  function Reattach(rooms: seq<Room>, userId: int): (r: seq<Room>)
    ensures |r| == |rooms|
    ensures forall j :: 0 <= j < |rooms| ==>
      r[j] == if userId in rooms[j].userIds then rooms[j].(joinedUserId := Some(userId)) else rooms[j]
  {
    if |rooms| == 0 then []
    else
      var last := rooms[|rooms| - 1];
      Reattach(rooms[..|rooms| - 1], userId)
        + [if userId in last.userIds then last.(joinedUserId := Some(userId)) else last]
  }

  /**
   * The channel joins and `roomJoined` broadcasts of a connection, room by
   * room: at most a join of this socket and one announcement per room.
   */
  function JoinOps(rooms: seq<Room>, socket: SocketId, userId: int): (r: seq<TransportOp>)
    ensures |r| <= 2 * |rooms|
    ensures forall k :: 0 <= k < |r| ==> (r[k].Join? && r[k].socket == socket) || (r[k].Emit? && r[k].event == RoomJoined)
  {
    if |rooms| == 0 then []
    else
      var last := rooms[|rooms| - 1];
      JoinOps(rooms[..|rooms| - 1], socket, userId)
        + if userId in last.userIds
          then [Join(socket, Some(last.name)),
                Emit(RoomJoined, Channel(Some(last.name)), Some(last.(joinedUserId := Some(userId))))]
          else []
  }

  /** A connection re-attaches the user without touching any room's name, members or starter. */
  lemma ReattachKeepsMembership(rooms: seq<Room>, userId: int)
    ensures forall j :: 0 <= j < |rooms| ==>
      && Reattach(rooms, userId)[j].name == rooms[j].name
      && Reattach(rooms, userId)[j].userIds == rooms[j].userIds
      && Reattach(rooms, userId)[j].starter == rooms[j].starter
  {
  }

  /** The user is re-subscribed exactly to the rooms that list them. */
  lemma {:induction false} JoinOpsJoinsMemberRooms(rooms: seq<Room>, socket: SocketId, userId: int, name: string)
    ensures Join(socket, Some(name)) in JoinOps(rooms, socket, userId)
      <==> exists j :: 0 <= j < |rooms| && rooms[j].name == name && userId in rooms[j].userIds
    decreases |rooms|
  {
    if |rooms| > 0 {
      var init := rooms[..|rooms| - 1];
      JoinOpsJoinsMemberRooms(init, socket, userId, name);
      if exists j :: 0 <= j < |init| && init[j].name == name && userId in init[j].userIds {
        var j :| 0 <= j < |init| && init[j].name == name && userId in init[j].userIds;
        assert rooms[j] == init[j];
      }
      if exists j :: 0 <= j < |rooms| && rooms[j].name == name && userId in rooms[j].userIds {
        var j :| 0 <= j < |rooms| && rooms[j].name == name && userId in rooms[j].userIds;
        if j < |init| {
          assert init[j] == rooms[j];
        }
      }
    }
  }

  /**
   * What is left to `roomGarbageCollect` when its `forEach` stands at position
   * `i` of the live array: the rooms before `i` stay, the rest is still to sweep.
   */
  ghost function Pending(rooms: seq<Room>, i: nat, online: set<int>): Swept {
    if i <= |rooms| then
      var s := Sweep(rooms[i..], online);
      Swept(rooms[..i] + s.kept, s.removed)
    else Swept(rooms, [])
  }

  /** One room of the `forEach` in `roomGarbageCollect` that survives. */
  lemma SweepStepKeep(rooms: seq<Room>, i: nat, online: set<int>)
    requires i < |rooms| && !Collectible(rooms[i], online)
    ensures Pending(rooms, i, online) == Pending(rooms, i + 1, online)
  {
    assert rooms[i..][1..] == rooms[i + 1..];
    assert rooms[..i + 1] == rooms[..i] + [rooms[i]];
  }

  /**
   * One room of the `forEach` in `roomGarbageCollect` that is spliced out: the
   * next position of the iteration holds the room after the one that shifted
   * into slot `i`.
   */
  lemma SweepStepCollect(rooms: seq<Room>, i: nat, online: set<int>)
    requires i < |rooms| && Collectible(rooms[i], online)
    ensures var next := Pending(rooms[..i] + rooms[i + 1..], i + 1, online);
      Pending(rooms, i, online) == Swept(next.kept, [rooms[i]] + next.removed)
  {
    var spliced := rooms[..i] + rooms[i + 1..];
    if i + 1 < |rooms| {
      assert rooms[i..][2..] == rooms[i + 2..] == spliced[i + 1..];
      assert spliced[..i + 1] == rooms[..i] + [rooms[i + 1]];
      assert rooms[i..][1] == rooms[i + 1];
    } else {
      assert rooms[i..] == [rooms[i]];
      assert spliced == rooms[..i];
    }
  }

  /** The invariant of `roomGarbageCollect`'s `forEach`, carried across one position. */
  lemma SweepStep(rooms: seq<Room>, i: nat, online: set<int>, removed: seq<Room>)
    requires i < |rooms|
    ensures var p := Pending(rooms, i, online);
      var next := Pending(rooms[..i] + rooms[i + 1..], i + 1, online);
      Collectible(rooms[i], online) ==>
        Swept(p.kept, removed + p.removed) == Swept(next.kept, (removed + [rooms[i]]) + next.removed)
    ensures var p := Pending(rooms, i, online);
      var next := Pending(rooms, i + 1, online);
      !Collectible(rooms[i], online) ==>
        Swept(p.kept, removed + p.removed) == Swept(next.kept, removed + next.removed)
  {
    if Collectible(rooms[i], online) {
      SweepStepCollect(rooms, i, online);
      var next := Pending(rooms[..i] + rooms[i + 1..], i + 1, online);
      assert removed + ([rooms[i]] + next.removed) == (removed + [rooms[i]]) + next.removed;
    } else {
      SweepStepKeep(rooms, i, online);
    }
  }

  /** Before the first step nothing is decided; after the last, nothing is left. */
  lemma PendingEnds(rooms: seq<Room>, online: set<int>)
    ensures Pending(rooms, 0, online) == Sweep(rooms, online)
    ensures Pending(rooms, |rooms|, online) == Swept(rooms, [])
  {
    assert rooms[..0] == [] && rooms[0..] == rooms;
    assert rooms[..|rooms|] == rooms && rooms[|rooms|..] == [];
  }

  /**
   * The all-rooms pass of `roomUpdate` entered with the rooms `entry`,
   * standing at position `i` of the live array `rooms` and having collected
   * `removed` so far, ends in `target`.
   */
  ghost predicate EveryProgress(target: Update, entry: seq<Room>, rooms: seq<Room>, op: Operation, userId: int,
                                online: set<int>, i: nat, removed: seq<Room>)
  {
    && (rooms == entry || Remaining(rooms, op, userId) < Remaining(entry, op, userId))
    && var rest := UpdateEvery(entry, rooms, op, userId, online, i);
       target == Update(rest.rooms, removed + rest.removed, rest.aborted)
  }

  /** One room of the all-rooms pass of `roomUpdate`, updated by its name. */
  lemma UpdateEveryStep(target: Update, entry: seq<Room>, rooms: seq<Room>, op: Operation, userId: int,
                        online: set<int>, i: nat, removed: seq<Room>)
    requires i < |rooms| && rooms[i].name != ""
    requires EveryProgress(target, entry, rooms, op, userId, online, i, removed)
    ensures var step := UpdateNamed(rooms, op, rooms[i].name, userId, online);
      EveryProgress(target, entry, step.kept, op, userId, online, i + 1, removed + step.removed)
  {
    var step := UpdateNamed(rooms, op, rooms[i].name, userId, online);
    UpdateEveryVisit(entry, rooms, op, userId, online, i);
    var rest := UpdateEvery(entry, step.kept, op, userId, online, i + 1);
    RemovedAssoc(removed, step.removed, rest.removed);
  }

  /** Rooms collected in three batches, grouped either way. */
  lemma RemovedAssoc(a: seq<Room>, b: seq<Room>, c: seq<Room>)
    ensures a + (b + c) == (a + b) + c
  {
  }

  /** A room named "" reached while the rooms are still as they were on entry: unbounded recursion. */
  lemma UpdateEveryStop(target: Update, entry: seq<Room>, rooms: seq<Room>, op: Operation, userId: int,
                        online: set<int>, i: nat, removed: seq<Room>)
    requires i < |rooms| && rooms[i].name == "" && rooms == entry
    requires EveryProgress(target, entry, rooms, op, userId, online, i, removed)
    ensures target == Update(rooms, removed, true)
  {
    assert removed + [] == removed;
  }

  /**
   * A room named "" reached after the rooms changed: the nested pass runs
   * on the current rooms; if it recursed without end so does this one,
   * otherwise this one goes on after the room.
   */
  lemma UpdateEveryNested(target: Update, entry: seq<Room>, rooms: seq<Room>, op: Operation, userId: int,
                          online: set<int>, i: nat, removed: seq<Room>)
    requires i < |rooms| && rooms[i].name == "" && rooms != entry
    requires EveryProgress(target, entry, rooms, op, userId, online, i, removed)
    ensures var nested := UpdateEvery(rooms, rooms, op, userId, online, 0);
      if nested.aborted then target == Update(nested.rooms, removed + nested.removed, true)
      else EveryProgress(target, entry, nested.rooms, op, userId, online, i + 1, removed + nested.removed)
  {
    var nested := UpdateEvery(rooms, rooms, op, userId, online, 0);
    if !nested.aborted {
      var rest := UpdateEvery(entry, nested.rooms, op, userId, online, i + 1);
      assert removed + (nested.removed + rest.removed) == (removed + nested.removed) + rest.removed;
    }
  }

  /** Past the last room the all-rooms pass is done. */
  lemma UpdateEveryEnd(target: Update, entry: seq<Room>, rooms: seq<Room>, op: Operation, userId: int,
                       online: set<int>, i: nat, removed: seq<Room>)
    requires i >= |rooms|
    requires EveryProgress(target, entry, rooms, op, userId, online, i, removed)
    ensures target == Update(rooms, removed, false)
  {
    assert removed + [] == removed;
  }

  /** Before the first room the pass has collected nothing. */
  lemma UpdateEveryStart(rooms: seq<Room>, op: Operation, userId: int, online: set<int>)
    ensures EveryProgress(UpdateEvery(rooms, rooms, op, userId, online, 0), rooms, rooms, op, userId, online, 0, [])
  {
    var u := UpdateEvery(rooms, rooms, op, userId, online, 0);
    assert [] + u.removed == u.removed;
  }

  /** One room of the rooms loop of the `connection` handler. */
  lemma JoinOpsStep(rooms: seq<Room>, i: nat, socket: SocketId, userId: int)
    requires i < |rooms|
    ensures JoinOps(rooms[..i + 1], socket, userId) == JoinOps(rooms[..i], socket, userId)
      + if userId in rooms[i].userIds
        then [Join(socket, Some(rooms[i].name)),
              Emit(RoomJoined, Channel(Some(rooms[i].name)), Some(rooms[i].(joinedUserId := Some(userId))))]
        else []
  {
    assert rooms[..i + 1][..i] == rooms[..i];
  }

  /**
   * `roomCreated` appends without checking the name: a second room with a
   * taken name is stored but never found, since lookups take the first match.
   */
  lemma CreatedDuplicateIsShadowed(rooms: seq<Room>, created: Room)
    requires exists k :: 0 <= k < |rooms| && rooms[k].name == created.name
    ensures FindRoom(rooms + [created], created.name) == FindRoom(rooms, created.name)
    ensures FindRoom(rooms + [created], created.name).Some? && FindRoom(rooms + [created], created.name).value < |rooms|
  {
    var k :| 0 <= k < |rooms| && rooms[k].name == created.name;
    FindRoomFirst(rooms, created.name);
    FindRoomAppend(rooms, [created], created.name);
  }

  /** A room with a fresh name is found at the end of the array after `roomCreated`. */
  lemma CreatedFreshIsFound(rooms: seq<Room>, created: Room)
    requires forall k :: 0 <= k < |rooms| ==> rooms[k].name != created.name
    ensures FindRoom(rooms + [created], created.name) == Some(|rooms|)
  {
    FindRoomFirst(rooms, created.name);
    FindRoomAppend(rooms, [created], created.name);
    assert FindRoom([created], created.name) == Some(0);
  }

  /** The process-wide state of the chat namespace. */
  class ChatServer {
    /** `connectedUsers`: socket id to presence. */
    var connectedUsers: map<SocketId, Presence>
    /** `rooms`: the ordered room array. */
    var rooms: seq<Room>
    /** Broadcasts and channel subscriptions requested so far. */
    ghost var transport: seq<TransportOp>
    /** Storage requests issued so far. */
    ghost var storage: seq<StorageRequest>

    constructor ()
      ensures connectedUsers == map[] && rooms == []
      ensures transport == [] && storage == []
    {
      connectedUsers := map[];
      rooms := [];
      transport := [];
      storage := [];
    }

    /** `getRoom(name)`: the first room with that name, if any. */
    function GetRoom(name: Option<string>): (r: Option<Room>)
      reads this
      ensures r.Some? ==> (name.Some? &&
        exists k :: 0 <= k < |rooms| && rooms[k] == r.value
          && rooms[k].name == name.value && forall j :: 0 <= j < k ==> rooms[j].name != name.value)
      ensures r.None? <==> name.None? || forall j :: 0 <= j < |rooms| ==> rooms[j].name != name.value
    {
      if name.None? then None
      else
        FindRoomFirst(rooms, name.value);
        match FindRoom(rooms, name.value)
        case None => None
        case Some(k) => Some(rooms[k])
    }

    /** The ids of the users in `connectedUsers`, in some order of its keys. */
    method OnlineUserIds() returns (ids: seq<int>)
      ensures forall x :: x in ids <==> x in OnlineIds(connectedUsers)
      ensures |ids| == |connectedUsers|
    {
      ids := [];
      var keys := connectedUsers.Keys;
      while keys != {}
        invariant keys <= connectedUsers.Keys
        invariant |ids| + |keys| == |connectedUsers.Keys|
        invariant forall i :: 0 <= i < |ids| ==> ids[i] in OnlineIds(connectedUsers)
        invariant forall k :: k in connectedUsers && k !in keys ==> connectedUsers[k].id in ids
        decreases keys
      {
        var key :| key in keys;
        ids := ids + [connectedUsers[key].id];
        keys := keys - {key};
      }
    }

    /**
     * `roomGarbageCollect()`: collect the online ids, then walk the live room
     * array removing collectible rooms with `splice` and requesting the
     * deletion of their files.
     */
    method RoomGarbageCollect()
      modifies this
      ensures var s := Sweep(old(rooms), OnlineIds(connectedUsers));
        rooms == s.kept && storage == old(storage) + DeleteRequests(s.removed)
      ensures connectedUsers == old(connectedUsers) && transport == old(transport)
    {
      var onlineUserIds := OnlineUserIds();
      ghost var online := OnlineIds(connectedUsers);
      ghost var removed: seq<Room> := [];
      PendingEnds(rooms, online);
      var i := 0;
      while i < |rooms|
        invariant i <= |rooms| + 1
        invariant var p := Pending(rooms, i, online);
          Sweep(old(rooms), online) == Swept(p.kept, removed + p.removed)
        invariant storage == old(storage) + DeleteRequests(removed)
        invariant connectedUsers == old(connectedUsers) && transport == old(transport)
        decreases |rooms| + 1 - i
      {
        ghost var before := rooms;
        SweepStep(before, i, online, removed);
        var collected := CollectAt(i, onlineUserIds, online);
        if collected {
          DeleteRequestsAppend(removed, [before[i]]);
          removed := removed + [before[i]];
        }
        i := i + 1;
      }
      PendingEnds(rooms, online);
      if i == |rooms| + 1 {
        assert Pending(rooms, i, online) == Swept(rooms, []);
      }
      assert removed + [] == removed;
    }

    /** One position of the `forEach` in `roomGarbageCollect`: splice the room out if it is collectible. */
    method CollectAt(i: nat, onlineUserIds: seq<int>, ghost online: set<int>) returns (collected: bool)
      requires i < |rooms|
      requires forall x :: x in onlineUserIds <==> x in online
      modifies this
      ensures collected == Collectible(old(rooms)[i], online)
      ensures collected ==>
        rooms == old(rooms)[..i] + old(rooms)[i + 1..] && storage == old(storage) + [DeleteFiles(old(rooms)[i].name)]
      ensures !collected ==> rooms == old(rooms) && storage == old(storage)
      ensures connectedUsers == old(connectedUsers) && transport == old(transport)
    {
      var room := rooms[i];
      collected := IsCollectible(room, onlineUserIds, online);
      if collected {
        storage := storage + [DeleteFiles(room.name)];
        rooms := rooms[..i] + rooms[i + 1..];
      }
    }

    /** The test of one room in `roomGarbageCollect`: no members, or none of them online. */
    static method IsCollectible(room: Room, onlineUserIds: seq<int>, ghost online: set<int>) returns (r: bool)
      requires forall x :: x in onlineUserIds <==> x in online
      ensures r == Collectible(room, online)
    {
      var common := HdMath.Intersection(room.userIds, onlineUserIds);
      r := |room.userIds| == 0 || |common| == 0;
      if |common| == 0 {
        forall i | 0 <= i < |room.userIds|
          ensures room.userIds[i] !in online
        {
          var v := room.userIds[i];
          assert v !in onlineUserIds;
        }
      } else {
        var w :| 0 <= w < |room.userIds| && room.userIds[w] in onlineUserIds;
        var v := room.userIds[w];
        assert v in online;
      }
    }

    /** `roomUpdate(operation, roomName, userId)` for a truthy room name. */
    method RoomUpdateNamed(op: Operation, roomName: string, userId: int)
      modifies this
      ensures var s := UpdateNamed(old(rooms), op, roomName, userId, OnlineIds(connectedUsers));
        rooms == s.kept && storage == old(storage) + DeleteRequests(s.removed)
      ensures connectedUsers == old(connectedUsers) && transport == old(transport)
    {
      ghost var online := OnlineIds(connectedUsers);
      var roomIndex := FindRoom(rooms, roomName);
      if roomIndex.Some? {
        var k := roomIndex.value;
        if op == Add {
          AddMember(k, userId);
          assert UpdateNamed(old(rooms), op, roomName, userId, online) == Swept(rooms, []);
          assert storage + DeleteRequests([]) == storage;
        } else {
          RemoveMember(k, userId);
          assert UpdateNamed(old(rooms), op, roomName, userId, online) == Sweep(rooms, online);
          RoomGarbageCollect();
        }
      } else {
        assert storage + DeleteRequests([]) == storage;
      }
    }

    /** The add branch of `roomUpdate`: push `userId` onto the room's members unless it is listed. */
    method AddMember(k: nat, userId: int)
      requires k < |rooms|
      modifies this
      ensures rooms == WithMembers(old(rooms), k, PushAbsent(old(rooms)[k].userIds, userId))
      ensures connectedUsers == old(connectedUsers) && transport == old(transport) && storage == old(storage)
    {
      var ids := rooms[k].userIds;
      var userIdIndex := IndexOf(ids, userId);
      if userIdIndex == -1 {
        rooms := rooms[k := rooms[k].(userIds := ids + [userId])];
      } else {
        assert rooms[k].(userIds := ids) == rooms[k];
      }
    }

    /** The remove branch of `roomUpdate`, before its collection pass: splice out the first occurrence of `userId`. */
    method RemoveMember(k: nat, userId: int)
      requires k < |rooms|
      modifies this
      ensures rooms == WithMembers(old(rooms), k, RemoveFirst(old(rooms)[k].userIds, userId))
      ensures connectedUsers == old(connectedUsers) && transport == old(transport) && storage == old(storage)
    {
      var ids := rooms[k].userIds;
      var userIdIndex := IndexOf(ids, userId);
      if userIdIndex > -1 {
        rooms := rooms[k := rooms[k].(userIds := ids[..userIdIndex] + ids[userIdIndex + 1..])];
      } else {
        assert rooms[k].(userIds := ids) == rooms[k];
      }
    }

    /**
     * `roomUpdate(operation, roomName, userId)`: a falsy name applies the
     * operation to each room of the live array by name. Returns whether the
     * all-rooms pass ran into a room named "" (unbounded recursion in the
     * source), in which case the pass stops there.
     */
    method RoomUpdate(op: Operation, roomName: Option<string>, userId: int) returns (aborted: bool)
      modifies this
      ensures var u := UpdateRooms(old(rooms), op, roomName, userId, OnlineIds(connectedUsers));
        rooms == u.rooms && storage == old(storage) + DeleteRequests(u.removed) && aborted == u.aborted
      ensures connectedUsers == old(connectedUsers) && transport == old(transport)
    {
      if Falsy(roomName) {
        aborted := RoomUpdateEvery(op, userId);
      } else {
        RoomUpdateNamed(op, roomName.value, userId);
        aborted := false;
      }
    }

    /**
     * The falsy-name branch of `roomUpdate`: `forEach` over the live array,
     * updating each room by its name. A room named "" runs this branch
     * again, nested; when the rooms are still as they were on entry that
     * recursion has no end, and the pass reports it and stops.
     */
    method RoomUpdateEvery(op: Operation, userId: int) returns (aborted: bool)
      modifies this
      ensures var u := UpdateEvery(old(rooms), old(rooms), op, userId, OnlineIds(connectedUsers), 0);
        rooms == u.rooms && storage == old(storage) + DeleteRequests(u.removed) && aborted == u.aborted
      ensures connectedUsers == old(connectedUsers) && transport == old(transport)
      decreases Remaining(rooms, op, userId), 2
    {
      ghost var online := OnlineIds(connectedUsers);
      var entry := rooms;
      ghost var target := UpdateEvery(entry, entry, op, userId, online, 0);
      ghost var removed: seq<Room> := [];
      UpdateEveryStart(rooms, op, userId, online);
      var i := 0;
      aborted := false;
      while i < |rooms| && !aborted
        invariant 0 <= i
        invariant !aborted ==> EveryProgress(target, entry, rooms, op, userId, online, i, removed)
        invariant aborted ==> target == Update(rooms, removed, true)
        invariant storage == old(storage) + DeleteRequests(removed)
        invariant connectedUsers == old(connectedUsers) && transport == old(transport)
        decreases |rooms| - i
      {
        aborted, removed := VisitAt(op, userId, i, online, target, entry, removed, old(storage));
        i := i + 1;
      }
      if !aborted {
        UpdateEveryEnd(target, entry, rooms, op, userId, online, i, removed);
      }
    }

    /**
     * The room at position `i` of the falsy-name pass of `roomUpdate`: a
     * named room is updated by its name; a room named "" runs the pass again,
     * which recurses without end when the rooms are still as on entry.
     */
    method VisitAt(op: Operation, userId: int, i: nat, ghost online: set<int>, ghost target: Update,
                   entry: seq<Room>, ghost removed: seq<Room>, ghost base: seq<StorageRequest>)
      returns (aborted: bool, ghost removedNext: seq<Room>)
      requires i < |rooms|
      requires online == OnlineIds(connectedUsers)
      requires EveryProgress(target, entry, rooms, op, userId, online, i, removed)
      requires storage == base + DeleteRequests(removed)
      modifies this
      ensures aborted ==> target == Update(rooms, removedNext, true)
      ensures !aborted ==> EveryProgress(target, entry, rooms, op, userId, online, i + 1, removedNext)
      ensures |rooms| <= |old(rooms)|
      ensures storage == base + DeleteRequests(removedNext)
      ensures connectedUsers == old(connectedUsers) && transport == old(transport)
      decreases Remaining(entry, op, userId), 1
    {
      if rooms[i].name != "" {
        removedNext := VisitRoom(op, userId, i, online, target, entry, removed, base);
        aborted := false;
      } else if rooms == entry {
        UpdateEveryStop(target, entry, rooms, op, userId, online, i, removed);
        aborted, removedNext := true, removed;
      } else {
        aborted, removedNext := VisitEmptyName(op, userId, i, online, target, entry, removed, base);
      }
    }

    /**
     * A room named "" in the falsy-name pass of `roomUpdate`, reached after
     * the rooms changed: the name is falsy, so the pass runs again, nested.
     */
    method VisitEmptyName(op: Operation, userId: int, i: nat, ghost online: set<int>, ghost target: Update,
                          ghost entry: seq<Room>, ghost removed: seq<Room>, ghost base: seq<StorageRequest>)
      returns (aborted: bool, ghost removedNext: seq<Room>)
      requires i < |rooms| && rooms[i].name == "" && rooms != entry
      requires online == OnlineIds(connectedUsers)
      requires EveryProgress(target, entry, rooms, op, userId, online, i, removed)
      requires storage == base + DeleteRequests(removed)
      modifies this
      ensures aborted ==> target == Update(rooms, removedNext, true)
      ensures !aborted ==> EveryProgress(target, entry, rooms, op, userId, online, i + 1, removedNext)
      ensures |rooms| <= |old(rooms)|
      ensures storage == base + DeleteRequests(removedNext)
      ensures connectedUsers == old(connectedUsers) && transport == old(transport)
      decreases Remaining(entry, op, userId), 0
    {
      UpdateEveryNested(target, entry, rooms, op, userId, online, i, removed);
      ghost var nested := UpdateEvery(rooms, rooms, op, userId, online, 0);
      aborted := RoomUpdateEvery(op, userId);
      StorageAppend(base, removed, nested.removed);
      removedNext := removed + nested.removed;
    }

    /** One room of the falsy-name pass of `roomUpdate`: update it by its name. */
    method VisitRoom(op: Operation, userId: int, i: nat, ghost online: set<int>, ghost target: Update,
                     ghost entry: seq<Room>, ghost removed: seq<Room>, ghost base: seq<StorageRequest>)
      returns (ghost removedNext: seq<Room>)
      requires i < |rooms| && rooms[i].name != ""
      requires online == OnlineIds(connectedUsers)
      requires EveryProgress(target, entry, rooms, op, userId, online, i, removed)
      requires storage == base + DeleteRequests(removed)
      modifies this
      ensures EveryProgress(target, entry, rooms, op, userId, online, i + 1, removedNext)
      ensures |rooms| <= |old(rooms)|
      ensures storage == base + DeleteRequests(removedNext)
      ensures connectedUsers == old(connectedUsers) && transport == old(transport)
    {
      var name := rooms[i].name;
      ghost var step := UpdateNamed(rooms, op, name, userId, online);
      UpdateEveryStep(target, entry, rooms, op, userId, online, i, removed);
      removedNext := removed + step.removed;
      RoomUpdateNamed(op, name, userId);
      assert rooms == step.kept;
      StorageAppend(base, removed, step.removed);
    }

    /**
     * The `connection` handler. An authenticated socket is stored with status
     * "on", announced, and re-subscribed to every room that lists its user;
     * the user's presence is returned for the socket's later handlers. An
     * unauthenticated socket changes nothing.
     */
    method OnConnection(socket: SocketId, login: Option<Login>) returns (userData: Option<Presence>)
      modifies this
      ensures login.None? ==>
        userData.None? && connectedUsers == old(connectedUsers)
          && rooms == old(rooms) && transport == old(transport)
      ensures login.Some? ==>
        && userData == Some(Presence(login.value.userId, login.value.userName, "on", false))
        && connectedUsers == old(connectedUsers)[socket := userData.value]
        && rooms == Reattach(old(rooms), login.value.userId)
        && transport == old(transport)
             + [Emit(UserConnected, AllBut(socket), None), Emit(StatusChanged, Everyone, None)]
             + JoinOps(old(rooms), socket, login.value.userId)
      ensures storage == old(storage)
    {
      if login.None? {
        return None;
      }
      var user := Presence(login.value.userId, login.value.userName, "on", false);
      userData := Some(user);
      connectedUsers := connectedUsers[socket := user];
      transport := transport + [Emit(UserConnected, AllBut(socket), None), Emit(StatusChanged, Everyone, None)];
      RejoinRooms(socket, user.id);
    }

    /** The rooms loop of the `connection` handler: re-subscribe to, mark and announce each room listing `userId`. */
    method RejoinRooms(socket: SocketId, userId: int)
      modifies this
      ensures rooms == Reattach(old(rooms), userId)
      ensures transport == old(transport) + JoinOps(old(rooms), socket, userId)
      ensures connectedUsers == old(connectedUsers) && storage == old(storage)
    {
      ghost var orig := rooms;
      ghost var target := Reattach(orig, userId);
      var updated := rooms;
      ghost var ops: seq<TransportOp> := [];
      var i := 0;
      while i < |updated|
        modifies {}
        invariant 0 <= i <= |updated| == |orig|
        invariant forall j :: 0 <= j < i ==> updated[j] == target[j]
        invariant forall j :: i <= j < |updated| ==> updated[j] == orig[j]
        invariant ops == JoinOps(orig[..i], socket, userId)
      {
        var roomData := updated[i];
        JoinOpsStep(orig, i, socket, userId);
        if IndexOf(roomData.userIds, userId) > -1 {
          var joined := roomData.(joinedUserId := Some(userId));
          updated := updated[i := joined];
          ops := ops + [Join(socket, Some(roomData.name)), Emit(RoomJoined, Channel(Some(roomData.name)), Some(joined))];
        }
        i := i + 1;
      }
      assert orig[..i] == orig;
      rooms := updated;
      transport := transport + ops;
    }

    /**
     * The `disconnect` handler. A registered socket's presence is deleted
     * first, then its user is removed from every room (so collection already
     * sees the user offline), then the new table and the departure are
     * broadcast. An unregistered socket changes nothing.
     */
    method OnDisconnect(socket: SocketId) returns (aborted: bool)
      modifies this
      ensures socket !in old(connectedUsers) ==>
        !aborted && connectedUsers == old(connectedUsers)
          && rooms == old(rooms) && transport == old(transport) && storage == old(storage)
      ensures socket in old(connectedUsers) ==>
        var gone := old(connectedUsers)[socket];
        var u := UpdateRooms(old(rooms), Remove, None, gone.id, OnlineIds(old(connectedUsers) - {socket}));
        && connectedUsers == old(connectedUsers) - {socket}
        && rooms == u.rooms && aborted == u.aborted
        && storage == old(storage) + DeleteRequests(u.removed)
        && transport == old(transport)
             + if aborted then [] else [Emit(StatusChanged, Everyone, None), Emit(Disconnect, Everyone, None)]
    {
      aborted := false;
      if socket in connectedUsers {
        var discUserData := connectedUsers[socket];
        connectedUsers := connectedUsers - {socket};
        aborted := RoomUpdate(Remove, None, discUserData.id);
        if !aborted {
          transport := transport + [Emit(StatusChanged, Everyone, None), Emit(Disconnect, Everyone, None)];
        }
      }
    }

    /** The `statusChanged` handler: the client's table replaces the whole presence table. */
    method OnStatusChanged(socket: SocketId, updatedConnectedUsers: map<SocketId, Presence>)
      modifies this
      ensures connectedUsers == updatedConnectedUsers && rooms == old(rooms)
      ensures transport == old(transport) + [Emit(StatusChanged, AllBut(socket), None)]
      ensures storage == old(storage)
    {
      connectedUsers := updatedConnectedUsers;
      transport := transport + [Emit(StatusChanged, AllBut(socket), None)];
    }

    /** The `roomCreated` handler: the record is appended as given, with no check on its name. */
    method OnRoomCreated(socket: SocketId, roomData: Room)
      modifies this
      ensures rooms == old(rooms) + [roomData] && connectedUsers == old(connectedUsers)
      ensures transport == old(transport)
        + [Join(socket, Some(roomData.name)), Emit(RoomCreated, AllBut(socket), Some(roomData))]
      ensures storage == old(storage)
    {
      rooms := rooms + [roomData];
      transport := transport + [Join(socket, Some(roomData.name))];
      transport := transport + [Emit(RoomCreated, AllBut(socket), Some(roomData))];
    }

    /** The `roomJoin` handler: only subscribes the socket; no room's members change. */
    method OnRoomJoin(socket: SocketId, roomName: Option<string>)
      modifies this
      ensures rooms == old(rooms) && connectedUsers == old(connectedUsers)
      ensures transport == old(transport) + [Join(socket, roomName)]
      ensures storage == old(storage)
    {
      transport := transport + [Join(socket, roomName)];
    }

    /**
     * The `roomLeave` handler: unless silent, announce the leave with the room
     * as it was; then remove the user (the same whether silent or not) and
     * unsubscribe the socket.
     */
    method OnRoomLeave(socket: SocketId, userId: int, roomName: Option<string>, silent: bool) returns (aborted: bool)
      modifies this
      ensures var u := UpdateRooms(old(rooms), Remove, roomName, userId, OnlineIds(connectedUsers));
        && rooms == u.rooms && aborted == u.aborted
        && storage == old(storage) + DeleteRequests(u.removed)
        && transport == old(transport)
             + (if silent then [] else [Emit(RoomLeaved, AllBut(socket), old(GetRoom(roomName)))])
             + (if aborted then [] else [Leave(socket, roomName)])
      ensures connectedUsers == old(connectedUsers)
    {
      if !silent {
        var roomData := GetRoom(roomName);
        transport := transport + [Emit(RoomLeaved, AllBut(socket), roomData)];
      }
      aborted := RoomUpdate(Remove, roomName, userId);
      if !aborted {
        transport := transport + [Leave(socket, roomName)];
      }
    }

    /** The `roomForceJoin` handler: add the user, then announce the room as it now is. */
    method OnRoomForceJoin(socket: SocketId, triggerId: int, userId: int, roomName: Option<string>) returns (aborted: bool)
      modifies this
      ensures var u := UpdateRooms(old(rooms), Add, roomName, userId, OnlineIds(connectedUsers));
        && rooms == u.rooms && aborted == u.aborted && u.removed == []
        && storage == old(storage)
        && transport == old(transport)
             + if aborted then [] else [Emit(RoomForceJoined, AllBut(socket), GetRoom(roomName))]
      ensures connectedUsers == old(connectedUsers)
    {
      aborted := RoomUpdate(Add, roomName, userId);
      if !aborted {
        transport := transport + [Emit(RoomForceJoined, AllBut(socket), GetRoom(roomName))];
      }
    }

    /** The `roomForceLeave` handler: remove the user, then announce the room as it now is (if it survived). */
    method OnRoomForceLeave(socket: SocketId, triggerId: int, userId: int, roomName: Option<string>) returns (aborted: bool)
      modifies this
      ensures var u := UpdateRooms(old(rooms), Remove, roomName, userId, OnlineIds(connectedUsers));
        && rooms == u.rooms && aborted == u.aborted
        && storage == old(storage) + DeleteRequests(u.removed)
        && transport == old(transport)
             + if aborted then [] else [Emit(RoomForceLeaved, AllBut(socket), GetRoom(roomName))]
      ensures connectedUsers == old(connectedUsers)
    {
      aborted := RoomUpdate(Remove, roomName, userId);
      if !aborted {
        transport := transport + [Emit(RoomForceLeaved, AllBut(socket), GetRoom(roomName))];
      }
    }

    /**
     * The `sendMessage` handler: relay to the room's other subscribers, then
     * ask storage to save the message. On a socket that never logged in the
     * save reads the id of a null user and throws, so nothing is saved.
     */
    method OnSendMessage(socket: SocketId, userData: Option<Presence>, roomName: Option<string>)
      modifies this
      ensures rooms == old(rooms) && connectedUsers == old(connectedUsers)
      ensures transport == old(transport) + [Emit(SendMessage, ChannelBut(roomName, socket), None)]
      ensures storage == old(storage) + if userData.Some? then [SaveMessage(userData.value.id, roomName)] else []
    {
      transport := transport + [Emit(SendMessage, ChannelBut(roomName, socket), None)];
      if userData.Some? {
        storage := storage + [SaveMessage(userData.value.id, roomName)];
      }
    }

    /** The `sendFile` handler: as `sendMessage`, saving file metadata. */
    method OnSendFile(socket: SocketId, userData: Option<Presence>, roomName: Option<string>)
      modifies this
      ensures rooms == old(rooms) && connectedUsers == old(connectedUsers)
      ensures transport == old(transport) + [Emit(SendFile, ChannelBut(roomName, socket), None)]
      ensures storage == old(storage) + if userData.Some? then [SaveFile(userData.value.id, roomName)] else []
    {
      transport := transport + [Emit(SendFile, ChannelBut(roomName, socket), None)];
      if userData.Some? {
        storage := storage + [SaveFile(userData.value.id, roomName)];
      }
    }

    /** The `typeMessage` handler: relay only. */
    method OnTypeMessage(socket: SocketId, roomName: Option<string>)
      modifies this
      ensures rooms == old(rooms) && connectedUsers == old(connectedUsers) && storage == old(storage)
      ensures transport == old(transport) + [Emit(TypeMessage, ChannelBut(roomName, socket), None)]
    {
      transport := transport + [Emit(TypeMessage, ChannelBut(roomName, socket), None)];
    }
  }
}
