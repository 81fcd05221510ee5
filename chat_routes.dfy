/**
 * The decisions the chat routes make from server state: the room-size
 * permission rule of `userRestriction`, the access test of the file route,
 * and the progress bookkeeping of a file upload.
 */
module ChatRoutes {
  import opened Wrappers
  import ChatState

  // ---------------------------------------------------------------------
  // userRestriction
  // ---------------------------------------------------------------------

  /** The `operation` argument: `'create'`, `'add'`, or any other string. */
  datatype Request = Create | AddUsers | OtherRequest

  /**
   * The outcome of a `userRestriction` call: it throws before building its
   * promise, or the promise resolves to the permission. A rejected
   * forbiddens lookup is caught and logged, and the promise then resolves to
   * `undefined` (None).
   */
  datatype Answer = Throws | Resolves(permission: Option<bool>)

  /** The distinct values of a list of ids, as `new Set([...])` holds them. */
  function IdSet(ids: seq<int>): (r: set<int>)
    ensures forall x :: x in r <==> x in ids
  {
    set x | x in ids
  }

  /** The ids whose number is compared with `maxUsers`. */
  function CountedIds(request: Request, triggerUserId: int, userIds: seq<int>, roomUserIds: seq<int>): (r: set<int>)
    ensures request.Create? ==> forall x :: x in r <==> x in userIds || x == triggerUserId
    ensures request.AddUsers? ==> forall x :: x in r <==> x in userIds || x in roomUserIds
    ensures request.OtherRequest? ==> r == {}
  {
    match request
    case Create => IdSet(userIds + [triggerUserId])
    case AddUsers => IdSet(userIds + roomUserIds)
    case OtherRequest => {}
  }

  /**
   * `userRestriction(app, operation, triggerUserId, userIds, room)`, with the
   * server's `rooms` and the configured `maxUsers` (0 when unset) passed in,
   * and whether the forbiddens lookup rejects.
   */
  function UserRestriction(request: Request, triggerUserId: int, userIds: seq<int>, room: Option<string>,
                           rooms: seq<ChatState.Room>, maxUsers: nat, lookupFails: bool): (r: Answer)
    ensures r.Throws? <==>
      (request.OtherRequest? || (request.AddUsers? && (room.None? || ChatState.FindRoom(rooms, room.value).None?)))
    ensures r.Resolves? && lookupFails ==> r.permission.None?
    ensures r.Resolves? && !lookupFails && request.Create? ==>
      r.permission == Some(maxUsers == 0 || |IdSet(userIds + [triggerUserId])| <= maxUsers)
    ensures r.Resolves? && !lookupFails && request.AddUsers? ==>
      r.permission == Some(maxUsers == 0
        || |IdSet(userIds + rooms[ChatState.FindRoom(rooms, room.value).value].userIds)| <= maxUsers)
  {
    var roomData := if room.None? then None else ChatState.FindRoom(rooms, room.value);
    match request
    case OtherRequest => Throws
    case AddUsers | Create =>
      if request.AddUsers? && roomData.None? then Throws
      else
        var userIdSet := CountedIds(request, triggerUserId, userIds,
                                    if roomData.Some? then rooms[roomData.value].userIds else []);
        var permission := !(maxUsers != 0 && |userIdSet| > maxUsers);
        if lookupFails then Resolves(None) else Resolves(Some(permission))
  }

  /** The subset relation carries over to the number of elements. */
  lemma SubsetCardinality(a: set<int>, b: set<int>)
    requires a <= b
    ensures |a| <= |b|
  {
    assert b == (b - a) + a;
  }

  /** Asking for more users never turns a refusal into a permission. */
  lemma RestrictionMonotone(request: Request, triggerUserId: int, userIds: seq<int>, more: seq<int>,
                            room: Option<string>, rooms: seq<ChatState.Room>, maxUsers: nat)
    requires UserRestriction(request, triggerUserId, userIds, room, rooms, maxUsers, false) == Resolves(Some(false))
    ensures UserRestriction(request, triggerUserId, userIds + more, room, rooms, maxUsers, false) == Resolves(Some(false))
  {
    var roomIds := if request.AddUsers? then rooms[ChatState.FindRoom(rooms, room.value).value].userIds else [];
    var tail := if request.Create? then [triggerUserId] else roomIds;
    SubsetCardinality(IdSet(userIds + tail), IdSet(userIds + more + tail));
  }

  /** The trigger user is counted once, whether or not the request names them too. */
  lemma CreateCountsTriggerOnce(triggerUserId: int, userIds: seq<int>)
    requires triggerUserId in userIds
    ensures IdSet(userIds + [triggerUserId]) == IdSet(userIds)
  {
  }

  /** With a limit of two, a creator with one other user is permitted and a third person is not. */
  lemma RestrictionLimitExample(rooms: seq<ChatState.Room>)
    ensures UserRestriction(Create, 1, [2], None, rooms, 2, false) == Resolves(Some(true))
    ensures UserRestriction(Create, 1, [2, 2, 1], None, rooms, 2, false) == Resolves(Some(true))
    ensures UserRestriction(Create, 3, [1, 2], None, rooms, 2, false) == Resolves(Some(false))
    ensures UserRestriction(Create, 3, [1, 2], None, rooms, 0, false) == Resolves(Some(true))
  {
    assert IdSet([2] + [1]) == {1, 2};
    assert IdSet([2, 2, 1] + [1]) == {1, 2};
    assert IdSet([1, 2] + [3]) == {1, 2, 3};
  }

  // ---------------------------------------------------------------------
  // GET /file/:room/:fileName
  // ---------------------------------------------------------------------

  /** The stored file record the chat model returns. */
  datatype FileRecord = FileRecord(deleted: bool, source: string)

  /**
   * What the route does: send the stored file, hand the request on to the
   * next handler, or fail inside the promise (a missing room makes the
   * member test throw; the error is logged and no response is sent).
   */
  datatype FileOutcome = Serve(source: string) | PassOn | Fails

  /** The access test of the file route, given the model's answer and the session's user id. */
  function FileAccess(file: Option<FileRecord>, sessionUserId: Option<int>, roomName: string,
                      rooms: seq<ChatState.Room>): (r: FileOutcome)
    ensures r.Serve? <==>
      (file.Some? && !file.value.deleted && sessionUserId.Some? &&
        exists k :: 0 <= k < |rooms| && rooms[k].name == roomName && sessionUserId.value in rooms[k].userIds
          && forall j :: 0 <= j < k ==> rooms[j].name != roomName)
    ensures r.Fails? <==>
      (file.Some? && !file.value.deleted && forall k :: 0 <= k < |rooms| ==> rooms[k].name != roomName)
    ensures r.Serve? ==> r.source == file.value.source
  {
    ChatState.FindRoomFirst(rooms, roomName);
    if file.None? || file.value.deleted then PassOn
    else match ChatState.FindRoom(rooms, roomName)
      case None => Fails
      case Some(k) =>
        if sessionUserId.Some? && sessionUserId.value in rooms[k].userIds then Serve(file.value.source)
        else PassOn
  }

  /** A visitor without a session is never served. */
  lemma FileAccessNeedsLogin(file: Option<FileRecord>, roomName: string, rooms: seq<ChatState.Room>)
    ensures !FileAccess(file, None, roomName, rooms).Serve?
  {
  }

  // ---------------------------------------------------------------------
  // POST /uploadfile
  // ---------------------------------------------------------------------

  /** The `receiveFile` broadcast to the room. */
  datatype Progress = Progress(userId: int, room: Option<string>, uploadedSize: int, fileSize: int, firstSend: bool)

  /** The reply to the upload request. */
  datatype Reply = Refused | Accepted(fileName: string)

  /** The total byte length of the chunks. */
  function Sum(chunks: seq<nat>): nat {
    if |chunks| == 0 then 0 else Sum(chunks[..|chunks| - 1]) + chunks[|chunks| - 1]
  }

  /** The broadcasts of the `data` handler for the chunks received so far. */
  function ProgressOf(userId: int, room: Option<string>, fileSize: int, chunks: seq<nat>): (r: seq<Progress>)
    ensures |r| == |chunks|
  {
    if |chunks| == 0 then []
    else
      var before := chunks[..|chunks| - 1];
      ProgressOf(userId, room, fileSize, before)
        + [Progress(userId, room, Sum(chunks), fileSize, Sum(before) == 0)]
  }

  /** Each broadcast reports the running total, and `firstSend` exactly while nothing had arrived before it. */
  lemma {:induction false} ProgressReportsRunningSum(userId: int, room: Option<string>, fileSize: int, chunks: seq<nat>)
    ensures forall i :: 0 <= i < |chunks| ==>
      && ProgressOf(userId, room, fileSize, chunks)[i].uploadedSize == Sum(chunks[..i + 1])
      && ProgressOf(userId, room, fileSize, chunks)[i].firstSend == (Sum(chunks[..i]) == 0)
      && ProgressOf(userId, room, fileSize, chunks)[i].fileSize == fileSize
    decreases |chunks|
  {
    if |chunks| > 0 {
      var before := chunks[..|chunks| - 1];
      ProgressReportsRunningSum(userId, room, fileSize, before);
      var r := ProgressOf(userId, room, fileSize, chunks);
      forall i | 0 <= i < |before|
        ensures r[i].uploadedSize == Sum(chunks[..i + 1]) && r[i].firstSend == (Sum(chunks[..i]) == 0)
      {
        assert before[..i + 1] == chunks[..i + 1] && before[..i] == chunks[..i];
      }
      assert chunks[..|chunks|] == chunks;
    }
  }

  /** Sums of a longer prefix are never smaller. */
  lemma {:induction false} SumPrefixMonotone(chunks: seq<nat>, i: nat, j: nat)
    requires i <= j <= |chunks|
    ensures Sum(chunks[..i]) <= Sum(chunks[..j])
    decreases j - i
  {
    if i < j {
      SumPrefixMonotone(chunks, i, j - 1);
      assert chunks[..j][..j - 1] == chunks[..j - 1];
    }
  }

  /** When every chunk carries bytes, only the first broadcast has `firstSend` set. */
  lemma OnlyFirstChunkIsFirst(userId: int, room: Option<string>, fileSize: int, chunks: seq<nat>)
    requires forall i :: 0 <= i < |chunks| ==> chunks[i] > 0
    ensures forall i :: 0 <= i < |chunks| ==> (ProgressOf(userId, room, fileSize, chunks)[i].firstSend <==> i == 0)
  {
    ProgressReportsRunningSum(userId, room, fileSize, chunks);
    forall i | 0 < i < |chunks|
      ensures Sum(chunks[..i]) > 0
    {
      SumPrefixMonotone(chunks, 1, i);
      assert chunks[..1][..0] == [];
    }
    assert chunks[..0] == [];
  }

  /**
   * One upload request: the closure state of the `/uploadfile` handler.
   * `listening` is false when the metadata check refused the file and no
   * request handlers were attached.
   */
  class Upload {
    const userId: int
    const room: Option<string>
    const fileName: string
    const fileSize: int
    const listening: bool
    var uploadedSize: int
    var reply: Option<Reply>
    var streamEnded: bool
    /** The chunk lengths written to the file stream. */
    ghost var chunks: seq<nat>
    /** The `receiveFile` broadcasts so far. */
    ghost var broadcasts: seq<Progress>

    /** While data flows, the counter and the broadcasts follow the chunks. */
    ghost predicate Valid()
      reads this
    {
      && uploadedSize == Sum(chunks)
      && (listening ==> |broadcasts| >= |chunks| && broadcasts[..|chunks|] == ProgressOf(userId, room, fileSize, chunks))
      && (!listening ==> chunks == [] && broadcasts == [])
    }

    /** The synchronous part of the handler: check the metadata, refuse or start listening. */
    constructor (userId: int, room: Option<string>, fileName: string, fileSize: int, errors: seq<string>)
      ensures this.userId == userId && this.room == room && this.fileName == fileName && this.fileSize == fileSize
      ensures listening <==> |errors| == 0
      ensures reply == (if |errors| > 0 then Some(Refused) else None)
      ensures streamEnded <==> |errors| > 0
      ensures uploadedSize == 0 && chunks == [] && broadcasts == []
      ensures Valid()
    {
      this.userId := userId;
      this.room := room;
      this.fileName := fileName;
      this.fileSize := fileSize;
      uploadedSize := 0;
      chunks := [];
      broadcasts := [];
      if |errors| > 0 {
        listening := false;
        reply := Some(Refused);
        streamEnded := true;
      } else {
        listening := true;
        reply := None;
        streamEnded := false;
      }
    }

    /** The `data` handler: add the chunk's byte length and report the progress. */
    method OnData(byteLength: nat)
      requires Valid() && |broadcasts| == |chunks|
      modifies this
      ensures Valid() && |broadcasts| == |chunks|
      ensures listening ==>
        chunks == old(chunks) + [byteLength] && uploadedSize == old(uploadedSize) + byteLength
          && broadcasts == old(broadcasts)
               + [Progress(userId, room, old(uploadedSize) + byteLength, fileSize, old(uploadedSize) == 0)]
      ensures !listening ==> chunks == old(chunks) && broadcasts == old(broadcasts) && uploadedSize == old(uploadedSize)
      ensures reply == old(reply) && streamEnded == old(streamEnded)
    {
      if listening {
        var first := uploadedSize == 0;
        uploadedSize := uploadedSize + byteLength;
        broadcasts := broadcasts + [Progress(userId, room, uploadedSize, fileSize, first)];
        chunks := chunks + [byteLength];
        assert chunks[..|chunks| - 1] == old(chunks);
        assert broadcasts[..|chunks|] == broadcasts;
      }
    }

    /** The `end` handler: report the whole size as uploaded, answer with the file name, close the stream. */
    method OnEnd()
      requires Valid()
      modifies this
      ensures Valid()
      ensures listening ==>
        broadcasts == old(broadcasts) + [Progress(userId, room, fileSize, fileSize, false)]
          && reply == Some(Accepted(fileName)) && streamEnded
      ensures !listening ==> broadcasts == old(broadcasts) && reply == old(reply) && streamEnded == old(streamEnded)
      ensures chunks == old(chunks) && uploadedSize == old(uploadedSize)
    {
      if listening {
        broadcasts := broadcasts + [Progress(userId, room, fileSize, fileSize, false)];
        assert broadcasts[..|chunks|] == old(broadcasts)[..|chunks|];
        reply := Some(Accepted(fileName));
        streamEnded := true;
      }
    }

    /** The `close` handler: the transfer was aborted; close the stream. */
    method OnClose()
      modifies this
      ensures listening ==> streamEnded
      ensures !listening ==> streamEnded == old(streamEnded)
      ensures reply == old(reply) && chunks == old(chunks) && broadcasts == old(broadcasts)
      ensures uploadedSize == old(uploadedSize)
    {
      if listening {
        streamEnded := true;
      }
    }
  }
}
