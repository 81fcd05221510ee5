# HD-chat room and presence state, in Dafny

This project models the core of the HD-chat server: a socket.io chat in which
users join rooms, exchange messages and files, and whose rooms disappear once
no member is online. It covers four JavaScript files.

- `app/websocket.js`. Two pieces of process-wide state: the presence table
  `connectedUsers` (socket id to `{id, name, status, isIdle}`) and the ordered
  room list `rooms` (`{name, userIds, starter}`). The event handlers change
  them. This becomes the class `ChatSocket.ChatServer`: `connectedUsers` is a
  `map` field, `rooms` is a `seq` field, and every handler is a method with
  `modifies this`. Outgoing socket.io traffic (emits, joins, leaves) and
  storage requests (`deleteFile`, `setMessage`, `setFile`) are appended to two
  ghost logs, `transport` and `storage`, instead of being sent.
- The pure meaning of the room operations (`roomUpdate`, `roomGarbageCollect`,
  room lookup) is in module `ChatState`, as functions on sequences of rooms.
  The class's loops are proved against those functions, and the lemmas about
  garbage collection, membership and duplicate-freedom are proved there too.
- `app/public/js/hd/hd.math.js`, module `HdMath`: the array-as-set helpers
  `union` (in place), `intersection`, `difference`, `equal` (sorts both
  arguments in place) and `isPointInsideRectangle` over integers.
- `app/public/js/hd/hd.utility.js`, module `HdUtility`: `switching`,
  `fillZero`, `reverse`, `removePrefix`, `validateEmail`, `inArray`,
  `indexOf`, `addByVal`, `removeByVal`, `rotate` and `partialMatch`.
- `app/routes/chat.js`, module `ChatRoutes`:
  - the `userRestriction` permission rule, with the room list and the
    configured `maxUsers` passed in;
  - the condition that decides whether `/file/:room/:fileName` serves a file;
  - the `/uploadfile` handler as the class `ChatRoutes.Upload`, whose `data`,
    `end` and `close` listeners update the `uploadedSize` counter kept across
    chunks.

A JavaScript array that a helper mutates and returns (`union`, `equal`,
`addByVal`) is modelled as a `JsArray.ArrayRef`, an object holding a `seq`, so
that "returns the same array" and "changes it in place" can both be stated.

Where the code behaves differently from its documentation, the model follows
the code:

- `roomGarbageCollect` removes rooms with `splice` inside `forEach`. The room
  that shifts into a removed slot is not examined in that pass
  (`ChatState.SweepSkipsShiftedRoom`). So a pass over only collectible rooms
  removes half of them (`ChatState.SweepAllCollectibleKeepsHalf`), and a
  disconnect can leave behind a room that has no online member and still
  lists the departed user (`ChatState.RemoveEverywhereMissesShiftedRoom`).
- `roomUpdate` with a falsy room name walks the live `rooms` array. Each
  call for one room may collect several rooms, so later rooms can shift down
  by one or more places and be skipped.
- A room named "" is itself falsy. Visiting it runs the all-rooms pass again,
  nested, on the array as it is now
  (`ChatState.RemoveEverywhereNestsAtEmptyName`). The nested pass replays the
  outer one step for step only when the array is still the one the outer
  pass started from; only then does the recursion have no end. The model
  reports that case as `aborted`. Every other nested pass ends, because each
  change lowers `ChatState.Remaining`.
- `userRestriction`:
  - An operation other than `'create'` or `'add'` leaves `userIdSet`
    undefined. Reading its size (when `maxUsers` is set), or spreading it,
    throws before any promise exists.
  - A rejected forbiddens lookup is caught and only logged. The promise then
    resolves to `undefined` rather than to the permission, modelled as
    `Resolves(None)`.
- The file route reads `currentRoom.userIds` without checking that the room
  exists, but only after checking that the file is present and not deleted.
  For an unknown room with a present, undeleted file, the promise callback
  throws; the `catch` only logs it, and no response is sent (`Fails`). With
  a missing or deleted file the request passes on, whatever the room.
- `removeByVal` calls `slice` where `splice` is meant, so it never removes
  anything. It is listed under Findings.

## Model

| member | source | states |
|---|---|---|
| ChatState.FindRoom | app/websocket.js:108-110 | `findIndex` by name: a found index holds a room with that name |
| ChatState.FindRoomFirst | app/websocket.js:108-110 | the found room is the first with that name; nothing is found exactly when no room has the name |
| ChatState.FindRoomAppend | app/websocket.js:108-110 | rooms appended at the end are found only when no earlier room has the name, at their shifted index |
| ChatState.FindRoomSameNames | app/websocket.js:108-110 | the lookup depends only on the rooms' names, so changing members never changes what is found |
| ChatState.Sweep | app/websocket.js:70-89 | one garbage-collection pass: kept and removed rooms together are exactly as many as the input |
| ChatState.WithMembers | app/websocket.js:112-124 | the room at the index gets the new member list and keeps its other fields; every other room is unchanged; the list keeps its length |
| ChatState.UpdateNamed | app/websocket.js:107-125 | `roomUpdate` on a named room: an unknown name changes nothing; `add` never removes a room and keeps the count |
| ChatState.UpdateEvery | app/websocket.js:101-106 | the walk over the live array, nesting a new walk at a room named "": never grows the list or what is left to change; with `add` removes nothing and keeps the count |
| ChatState.UpdateNamedShrinks | app/websocket.js:107-125 | a named update either leaves the rooms exactly as they were or lowers what is left to change, which is why nested walks end |
| ChatState.UpdateEveryVisit | app/websocket.js:101-105 | after a named room the updated array still meets the measure's requirement (it is the entry array or has a smaller `Remaining`), so the walk can go on at the next position of the updated array |
| ChatState.UpdateRooms | app/websocket.js:98-126 | `roomUpdate`: only a falsy name can recurse without end; a named room that does not exist leaves everything unchanged |
| ChatState.SweepPartition | app/websocket.js:70-89 | the rooms kept and the rooms removed together are, as a multiset, the rooms before the pass |
| ChatState.SweepRemovesOnlyCollectible | app/websocket.js:71-72 | every removed room has no members or no online member |
| ChatState.SweepKeepsLiveRooms | app/websocket.js:71-72 | a room with an online member is never removed |
| ChatState.SweepKeepsOrder | app/websocket.js:87 | surviving rooms keep their relative order |
| ChatState.SweepRemovedInOrder | app/websocket.js:73-87 | rooms are removed, and their files deleted, in list order |
| ChatState.SweepNothingCollectible | app/websocket.js:70-89 | when every room has an online member the pass changes nothing |
| ChatState.SweepAllCollectibleKeepsHalf | app/websocket.js:70-89 | when every room is collectible, `splice` inside `forEach` leaves half of them (rounded down) |
| ChatState.SweepSkipsShiftedRoom | app/websocket.js:70-89 | of two collectible rooms, the second shifts into the freed slot and survives the pass |
| ChatState.UpdateNamedAdd | app/websocket.js:112-116 | `add` on an existing room appends the id only when it is absent; no other room changes; no collection runs |
| ChatState.UpdateNamedAddIdempotent | app/websocket.js:112-116 | a second `add` of the same id changes nothing |
| ChatState.UpdateNamedRemove | app/websocket.js:118-124 | `remove` takes out the first occurrence of the id and then always collects; an absent id only collects |
| ChatState.UpdateNamedRemovesOnlyCollectible | app/websocket.js:107-125 | a named update removes only collectible rooms |
| ChatState.UpdateEveryRemovesOnlyCollectible | app/websocket.js:101-106 | the walk over all rooms removes only collectible rooms |
| ChatState.UpdateRoomsRemovesOnlyCollectible | app/websocket.js:98-126 | `roomUpdate` in any form removes only collectible rooms |
| ChatState.SweepKeepsHost | app/websocket.js:70-89 | a room with a given name that holds an online member still exists, with that member, after collection |
| ChatState.UpdateNamedKeepsHost | app/websocket.js:107-125 | updating some user's membership keeps every other online member in its rooms |
| ChatState.UpdateEveryKeepsHost | app/websocket.js:101-106 | the same for the walk over all rooms |
| ChatState.UpdateRoomsKeepsLiveRooms | app/websocket.js:98-126 | `roomUpdate` never drops a room, or a membership, of another online user |
| ChatState.SweepKeepsDistinct | app/websocket.js:70-89 | collection keeps every member list free of duplicates |
| ChatState.UpdateNamedKeepsDistinct | app/websocket.js:107-125 | `add` and `remove` keep every member list free of duplicates |
| ChatState.UpdateEveryKeepsDistinct | app/websocket.js:101-106 | so does the walk over all rooms |
| ChatState.UpdateRoomsKeepsDistinct | app/websocket.js:98-126 | so does `roomUpdate` in any form |
| ChatState.RemoveMemberKeepsOthersOnline | app/websocket.js:118-121 | taking the user out of one room leaves every room's other online members in place |
| ChatState.OthersOnlineNothingCollectible | app/websocket.js:70-71 | a room listing an online member is not collectible |
| ChatState.RemoveMemberKeepsShape | app/websocket.js:118-121 | the removal keeps names and duplicate-free lists, and leaves the user absent from that room and all earlier ones |
| ChatState.UpdateNamedRemoveCollectsNothing | app/websocket.js:112-124 | when every room has another online member, a named removal changes only that room, takes the user out of it and collects nothing |
| ChatState.UpdateEveryRemoveReachesAll | app/websocket.js:101-106 | with distinct non-empty names, duplicate-free lists and another online member in every room, `remove` from every room leaves the id in no room, removes no room, keeps the length and does not recurse without end |
| ChatState.RemovedEverywhereStep | app/websocket.js:101-106 | when the pass from the next position on completes with the user in no room and nothing collected, and the named step collected nothing, the same holds from this position |
| ChatState.UpdateRoomsRemoveReachesAll | app/websocket.js:101-106 | the same for `roomUpdate('remove', null, userId)`, the call a disconnect makes |
| ChatState.UpdateEveryAddReachesAll | app/websocket.js:101-106 | with distinct non-empty names, `add` to every room puts the id in every room, removes none and does not recurse without end |
| ChatState.RemoveEverywhereMissesShiftedRoom | app/websocket.js:101-106 | removing the last member from rooms "a" and "b" deletes "a" and leaves "b" in place, because it shifted |
| ChatState.RemoveEverywhereNestsAtEmptyName | app/websocket.js:101-106 | with rooms "x" (user 1), "y" (empty) and "" (online user 2), removing user 1 everywhere nests one walk at "", deletes "x" and "y", keeps "" and ends normally |
| ChatState.Falsy | app/websocket.js:101 | definition: `!roomName` holds for a missing name and for "" |
| ChatState.OnlineIds | app/websocket.js:67-69 | definition: the ids of the presences in `connectedUsers` (`ChatServer.OnlineUserIds` computes them) |
| ChatState.Collectible | app/websocket.js:71 | definition: no member, or no member online (`ChatServer.IsCollectible` shows it is the source's intersection test) |
| ChatSocket.DeleteRequests | app/websocket.js:73 | one `deleteFile` request per removed room |
| ChatSocket.DeleteRequestsNames | app/websocket.js:73 | the j-th request deletes the files of the j-th removed room, by its name |
| ChatSocket.DeleteRequestsAppend | app/websocket.js:73 | the requests of two batches are the two batches' requests in sequence |
| ChatSocket.StorageAppend | app/websocket.js:73 | requests of a later batch extend the storage log after those of the earlier batches |
| ChatSocket.Reattach | app/websocket.js:152 | `Object.assign` marks each room the user belongs to with `joinedUserId` and leaves the rest alone |
| ChatSocket.ReattachKeepsMembership | app/websocket.js:150-157 | a connection changes no room's name, members or starter |
| ChatSocket.JoinOps | app/websocket.js:150-157 | at most two operations per room, each a join of the connecting socket or a `roomJoined` broadcast |
| ChatSocket.JoinOpsJoinsMemberRooms | app/websocket.js:150-157 | the connecting socket joins a room exactly when the user is a member of it |
| ChatSocket.CreatedDuplicateIsShadowed | app/websocket.js:179-183 | a created room whose name already exists is stored but can never be found by name |
| ChatSocket.CreatedFreshIsFound | app/websocket.js:179-183 | a created room with a new name is found at the end of the list |
| ChatSocket.ChatServer.constructor | app/websocket.js:28-42 | the server starts with no users, no rooms and empty logs |
| ChatSocket.ChatServer.GetRoom | app/websocket.js:49-53 | the first room with the given name, or nothing when none matches or no name is given |
| ChatSocket.ChatServer.OnlineUserIds | app/websocket.js:67-69 | one id per connected socket, and the collected ids are exactly the user ids in `connectedUsers` |
| ChatSocket.ChatServer.RoomGarbageCollect | app/websocket.js:59-90 | `rooms` becomes what the pass keeps, and one `deleteFile` request is logged per removed room; presence and transport unchanged |
| ChatSocket.ChatServer.CollectAt | app/websocket.js:71-88 | one `forEach` step: the room at the index is removed, with its delete request, exactly when it is collectible |
| ChatSocket.ChatServer.IsCollectible | app/websocket.js:71-72 | the room is collectible exactly when it has no members or shares none with the online ids |
| ChatSocket.ChatServer.RoomUpdateNamed | app/websocket.js:107-125 | the state after `roomUpdate` on a named room is the named update of the old rooms, with delete requests for the rooms it removed |
| ChatSocket.ChatServer.AddMember | app/websocket.js:112-116 | the room at the index gets the id pushed when it is absent; every other room and all logs are unchanged |
| ChatSocket.ChatServer.RemoveMember | app/websocket.js:118-122 | the room at the index loses the first occurrence of the id; every other room and all logs are unchanged |
| ChatSocket.ChatServer.RoomUpdate | app/websocket.js:98-126 | the state after `roomUpdate` is `UpdateRooms` of the old rooms, including whether it recursed without end |
| ChatSocket.ChatServer.RoomUpdateEvery | app/websocket.js:101-106 | the walk over the live array, with its nested walks, ends in the state `UpdateEvery` describes |
| ChatSocket.ChatServer.VisitAt | app/websocket.js:102-104 | one room of the walk: the walk either goes on at the next position towards the same final state, or has recursed without end |
| ChatSocket.ChatServer.VisitRoom | app/websocket.js:102-104 | a named room of the walk: the array does not grow and the walk goes on at the next position towards the same final state |
| ChatSocket.ChatServer.VisitEmptyName | app/websocket.js:101-104 | a room named "" after the array changed: the nested walk runs to its end, then the outer walk goes on towards the same final state |
| ChatSocket.ChatServer.OnConnection | app/websocket.js:132-158 | without a login nothing is stored; with one, the presence `{id, name, "on", false}` is stored under the socket, the user's rooms are re-attached and joined, and the two emits are logged |
| ChatSocket.ChatServer.RejoinRooms | app/websocket.js:150-157 | re-attaches the user to each member room and logs a join and an emit per member room, in order |
| ChatSocket.ChatServer.OnDisconnect | app/websocket.js:161-170 | an unknown socket changes nothing; a known one loses its presence first, then its user is removed from every room with collection computed without that user; when every room has another online member and names are proper, UpdateRoomsRemoveReachesAll shows the user ends in no room and no room is collected |
| ChatSocket.ChatServer.OnStatusChanged | app/websocket.js:173-176 | the whole presence table is replaced and the change is broadcast to the others |
| ChatSocket.ChatServer.OnRoomCreated | app/websocket.js:179-183 | the room is appended at the end without a uniqueness check; the creator joins it and the others are told |
| ChatSocket.ChatServer.OnRoomJoin | app/websocket.js:186-188 | only subscribes the socket; no room's members change |
| ChatSocket.ChatServer.OnRoomLeave | app/websocket.js:191-201 | membership is removed whether or not `silent` is set; `silent` only suppresses the announcement |
| ChatSocket.ChatServer.OnRoomForceJoin | app/websocket.js:204-211 | adds the user to the room, or to every room when no name is given; nothing is removed or deleted |
| ChatSocket.ChatServer.OnRoomForceLeave | app/websocket.js:214-221 | removes the user from the room, or from every room, collects, and announces the updated room; for every room, UpdateRoomsRemoveReachesAll gives the user in no room when each room keeps another online member |
| ChatSocket.ChatServer.OnSendMessage | app/websocket.js:224-232 | relays the message to the room and requests a save only when the sender's data is present |
| ChatSocket.ChatServer.OnSendFile | app/websocket.js:235-246 | relays the file to the room and requests a save only when the sender's data is present |
| ChatSocket.ChatServer.OnTypeMessage | app/websocket.js:249-251 | relays the typing notice to the room and changes no state |
| HdMath.Common | app/public/js/hd/hd.math.js:111-120 | the elements of A that occur in B; never longer than A |
| HdMath.Outside | app/public/js/hd/hd.math.js:128-137 | the elements of A that do not occur in B; never longer than A |
| HdMath.Merged | app/public/js/hd/hd.math.js:94-103 | A followed by some of B's elements; at least as long as A, at most A and B together |
| HdMath.SortAscending | app/public/js/hd/hd.math.js:150-151 | a sorted permutation of its input |
| HdMath.Insert | app/public/js/hd/hd.math.js:150-151 | inserting into a sorted list adds exactly that element |
| HdMath.InsertAscending | app/public/js/hd/hd.math.js:150-151 | inserting into a sorted list keeps it sorted |
| HdMath.Union | app/public/js/hd/hd.math.js:94-103 | mutates A in place, appending what B adds, and returns A itself |
| HdMath.Intersection | app/public/js/hd/hd.math.js:111-120 | returns the common elements, and is empty exactly when no element of A is in B |
| HdMath.Difference | app/public/js/hd/hd.math.js:128-137 | returns the elements of A absent from B, in A's order |
| HdMath.Equal | app/public/js/hd/hd.math.js:145-155 | true for the same array; otherwise true exactly when the arrays hold the same elements; arrays of equal length are left sorted in place |
| HdMath.SameEntries | app/public/js/hd/hd.math.js:150-153 | the elementwise comparison of equally long arrays holds exactly when they are equal |
| HdMath.CommonCount | app/public/js/hd/hd.math.js:111-120 | every element of A in B keeps its multiplicity from A; the others vanish |
| HdMath.CommonMembers | app/public/js/hd/hd.math.js:111-120 | an element is in the intersection exactly when it is in both arrays |
| HdMath.CommonEmpty | app/public/js/hd/hd.math.js:111-120 | the intersection is empty exactly when the arrays share no element |
| HdMath.CommonAppend | app/public/js/hd/hd.math.js:111-120 | the intersection walks A in order: it distributes over concatenating A |
| HdMath.CommonOutsidePartition | app/public/js/hd/hd.math.js:111-137 | intersection and difference together are A, as a multiset |
| HdMath.OutsideMembers | app/public/js/hd/hd.math.js:128-137 | an element is in the difference exactly when it is in A and not in B |
| HdMath.MergedKeepsPrefix | app/public/js/hd/hd.math.js:94-103 | union leaves A's original elements in front, unchanged |
| HdMath.MergedMembers | app/public/js/hd/hd.math.js:94-103 | an element is in the union exactly when it is in A or in B |
| HdMath.MergedAppendsFresh | app/public/js/hd/hd.math.js:94-103 | the appended elements are distinct and none was already in A |
| HdMath.MergedDistinct | app/public/js/hd/hd.math.js:94-103 | union of a duplicate-free A introduces no duplicates |
| HdMath.SortedUnique | app/public/js/hd/hd.math.js:150-153 | two sorted arrays with the same elements are equal |
| HdMath.SortDeterminedByElements | app/public/js/hd/hd.math.js:145-155 | the sorted arrays agree exactly when the inputs hold the same elements |
| HdMath.IsPointInsideRectangle | app/public/js/hd/hd.math.js:204-208 | only a rectangle of positive width and height contains a point |
| HdMath.BorderIsOutside | app/public/js/hd/hd.math.js:204-208 | strict comparisons: a point on the border is outside |
| JsArray.IndexOf | app/public/js/hd/hd.utility.js:495 | `Array.prototype.indexOf`: an index holding the value, or -1 exactly when it is absent |
| JsArray.IndexOfFirst | app/public/js/hd/hd.utility.js:495 | no index before the returned one holds the value |
| JsArray.PushAbsent | app/public/js/hd/hd.utility.js:494-499 | push only if absent: the old array is a prefix, the value is present, at most one element is added |
| JsArray.PushAbsentOnlyAdds | app/public/js/hd/hd.utility.js:494-499 | every element of the result was already there or is the pushed value |
| JsArray.RemoveFirst | app/websocket.js:119-122 | `splice(indexOf(x), 1)`: one element fewer when present, unchanged when absent |
| JsArray.RemoveFirstCount | app/websocket.js:119-122 | as a multiset, exactly one occurrence of the value is taken out, and nothing when it is absent |
| JsArray.PushAbsentIdempotent | app/public/js/hd/hd.utility.js:494-499 | adding the same value twice equals adding it once |
| JsArray.PushAbsentKeepsDistinct | app/public/js/hd/hd.utility.js:494-499 | adding keeps a duplicate-free array duplicate-free |
| JsArray.RemoveFirstAt | app/websocket.js:119-122 | the removal is at the first occurrence; the other elements keep their order |
| JsArray.RemoveFirstDistinct | app/websocket.js:119-122 | in a duplicate-free array the value is gone afterwards |
| JsArray.RemoveFirstLeavesDuplicate | app/websocket.js:119-122 | only the first occurrence is removed: `[x, x]` becomes `[x]` |
| HdUtility.Switching | app/public/js/hd/hd.utility.js:55-63 | the value related to the key, or the default when no key equals it |
| HdUtility.DecimalText | app/public/js/hd/hd.utility.js:108 | `toString` of an integer: non-empty, digits only for non-negative numbers, a leading minus exactly for negative ones |
| HdUtility.DecimalTextValue | app/public/js/hd/hd.utility.js:108 | the digits read back give the number |
| HdUtility.FillZero | app/public/js/hd/hd.utility.js:106-114 | the length is the larger of `len` and the digit count; the result ends with the original text, preceded only by zeros |
| HdUtility.FillZeroKeepsValue | app/public/js/hd/hd.utility.js:106-114 | padding a non-negative number does not change the value its digits denote |
| HdUtility.Reverse | app/public/js/hd/hd.utility.js:251-255 | same length, the i-th character from the front is the i-th from the back |
| HdUtility.ReverseInvolution | app/public/js/hd/hd.utility.js:251-255 | reversing twice gives back the string |
| HdUtility.ReverseAppend | app/public/js/hd/hd.utility.js:251-255 | the reverse of a concatenation is the reversed parts in swapped order |
| HdUtility.FirstOccurrence | app/public/js/hd/hd.utility.js:264 | the first position at which the separator occurs, or none |
| HdUtility.Split | app/public/js/hd/hd.utility.js:264 | `split` with a non-empty separator always yields at least one piece |
| HdUtility.Chars | app/public/js/hd/hd.utility.js:252 | `split('')`: one single-character piece per character |
| HdUtility.Join | app/public/js/hd/hd.utility.js:266 | `join` begins with the first piece |
| HdUtility.SplitJoin | app/public/js/hd/hd.utility.js:264-266 | joining the pieces of a split with the same separator gives back the string |
| HdUtility.JoinChars | app/public/js/hd/hd.utility.js:252-254 | joining single characters with `''` gives back the string |
| HdUtility.RemovePrefix | app/public/js/hd/hd.utility.js:263-267 | what is left is a suffix of the string: `removePrefix` only cuts from the front |
| HdUtility.RemovePrefixSplit | app/public/js/hd/hd.utility.js:263-267 | dropping the first piece and re-joining leaves the text after the first separator, or "" without one |
| HdUtility.RemovePrefixAfterSeparator | app/public/js/hd/hd.utility.js:263-267 | `removePrefix` is the text after the first occurrence of the separator, and "" when it does not occur |
| HdUtility.RemovePrefixEmptySeparator | app/public/js/hd/hd.utility.js:263-267 | with an empty separator the first character is dropped |
| HdUtility.RemovePrefixRejoins | app/public/js/hd/hd.utility.js:263-267 | the prefix, the separator and the result make up the whole string |
| HdUtility.LastIndexOf | app/public/js/hd/hd.utility.js:275 | the last position holding the character, or -1 when it is absent |
| HdUtility.ValidateEmail | app/public/js/hd/hd.utility.js:274-276 | acceptance means the shape local part, `@`, domain, `.`, lower-case suffix holds at the first `@` and the last `.` |
| HdUtility.ValidateEmailMatchesPattern | app/public/js/hd/hd.utility.js:275 | accepted exactly when some split of the string matches the regular expression |
| HdUtility.ValidateEmailRejectsUpperCase | app/public/js/hd/hd.utility.js:275 | the pattern is case-sensitive: "A@b.cd" is refused |
| HdUtility.ValidateEmailAcceptsLowerCase | app/public/js/hd/hd.utility.js:275 | the same address in lower case, "a@b.cd", is accepted |
| HdUtility.InArray | app/public/js/hd/hd.utility.js:455-469 | true exactly when the haystack is given and holds the needle |
| HdUtility.IndexOfBy | app/public/js/hd/hd.utility.js:478-486 | the least index whose element the comparer accepts, or -1 when it accepts none |
| HdUtility.AddByVal | app/public/js/hd/hd.utility.js:494-499 | pushes the value in place only when absent and returns the same array |
| HdUtility.RemoveByVal | app/public/js/hd/hd.utility.js:507-513 | as written: returns the same array with the same contents, so the value is still there |
| HdUtility.RemoveByValSpliced | app/public/js/hd/hd.utility.js:507-513 | as intended: removes the first occurrence of the value in place and returns the same array |
| HdUtility.Rotated | app/public/js/hd/hd.utility.js:522-532 | an empty array has no result; otherwise one row per column of the first row, each with one cell per row of the input |
| HdUtility.Rotate | app/public/js/hd/hd.utility.js:522-532 | the nested loops build exactly the transposed grid `Rotated` describes |
| HdUtility.Present | app/public/js/hd/hd.utility.js:528 | the values of a grid whose every cell is defined, cell by cell |
| HdUtility.Defined | app/public/js/hd/hd.utility.js:528 | a grid viewed as all-defined cells, cell by cell |
| HdUtility.RotateRectangularTwice | app/public/js/hd/hd.utility.js:522-532 | an m×n array rotates to n×m with `rotated[i][j] == arr[j][i]`, and rotating back gives the original |
| HdUtility.RotateJaggedRow | app/public/js/hd/hd.utility.js:522-532 | a short later row gives `undefined` cells, and columns beyond the first row are dropped |
| HdUtility.PartialMatch | app/public/js/hd/hd.utility.js:580-589 | true exactly when every key of the full object that the partial object defines has the same value in both |
| HdUtility.PartialMatchSymmetric | app/public/js/hd/hd.utility.js:580-589 | agreement on shared keys does not depend on which object is the partial one |
| HdUtility.PartialMatchIgnoresExtraKeys | app/public/js/hd/hd.utility.js:581-582 | keys only the partial object has are never examined |
| ChatRoutes.IdSet | app/routes/chat.js:37 | `new Set([...ids])`: exactly the ids, each once |
| ChatRoutes.CountedIds | app/routes/chat.js:36-41 | `create` counts the given ids and the trigger user; `add` counts the given ids and the room's members; any other operation counts nothing |
| ChatRoutes.UserRestriction | app/routes/chat.js:28-54 | throws for another operation, or for `add` to a missing room; a failed lookup resolves to undefined; otherwise permission is false exactly when `maxUsers` is non-zero and the set of counted ids exceeds it |
| ChatRoutes.RestrictionMonotone | app/routes/chat.js:36-44 | once a request is refused, asking for more users is refused too |
| ChatRoutes.CreateCountsTriggerOnce | app/routes/chat.js:36-37 | a trigger user already listed is counted once |
| ChatRoutes.RestrictionLimitExample | app/routes/chat.js:36-44 | with limit 2, creating with one other user or with duplicates of it is allowed, with two others refused; limit 0 allows all |
| ChatRoutes.FileAccess | app/routes/chat.js:170-191 | served exactly when the file exists, is not deleted, the session has a user and that user is a member of the first room with that name; an unknown room with a present, undeleted file makes the handler throw, and with a missing or deleted file the request passes on |
| ChatRoutes.FileAccessNeedsLogin | app/routes/chat.js:175-179 | without a session login no file is served |
| ChatRoutes.ProgressOf | app/routes/chat.js:213-230 | one progress broadcast per chunk |
| ChatRoutes.ProgressReportsRunningSum | app/routes/chat.js:215-228 | the i-th broadcast reports the sum of the first i+1 chunks, the declared file size, and `firstSend` exactly when nothing was counted before it |
| ChatRoutes.SumPrefixMonotone | app/routes/chat.js:216 | the reported upload size never decreases |
| ChatRoutes.OnlyFirstChunkIsFirst | app/routes/chat.js:215 | with non-empty chunks only the first broadcast has `firstSend` |
| ChatRoutes.Upload.constructor | app/routes/chat.js:196-211 | with check errors the reply is `success: false`, the stream is ended and no listener is registered; otherwise the counter starts at 0 |
| ChatRoutes.Upload.OnData | app/routes/chat.js:213-230 | adds the chunk's length to the counter and broadcasts the running sum, with `firstSend` when the counter was 0 |
| ChatRoutes.Upload.OnEnd | app/routes/chat.js:231-245 | broadcasts the declared size as both uploaded and total size with `firstSend` false, replies with the file name and ends the stream |
| ChatRoutes.Upload.OnClose | app/routes/chat.js:246-249 | ends the stream and changes nothing else |

## Left out

- The socket.io transport is not modelled: namespaces, `socket.join`/`leave`,
  the broadcast flags and the session middleware (app/websocket.js:128-129).
  Every emit, join and leave is recorded in the ghost log `transport`, by
  event name, audience and attached room. The rest of each payload (the
  reduced user data, the message body, `triggerId`) is not recorded.
- Persistence is asynchronous and foreign. `Model.deleteFile`, `setMessage`
  and `setFile`, and the filesystem calls behind them, appear only as entries
  in the ghost log `storage`. Their callbacks and failures are not modelled.
- `ChatState.UpdateEvery` reports `aborted` where the source recurses without
  end: a room named "" reached while the array is still the one the walk
  started from. The stack overflow that ends the source's recursion, and
  what the handlers would have done after it, are not modelled.
- `OnSendMessage` and `OnSendFile` take the sender's presence as a
  parameter. When it is missing, the real save throws on `userData.id`; the
  model records no save in that case, and the throw is not modelled.
- `HdMath.Equal` sorts numerically. JavaScript's default `sort` compares the
  elements' strings, so `[10, 9]` is sorted as `[10, 9]`. For arrays of equal
  length the verdict is the same, because both arrays are sorted by the same
  order; the order left in the arrays can differ.
- `HdMath.SortAscending` stands for `A.sort()` (hd.math.js:150-151) but sorts
  numerically, not by the elements' strings; the string order is not
  modelled.
- `HdMath.Insert` is the insertion step of that numeric sort, not of
  JavaScript's string sort.
- `HdMath.InsertAscending` proves sortedness in numeric order only; the
  string order `A.sort()` uses is not modelled.
- `HdMath.IsPointInsideRectangle` takes integer coordinates. JavaScript
  numbers can be fractional, so a 1×1 rectangle at the origin contains
  (0.5, 0.5); fractions and NaN are not modelled.
- `HdMath` models the set helpers on arrays of values with `===` equality.
  NaN and mixed-type arrays are not covered.
- `HdUtility.DecimalText` writes every integer in plain digits. JavaScript's
  `toString` uses exponent notation from a magnitude of 10^21 on
  (`(1e21).toString()` is `"1e+21"`); such integers are not covered.
- `HdUtility.FillZero` covers integers of magnitude below 10^21. The exponent
  notation and fractions that `toString` produces for other numbers are not
  modelled.
- `HdUtility.Reverse` works on Unicode scalar values, because a Dafny string
  is a sequence of them. JavaScript's `split('')` splits UTF-16 code units,
  so `reverse("a😀")` breaks the surrogate pair, where the model gives
  `"😀a"`. The same holds for `HdUtility.Chars` and for
  `HdUtility.RemovePrefix` with the separator "". Strings inside the Basic
  Multilingual Plane behave alike.
- `HdUtility.RemovePrefixEmptySeparator` drops the first scalar value.
  JavaScript drops the first UTF-16 code unit, which leaves a lone surrogate
  when the string starts with a character outside the Basic Multilingual
  Plane.
- `HdUtility.PartialMatch` treats a key that the partial object maps to
  `undefined` as absent, and looks only at the full object's own enumerable
  keys. Maps stand for both objects, so prototype properties are not modelled.
- `HdUtility.Switching` does not model inherited enumerable properties, which
  `for … in` would also visit. Its `variable` is a string, so the case of a
  non-string, which never equals a key and returns the default, is not
  modelled. The default value is a required argument; the source's
  `defaultValue = null` default is not modelled.
- `HdUtility.Rotate` returns None where `arr[0].length` would throw on an
  empty array.
- `HdUtility.IndexOfBy` and `HdUtility.InArray` are not modelled on sparse
  arrays, where `i in arr` fails for a hole.
- The `/uploadfile` handler:
  - Its header parsing (`JSON.parse`, `decodeURIComponent`, `Number`) is left
    out.
  - So are the `fileCheck` rules: the check's errors are a parameter.
  - The `req.xhr` guard is left out; a non-XHR request receives no answer.
  - The file stream's writes are not recorded.
- `ChatRoutes.FileAccess` models the decision after `ChatModel.getFile`
  resolves. A rejected lookup is only logged by the handler and is not
  modelled, and neither is `res.sendFile` resolving the path.
- `ChatRoutes.UserRestriction` takes `CHAT.Config.room.maxUsers` as a number
  (0 when unset) and the outcome of `UserModel.getUserForbiddens` as a flag.
  The lookup's result is ignored by the source, so it is not modelled.
- The following are outside the core and not modelled:
  - From hd.math.js:
    - `rand` (randomness);
    - `_decimalAdjust`, `round`, `floor`, `ceil`, `distance`,
      `getAbsoluteCoords` (floating point);
    - `Animation` (timers).
  - From hd.utility.js:
    - `getUniqueId` and `generate` (clock and randomness);
    - `displaySize` and `recoverSize` (floating point);
    - `urlEncode` (a host function);
    - `createRegExp` and `canonic` (regular-expression construction);
    - `hash` (a stub);
    - `multiParam`;
    - `iterable` (a generator);
    - `defined` and `define` (`typeof` checks);
    - `HD.Object.search`.
  - app/public/js/chat/events.server.js, app/public/js/chat/components.timer.js
    and app/routes/iframe.js are not part of this model.
  - From chat.js: the rendering routes, the log-file appends and the other
    model calls.

## Findings

| source | as written | input that shows it | evidently intended | confidence | as-written member | corrected member |
|---|---|---|---|---|---|---|
| app/public/js/hd/hd.utility.js:507-513 | `arr.slice(index, 1)` builds a copy that is discarded; the array is returned unchanged | `removeByVal([1], 1)` returns `[1]` | `arr.splice(index, 1)`: remove the first occurrence in place, as the doc comment says | not executed | HdUtility.RemoveByVal | HdUtility.RemoveByValSpliced |
