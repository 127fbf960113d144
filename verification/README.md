# Verified models of the lockstep game server and its protocol-buffer runtime

The repository is a lockstep game server. Clients connect over TCP, exchange length-prefixed
messages with a 16-byte big-endian header, gather in rooms, load a game together and then play
it frame by frame: the server collects the messages of each 20 ms frame in a ring and
broadcasts the frames in order. Messages are protocol buffers, and a copy of the protocol-buffer
runtime is part of the repository.

The project models, and proves correct, the parts of it whose correctness cannot be read off one
function body.

| file | component |
|---|---|
| `Message.dfy` | the message header codec and `CMessage` |
| `TcpSocket.dfy` | the non-blocking sender, the compacting receive buffer and the framer |
| `Link.dfy` | the whole transport, end to end |
| `Syn.dfy` | the frame synchroniser: a 64-slot ring refining a map from frames to messages |
| `RoomSpec.dfy`, `RoomRuns.dfy`, `QuietRoom.dfy`, `RoomInputs.dfy`, `Room.dfy` | the waiting, loading and in-game life of a room, with its loading barrier and with sends that fail in the middle of a broadcast |
| `Heartbeat.dfy` | the ordered set and map of last heartbeats, and when a silent client goes |
| `DescriptorIndex.dfy` | the ordered prefix index of symbols |
| `Tables.dfy` | the pool's tables, with nested checkpoints and rollback |
| `FileLoader.dfy` | the recursive file loader of the descriptor pool |
| `PublicDependencies.dfy` | the files usable through public imports |
| `SymbolLookup.dfy` | innermost-scope name resolution |
| `DynamicMessage.dfy` | memory layout of dynamic messages, and prototypes over cyclic types |
| `WireFormat.dfy`, `ExtensionSet.dfy` | extensions: merging, sizes, serializing and parsing |
| `UnknownFields.dfy` | what parsing does with fields and enum numbers it does not know, from the bytes alone |
| `Common.dfy`, `Graph.dfy` | shared types; reachability in a finite graph |

Each stateful component is a class whose methods follow the program's own steps. What its state
means is given by functions with no buffers, rings or journals in them, the methods are proved
against those, and the laws are lemmas about them.

## Where the code and its stated intent differ

Six of the intended laws do not hold of the code as it stands. The models follow the code. Each
failing law has a witness, and the exact condition under which the law does hold is proved.

* **The symbol index.** The header of the index promises that no key is a dotted prefix of
  another. `AddSymbol` breaks this in one case: when every key is greater than the new name, the
  search returns the least key instead of a smaller one, and stepping past it skips the only
  key under the new name. `BlindCaseBreaksLookup` adds `a.b` and then `a`, after which `a.c` is not
  found. `InsertKeepsPrefixFree` and `PrefixFreeExactly` show that this case is the only one, for
  one insertion and over any run of insertions, and `LookupNeedsPrefixFree` that the lookup is
  right on every query exactly when the invariant holds.
* **Self-imports.** A file is entered in the file table (`descriptor.cc`, line 3117) before its
  imports are looked up there (line 3141). A file that imports itself therefore loads, although
  the check for recursive imports means to refuse it, and its name stays in `known_bad_files_`
  (`SelfImportIsLoadable`). `StrictExactly` shows that what is loaded is acyclic exactly when no
  file it reaches imports itself.
* **Frames that cannot be received.** `get_one_message` answers "not yet" for a front frame longer
  than `max_size`, and the receive buffer never holds more than 0x30000 bytes, so a frame longer
  than either blocks its connection for good, unreported. `BlockedFronts` gives an input for each
  limit. `FrontCompletesExactly` shows that a front frame can be completed exactly when its length
  is positive and within both, and `PollBlocked` that a blocked one answers "not yet" in every run.
  Between two ends of this program that use the same message buffer it does not happen
  (`UnreadBytesMakeProgress`).
* **Truncated packed fields.** `PushLimit` silently shortens a packed length that runs past the
  end of the array being parsed, so a packed field cut short can still parse
  (`TruncationGoesUnnoticed`). `CutPackedField` decides every cut: inside the tag, the length or a
  value it is refused, and between two values it parses and the values after the cut are lost.
  `PrefixExactly` decides every prefix of every serialized set in the same way.
* **Full frames.** A frame of the synchroniser holds 32 messages. `OneFrame::Add` refuses the
  next one and `SYN::Add` ignores that, so an accepted message can vanish (`FullFrameDrops`).
  `StoredExactly` and `BroadcastExactly` show that a message is kept and goes out exactly when
  fewer than 32 came for its frame before it, and `Conservation` that nothing else is lost.

* **The loading barrier.** A send that breaks its connection removes its player from inside the
  broadcast that is sending (`message_handler.cpp`, lines 153 to 157), and `DeletePlayer` tells the
  others of a departure before it clears the leaver's flag and counter (`room.cpp`, lines 133 to
  139). The game can then start while someone online is still loading (`EarlyStart`), and start
  twice (`SecondStart`), and a loading phase can begin with nobody left (`EmptyLoading`).
  `DepartureExactly` shows that a departure starts the game early exactly when the players still
  loading, once all have been told, are some and no more than the loaded players whose own departure
  is still being told. `RunIsHandled` shows that over every run an early or second start needs a
  failed send to a player still loading during the departure of a loaded one, and that in every run
  the counters equal their flags, the status never goes back and no start is missed.
  `BeginLoadingExactly` shows that a loading phase waits on someone exactly when anyone is online
  after it has been announced, and `QuietRun` that the barrier holds when no send fails.

`Add` in `syn.cpp` needs a clock that does not go back, frame numbers from 1 on, and a head at most
60 frames behind; it checks none of them, and they are preconditions here. `RingFitsExactly` shows
that the last is exactly what the ring's size allows, and `RecentRunSuffices` that it holds exactly
within 57 frames of the last `Run` or 60 of the start.

## Model

| member | source | states |
|---|---|---|
| `Message.HeadRoundTrip` | Server/Include/CMessage.cpp:60-103 | any header comes back field for field from its bytes, whatever follows them |
| `Message.HeadIsUnique` | Server/Include/CMessage.cpp:60-103 | any 16 bytes are the encoding of the header they decode to, so no two headers share bytes |
| `Message.HeadLayout` | Server/Include/CMessage.cpp:60-103 | length, message id, frame number and hash lie at bytes 0, 4, 8 and 12 of the header, each most significant byte first, negative ones in two's complement |
| `Message.DecodeEncode` | Server/Include/CMessage.cpp:105-141 | every message whose length fits an int decodes to itself with the length field filled in, and that field is the length on the wire |
| `Message.EncodeDecode` | Server/Include/CMessage.cpp:105-141 | whatever decodes is exactly the encoding of the message it decodes to |
| `Message.EncodeHead` | Server/Include/CMessage.cpp:60-67 | writes the four words at the front of the buffer and leaves the rest of it alone |
| `Message.CMessage.EncodeTo` | Server/Include/CMessage.cpp:105-122 | stamps the length, writes exactly the encoding, and writes nothing for a null payload |
| `Message.CMessage.DecodeFrom` | Server/Include/CMessage.cpp:124-141 | succeeds exactly on well-formed input and a non-null payload object, and then holds the decoded message; a failure keeps the payload |
| `TcpSocket.FrontFrameIsStable` | Server/Include/server_tcpsocket.cpp:261-284 | a whole front frame stays the same frame when more bytes arrive |
| `TcpSocket.FrontCompletesExactly` | Server/Include/server_tcpsocket.cpp:118-132 | a front frame of known length can be completed by bytes the buffer still has room for exactly when the length is positive, within max_size and within the buffer |
| `TcpSocket.BlockedFronts` | Server/Include/server_tcpsocket.cpp:267-279 | a concrete front for each of the two limits that no further bytes complete |
| `TcpSocket.FramesOfParts` | Server/Include/server_tcpsocket.cpp:261-284 | cutting a stream into frames does not depend on how it is chunked, for any split of it |
| `TcpSocket.Socket.TryMoveReceDataAhead` | Server/Include/server_tcpsocket.cpp:118-132 | keeps the unread bytes and makes room exactly when the buffer is not full of them |
| `TcpSocket.Socket.RecvData` | Server/Include/server_tcpsocket.cpp:134-166 | appends to the unread bytes exactly what the kernel hands over, and goes on until a call moves nothing or the buffer is full: success exactly when the last call would block, an error exactly when it broke, not-finish exactly when 0x30000 bytes are unread and every call moved some; a closed socket makes no call |
| `TcpSocket.Socket.GetOneMessage` | Server/Include/server_tcpsocket.cpp:261-284 | succeeds exactly when more than 4 bytes are unread and the length in the first four is positive, within max_size and all there; hands out that frame and keeps the rest; reports an error exactly on a non-positive length; otherwise changes nothing |
| `TcpSocket.Socket.ReadAndCut` | Server/Include/server_tcpsocket.cpp:134-284 | after a read that stops on a full buffer, the next cut succeeds exactly when the front length is positive and within max_size and the buffer |
| `TcpSocket.Socket.PollBlocked` | Server/Include/server_tcpsocket.cpp:118-284 | in any interleaving of reads and cuts a blocked front answers fail to every one of the cuts and stays blocked |
| `TcpSocket.Socket.FlushPending` | Server/Include/server_tcpsocket.cpp:183-215 | moves residual bytes to the wire with none lost, added or reordered, until none is left or a call is refused, and reports that call |
| `TcpSocket.Socket.SendDirect` | Server/Include/server_tcpsocket.cpp:227-257 | the stream takes in all of the data on success and a proper prefix on error, an error being exactly a last call that broke; with no call refused nothing is left pending; the branch for data that cannot be kept is unreachable |
| `TcpSocket.Socket.SendBytes` | Server/Include/server_tcpsocket.cpp:181-257 | the stream grows by all of the bytes on success, none on not-finish and a proper prefix on error; which of the three it is follows from the last call and the room left, as for SendData |
| `TcpSocket.Socket.StoreOrRefuse` | Server/Include/server_tcpsocket.cpp:203-213 | behind residual bytes the data is kept whole, or refused whole exactly when both together exceed 0x30000 |
| `TcpSocket.Socket.SendFlushed` | Server/Include/server_tcpsocket.cpp:217-257 | with nothing residual left the data goes straight out; the early return at 222-225 is unreachable |
| `TcpSocket.Socket.SendData` | Server/Include/server_tcpsocket.cpp:168-258 | for every call: wire plus residual buffer grows by exactly the accepted part; an error exactly when the last send call broke, not-finish exactly when it would block with residual bytes left that exceed 0x30000 together with the data, success otherwise; a closed socket and empty or null data make no call |
| `Link.FramesOfPrefix` | Server/Include/server_tcpsocket.cpp:261-284 | for every limit, cutting any prefix of an encoded stream yields its first messages whole, and all of them exactly when the whole stream is there |
| `Link.RestOfPrefix` | Server/Include/server_tcpsocket.cpp:261-284 | what is left of a prefix of an encoded stream shows no non-positive length and is shorter than the limit |
| `Link.FramesOfBrokenStream` | Server/Include/server_tcpsocket.cpp:239-243 | a message whose sending failed part way never yields a frame |
| `Link.SendKeepsInv` | Server/Include/server_tcpsocket.cpp:168-258 | each outcome of a send keeps the stream equal to the accepted messages plus at most one piece that nothing can follow |
| `Link.BytesArrived` | Server/Include/server_tcpsocket.cpp:134-166 | arriving bytes keep the frames cut so far consistent with everything received |
| `Link.FrameCut` | Server/Include/server_tcpsocket.cpp:280-283 | cutting one frame keeps that consistency |
| `Link.CutFramesAreAccepted` | Server/Include/server_tcpsocket.cpp:168-284 | the frames of any received prefix are accepted messages from the first on, and all of them when everything has arrived |
| `Link.NextFrameIsAccepted` | Server/Include/server_tcpsocket.cpp:261-284 | the next whole frame is the next accepted message |
| `Link.UnreadBytesMakeProgress` | Server/Include/server_tcpsocket.cpp:118-132 | for every limit up to the buffer size: the unread bytes never show a corrupt length, and as many as the limit always hold a whole frame |
| `Link.NextFrameIsSound` | Server/Include/server_tcpsocket.cpp:261-284 | the next frame decodes and keeps the receiver's invariant |
| `Link.DeliveredIsAPrefix` | Server/Include/server_tcpsocket.cpp:134-284 | end to end: what has been decoded is a prefix, in order and field for field, of what was accepted, and all of it once everything has arrived and been cut |
| `Link.Connection.Transmit` | Server/Include/server_tcpsocket.cpp:168-258 | appends the message to the accepted ones exactly on success, and says which status it is from the calls made, as SendData does; an error closes the sender |
| `Link.Connection.Send` | Server/Include/CMessage.cpp:105-122 | the same with encoding in front; a null payload adds nothing and makes no call |
| `Link.Connection.Receive` | Server/Include/server_tcpsocket.cpp:118-166 | a read of any size keeps the invariant, ends as RecvData says, and one that stops for lack of room leaves a whole frame waiting |
| `Link.Connection.Extract` | Server/Include/CMessage.cpp:124-141 | delivers one more message exactly when a whole frame is waiting, and never reports a corrupt stream |
| `Link.Connection.Drain` | Server/Include/server_tcpsocket.cpp:261-284 | extracting until nothing whole is left terminates, and delivers everything accepted once everything sent has arrived |
| `Link.Connection.Run` | Server/Include/server_tcpsocket.cpp:134-284 | for every buffer size up to the receive buffer, every interleaving of sends, reads and extractions, and every chunking, delivered is a prefix of accepted |
| `Syn.HeadBounds` | Server/Frame/syn.cpp:85-94 | over every run the head is at least 1 and at least three frames behind the clock once past frame 1 |
| `Syn.TargetExactly` | Server/Frame/syn.cpp:61-82 | a message up to three frames ahead or behind goes to its own frame, one 4 to 20 frames late to the head frame, and any other nowhere |
| `Syn.FrameOfExactly` | Server/Frame/syn.cpp:129-132 | frame f lasts from 20000 (f - 1) to 20000 f microseconds after the start |
| `Syn.TargetIsInRing` | Server/Frame/syn.cpp:63-77 | an accepted message goes to one of the 64 frames from the head on, never to a frame already sent |
| `Syn.RingFitsExactly` | Server/Frame/syn.cpp:69-73 | every acceptable message has a slot exactly when the head is at most 60 frames behind |
| `Syn.SentFramesAreFrozen` | Server/Frame/syn.cpp:59-94 | however a run continues, nothing reaches a frame that has been sent |
| `Syn.NothingBeyondTheRing` | Server/Frame/syn.cpp:64-73 | over every run no message is waiting 64 or more frames ahead of the head |
| `Syn.BroadcastsAreStable` | Server/Frame/syn.cpp:85-94 | what has been broadcast is never revised by a longer run |
| `Syn.FrameIsBroadcastInPlace` | Server/Frame/syn.cpp:85-121 | each frame goes out once, in its place in the order: one tick with its number if nothing is stored, otherwise no tick and one relay per stored message, in order of arrival and under the frame's number |
| `Syn.EveryAcceptedMessageHasOneFrame` | Server/Frame/syn.cpp:59-83 | over every run each accepted message is meant for exactly one frame, sent or open |
| `Syn.StoredExactly` | Server/Frame/syn.cpp:26-34 | in every continuation, a message that comes after k others for its frame has place k in it exactly when k is below 32, and otherwise leaves the frame as it was |
| `Syn.BroadcastExactly` | Server/Frame/syn.cpp:26-121 | such a message goes out at place k of its frame in the broadcasts exactly when k is below 32 |
| `Syn.AcceptedAreStoredOrDropped` | Server/Frame/syn.cpp:26-83 | over every run the accepted messages are those stored in some frame and those a full frame dropped |
| `Syn.Conservation` | Server/Frame/syn.cpp:26-121 | over every run the messages relayed, waiting in the 64 open frames and dropped by full frames add up to those accepted |
| `Syn.FullFrameDrops` | Server/Frame/syn.cpp:26-34 | a concrete history in which 33 messages are accepted for one frame and 32 kept |
| `Syn.HeadFollowsLastRun` | Server/Frame/syn.cpp:85-94 | the head is exactly three frames behind the last run, or at 1 |
| `Syn.RecentRunSuffices` | Server/Frame/syn.cpp:69-73 | the 60-frame assumption holds exactly within 57 frames of the last run or 60 of the start |
| `Syn.RingAfterArrival` | Server/Frame/syn.cpp:59-83 | putting a message in its slot keeps the ring equal to the 64 open frames of the history |
| `Syn.RingAfterSend` | Server/Frame/syn.cpp:90-92 | sending and emptying the head slot and moving the head makes it equal to the next 64 |
| `Syn.RingAfterRun` | Server/Frame/syn.cpp:85-94 | recording the run in the history leaves that as it is |
| `Syn.RingConserves` | Server/Frame/syn.cpp:59-121 | the same conservation with what is waiting counted in the ring itself |
| `Syn.SYN.Init` | Server/Frame/syn.cpp:46-57 | whatever the last game left behind, the ring is empty at frame 1 |
| `Syn.SYN.UpdateTime` | Server/Frame/syn.cpp:129-142 | the present frame f is the one with 20000 (f - 1) <= microseconds since the start < 20000 f |
| `Syn.SYN.Add` | Server/Frame/syn.cpp:59-83 | refines the history: the ring then holds every open frame with the new message where the history puts it |
| `Syn.SYN.SendHeadFrameToAll` | Server/Frame/syn.cpp:96-121 | broadcasts one tick with the head's number if its slot is empty, otherwise exactly its messages in order under that number, and empties the slot |
| `Syn.SYN.Run` | Server/Frame/syn.cpp:85-94 | broadcasts exactly the frames before the new head, adding to what was sent and keeping the refinement |
| `Syn.SYN.CatchUp` | Server/Frame/syn.cpp:88-93 | the loop terminates with the head three frames behind the clock, or where it was |
| `Syn.SYN.Play` | Server/Frame/syn.cpp:46-142 | any sequence of calls that meets the assumptions: exactly the frames before the head have gone out, and only what full frames dropped is lost |
| `RoomSpec.CountUpdate` | Server/Frame/room.cpp:124-125 | flipping one flag changes the count of flags by exactly the difference |
| `RoomSpec.CountsCompare` | Server/Frame/room.cpp:142-145 | two counters compare exactly as the flags set in one row only and those set in the other only |
| `RoomSpec.CountersExactly` | Server/Frame/room.cpp:142-145 | in every reachable loading room the start test passes exactly when the players still loading are no more than the loaded ones still leaving |
| `RoomSpec.Shifted` | Server/Frame/room.cpp:98-105 | the slots after the leaver, up to the last, move down by one and no other slot changes |
| `RoomSpec.EveryoneEvolves` | Server/Frame/room.cpp:169-178 | a broadcast, whichever of its sends fail, keeps counters equal to flags and users distinct, never moves the status back, lets no one back online, and misses no start |
| `RoomSpec.DeleteEvolves` | Server/Frame/room.cpp:87-167 | so does a departure with everything it brings about; where no one online is still loading it never starts the game |
| `RoomSpec.StartAdvances` | Server/Frame/room.cpp:205-225 | so does a start, which ends in game; with everyone online loaded it is the only start, and otherwise it is early |
| `RoomRuns.DeleteRemoves` | Server/Frame/room.cpp:87-167 | after a departure its user is not online, whatever else it brought about |
| `RoomSpec.DepartureExactly` | Server/Frame/room.cpp:122-149 | exactly when the departure of a player still loading starts the game, and exactly when that start is early |
| `RoomSpec.LeavingStays` | Server/Frame/room.cpp:133-139 | a broadcast that ends in a loading room leaves the number of loaded players still leaving as it was |
| `RoomSpec.EveryoneExcused` | Server/Frame/room.cpp:169-178 | a broadcast makes an early start only if a send to a player still loading failed while the departure of a loaded one was being told |
| `RoomSpec.DeleteExcused` | Server/Frame/room.cpp:87-167 | so does a departure |
| `RoomSpec.StartExcused` | Server/Frame/room.cpp:205-225 | so does a start |
| `RoomSpec.QuietEveryone` | Server/Frame/room.cpp:169-178 | with no send failing, a broadcast reaches exactly the online players, once each, in slot order, and does nothing else |
| `RoomSpec.QuietDeparture` | Server/Frame/room.cpp:122-149 | with no send failing, exactly what a departure from a loading room changes and sends, and whether it starts the game |
| `RoomSpec.QuietWaitingDeparture` | Server/Frame/room.cpp:96-121 | with no send failing, a departure from a waiting room closes the gap, moves teams along in team mode 2 only, and sends the new room to everyone left, in slot order |
| `RoomSpec.InGameDeparture` | Server/Frame/room.cpp:150-165 | a departure from a running game takes the player offline, puts the exit of that slot in the frame stream and does nothing else |
| `RoomSpec.QuietStartExactly` | Server/Frame/room.cpp:205-225 | with no send failing, a start tells everyone online, starts the synchroniser and is in game |
| `RoomSpec.SendsToAll` | Server/Frame/room.cpp:169-178 | with everyone online, the sends of a broadcast go to slots 1, 2, 3 and so on |
| `RoomSpec.SendsExactly` | Server/Frame/room.cpp:169-178 | a broadcast with no send failing sends to the online players and to no one else |
| `RoomRuns.FailedSendRemoves` | Server/Frame/room.cpp:169-178 | a failed send of any broadcast, in any status, takes its player out of the room |
| `RoomRuns.InGameBroadcast` | Server/Frame/room.cpp:150-178 | with any sends failing, a broadcast in a running game sends to everyone online at its start, takes exactly those offline whose own send fails, and leaves an exit for each of these and nothing else |
| `RoomRuns.JoinExactly` | Server/Frame/room.cpp:54-85 | refused exactly when not waiting or 8 slots are in use; what joining appends, the team by team mode included; and that it keeps the invariant exactly when the user was not already listed |
| `RoomRuns.LeftIsHandled` | Server/Frame/room.cpp:87-167 | a departure keeps a valid room valid: between handlers no departure is under way and a loading room waits on someone or is empty |
| `RoomRuns.BeginLoadingExactly` | Server/Frame/room.cpp:180-203 | the loading phase begins valid, with the clock noted, and waits on someone exactly when someone is online after the announcement |
| `RoomRuns.OwnerReadyExactly` | Server/MessageProcessor/loading_and_start/MP_CSReadyToStart.cpp:13-29 | only the online player in slot 1 of a waiting room begins the loading; with no send failing everyone online is told and no one has loaded |
| `RoomRuns.EndExactly` | Server/Frame/room.cpp:315-338 | the end of the game for an online player takes exactly that player offline |
| `RoomRuns.ReportExactly` | Server/MessageProcessor/loading_and_start/MP_CSLoadSucceed.cpp:23-30 | a report marks exactly that player, starts the game exactly when it makes everyone online loaded, and never early |
| `RoomRuns.KickExactly` | Server/Frame/room.cpp:38-44 | whichever sends fail, the kicks leave nobody online who has not loaded, and have started the game if there was someone to wait on |
| `RoomRuns.TimeoutExactly` | Server/Frame/room.cpp:34-46 | a timeout ends in game; the closing SendGameStart is refused exactly when there was someone to wait on, and counts only in an empty room |
| `RoomRuns.TickTooEarly` | Server/Frame/room.cpp:34-36 | a tick changes nothing in a room that has been loading for less than 180 seconds, or is waiting |
| `RoomRuns.TickRuns` | Server/Frame/room.cpp:48-51 | a tick of a running game runs the synchroniser first and stays in game |
| `RoomRuns.FramesAreHandled` | Server/Frame/syn.cpp:96-121 | any number of frame broadcasts, with any sends failing, keeps a running room valid |
| `RoomRuns.QuietFrame` | Server/Frame/syn.cpp:96-121 | with no send failing, each frame broadcast sends one frame message to everyone online and does nothing else |
| `RoomRuns.ApplyIsHandled` | Server/Frame/room.cpp:32-338 | every handler keeps a valid room valid, whichever of its sends fail |
| `RoomRuns.RunIsHandled` | Server/Frame/room.cpp:32-338 | over every run of handlers with any sends failing: counters equal flags, the status never goes back, no start is missed, and an early or second start has a failed send to a player still loading behind it |
| `QuietRoom.QuietKick` | Server/Frame/room.cpp:38-44 | with no send failing, the kicks take offline exactly the players who have not loaded |
| `QuietRoom.QuietRun` | Server/Frame/room.cpp:32-338 | with no send failing, over every run a loading room waits on someone and the game starts at most once, and only when everyone online has loaded |
| `RoomInputs.EarlyStart` | Server/Frame/room.cpp:122-149 | a concrete room in which one failed send starts the game while an online player has not loaded |
| `RoomInputs.SecondStart` | Server/Frame/room.cpp:122-225 | a concrete room in which three failed sends start the game twice |
| `RoomInputs.EmptyLoading` | Server/Frame/room.cpp:180-203 | a concrete room that begins loading with nobody online |
| `Room.Room.GetPlayerID` | Server/Frame/room.cpp:232-244 | the first slot of an online user, or 0 exactly when there is none |
| `Room.Room.SendMessageToEveryone` | Server/Frame/room.cpp:169-178 | the loop over the array, with players leaving from inside it, terminates and does what Everyone says |
| `Room.Room.AddPlayer` | Server/Frame/room.cpp:54-85 | for any user: which of the three outcomes it is, the whole new state, and the invariant kept exactly when the user was not already listed |
| `Room.Room.SendGameStart` | Server/Frame/room.cpp:205-225 | refused unless loading; otherwise the broadcast, then the synchroniser, then in game, as Start says |
| `Room.Room.ShiftDown` | Server/Frame/room.cpp:98-105 | the shifting loop moves the slots down in place, teams too in team mode 2 only |
| `Room.Room.FinishDeparture` | Server/Frame/room.cpp:135-146 | after everyone has been told: clears a loaded leaver or tests the counters, as Departed says |
| `Room.Room.DeletePlayer` | Server/Frame/room.cpp:87-167 | in each of the three states, with any sends failing, exactly the new state and messages Delete gives; succeeds exactly for an online user |
| `Room.Room.SendGameLoading` | Server/Frame/room.cpp:180-203 | announces, then moves to loading with no one loaded and the clock noted; refused unless waiting |
| `Room.Room.AddLoadingSucceed` | Server/Frame/room.cpp:288-313 | marks that player and says true exactly when the counters then agree; outside loading, removes the player |
| `Room.Room.GameEnd` | Server/Frame/room.cpp:315-338 | takes an online player of a running game offline, and changes nothing otherwise |
| `Room.Room.ReadyToStart` | Server/MessageProcessor/loading_and_start/MP_CSReadyToStart.cpp:13-29 | only the online player in slot 1 begins the loading |
| `Room.Room.LoadSucceed` | Server/MessageProcessor/loading_and_start/MP_CSLoadSucceed.cpp:23-30 | does what Report says, in a loading room only |
| `Room.Room.KickUnloaded` | Server/Frame/room.cpp:38-44 | the kick loop, with players leaving from inside it, does what Kick says |
| `Room.Room.OnTick` | Server/Frame/room.cpp:32-52 | a room that waits, or has been loading for less than 180 seconds, is left as it is; otherwise what Tick says: a timeout kicks and then tries to start, a running game broadcasts its frames |
| `Room.Room.Session` | Server/Frame/room.cpp:32-338 | any sequence of handlers on the object, with any sends failing, keeps it valid with all that RunIsHandled and QuietRun say |
| `Heartbeat.Insert` | Server/Frame/heartbeat.cpp:25-26 | the ordered set stays sorted and gains exactly the pair |
| `Heartbeat.Erase` | Server/Frame/heartbeat.cpp:87-87 | the ordered set stays sorted and loses exactly the pair |
| `Heartbeat.SilentClientIsDroppedInTime` | Server/Frame/server_main.cpp:14-24 | for all loop times at most d apart, a silent client is dropped at an age from 41 to 79 + d, and until then has not been seen older than 79 |
| `Heartbeat.WindowIsTight` | Server/Frame/server_main.cpp:14-24 | for every gap of at least a second both ends of that window are reached, from a start the bound accepts |
| `Heartbeat.Heartbeat.InitFD` | Server/Frame/heartbeat.cpp:17-28 | enters a new descriptor, ignores a known one, keeps set and map inverse |
| `Heartbeat.Heartbeat.UpdateFD` | Server/Frame/heartbeat.cpp:30-41 | moves a known descriptor to the present second, ignores an unknown one, keeps set and map inverse |
| `Heartbeat.Heartbeat.OnTick` | Server/Frame/heartbeat.cpp:43-61 | the scan that stops early drops exactly the descriptors silent for more than 40 s |
| `Heartbeat.Heartbeat.DeleteFD` | Server/Frame/heartbeat.cpp:73-90 | removes the descriptor from both or is refused exactly when it is unknown; the mismatch error is unreachable |
| `Heartbeat.Heartbeat.RunOnTick` | Server/Frame/server_main.cpp:14-24 | scans only when 40 s have passed since the last scan |
| `Heartbeat.Heartbeat.MainLoop` | Server/Frame/server_main.cpp:41-49 | whatever the other clients do, a silent client is dropped at exactly the time DropTime gives |
| `Heartbeat.Heartbeat.SilentClient` | Server/Frame/server_main.cpp:41-49 | so the main loop itself drops it at an age from 41 to 79 + d |
| `DescriptorIndex.Sandwich` | Server/google/protobuf/descriptor_database.h:206-222 | anything sorted between a string and an extension of it extends it too, with a next character no greater |
| `DescriptorIndex.IsSubSymbolExactly` | Server/google/protobuf/descriptor_database.cc:227-232 | a name is under another exactly when it is that name, or that name followed by a dot and anything |
| `DescriptorIndex.SandwichSymbol` | Server/google/protobuf/descriptor_database.h:214-226 | a valid key sorted between a symbol and something under it is itself under the symbol |
| `DescriptorIndex.UpperBound` | Server/google/protobuf/descriptor_database.cc:221-221 | splits the entries into those not greater than the name and, from the next one on, a greater one |
| `DescriptorIndex.MatchIsFound` | Server/google/protobuf/descriptor_database.cc:216-224 | if a key matches the query, the one ordered search finds that key |
| `DescriptorIndex.FindSymbolIsLinearFind` | Server/google/protobuf/descriptor_database.cc:180-232 | in a prefix-free index the lookup agrees with a scan of all keys, on every query string, and at most one key matches |
| `DescriptorIndex.ConflictMisleadsLookup` | Server/google/protobuf/descriptor_database.cc:180-232 | whenever one key is a dotted prefix of another there is a query on which the lookup fails |
| `DescriptorIndex.LookupNeedsPrefixFree` | Server/google/protobuf/descriptor_database.h:184-190 | the lookup is right on every query exactly when the index is prefix-free |
| `DescriptorIndex.FoundIsLongest` | Server/google/protobuf/descriptor_database.cc:180-186 | even without the invariant, what is found is the longest matching key |
| `DescriptorIndex.SubSymbolIsNext` | Server/google/protobuf/descriptor_database.cc:114-121 | if any key lies under the new name, the first greater key does |
| `DescriptorIndex.RefusedExactly` | Server/google/protobuf/descriptor_database.cc:100-125 | the two comparisons refuse exactly the conflicting names, except the blind ones |
| `DescriptorIndex.InsertKeepsOrder` | Server/google/protobuf/descriptor_database.cc:131-131 | inserting a new key at its bound keeps the entries in order |
| `DescriptorIndex.InsertKeepsPrefixFree` | Server/google/protobuf/descriptor_database.cc:86-134 | an accepted name keeps the index prefix-free exactly when it is not blind, which is exactly when it does not conflict |
| `DescriptorIndex.InsertKeepsConflicts` | Server/google/protobuf/descriptor_database.cc:131-131 | an index that is not prefix-free stays so |
| `DescriptorIndex.InsertionIsSound` | Server/google/protobuf/descriptor_database.cc:86-134 | an accepted insertion keeps order and valid keys, adds exactly one entry, and its effect on the invariant is exact |
| `DescriptorIndex.PrefixFreeExactly` | Server/google/protobuf/descriptor_database.cc:86-134 | over every run of insertions the invariant holds in the end exactly when no name was blind on arrival |
| `DescriptorIndex.BlindCaseBreaksLookup` | Server/google/protobuf/descriptor_database.cc:114-131 | a concrete index on which an accepted name breaks the invariant and a lookup |
| `DescriptorIndex.Index.ValidateSymbolName` | Server/google/protobuf/descriptor_database.cc:235-247 | accepts exactly the names whose every character is a dot, an underscore, a digit or a letter of either case |
| `DescriptorIndex.Index.AddSymbol` | Server/google/protobuf/descriptor_database.cc:86-134 | for any index: exactly which names are accepted, what is added, and exactly when the invariant holds afterwards |
| `DescriptorIndex.Index.Find` | Server/google/protobuf/descriptor_database.cc:180-186 | the scan's answer in a prefix-free index, and the longest match whenever it answers at all |
| `DescriptorIndex.Index.AddAll` | Server/google/protobuf/descriptor_database.cc:86-134 | an index filled by any sequence of calls is prefix-free exactly when none of them was blind |
| `Tables.ExtendsUndo` | Server/google/protobuf/descriptor.cc:595-615 | undoing part of a journal leaves it an extension of any earlier state it has not gone behind |
| `Tables.UndoGivesBaseBack` | Server/google/protobuf/descriptor.cc:595-615 | erasing the keys added since gives back the earlier table and list |
| `Tables.AboveStep` | Server/google/protobuf/descriptor.cc:575-636 | every operation keeps a state above a checkpoint, with nested checkpoints in order |
| `Tables.AboveRun` | Server/google/protobuf/descriptor.cc:575-636 | so does every well-nested run, and none of its steps is refused |
| `Tables.RollbackRestores` | Server/google/protobuf/descriptor.cc:591-636 | over every well-nested run, rolling back restores the three tables, the pending lists, the allocation lists and the outer checkpoints exactly |
| `Tables.SafeUndo` | Server/google/protobuf/descriptor.cc:595-615 | undoing never touches an entry the list does not name |
| `Tables.GuardedStep` | Server/google/protobuf/descriptor.cc:575-636 | every operation keeps the entries and allocations of a base out of reach of any later rollback |
| `Tables.GuardedRun` | Server/google/protobuf/descriptor.cc:575-636 | so does every run that stays above its starting checkpoints |
| `Tables.TablesOnlyGrow` | Server/google/protobuf/descriptor.cc:575-636 | no such run removes, moves or changes a table entry or an allocation it started with |
| `Tables.CommittedStays` | Server/google/protobuf/descriptor.cc:579-589 | once the last checkpoint is cleared, no possible continuation removes or changes a table entry or an allocation |
| `Tables.UndoFrom` | Server/google/protobuf/descriptor.cc:595-599 | the erasing loop removes exactly the keys from the mark on |
| `Tables.Tables.TryAddSymbol` | Server/google/protobuf/descriptor.cc:731-739 | succeeds exactly for a new name; the table and its pending list then gain exactly that entry, and a refusal changes nothing |
| `Tables.Tables.TryAddFile` | Server/google/protobuf/descriptor.cc:747-754 | succeeds exactly for a new name; the table and its pending list then gain exactly that entry, and a refusal changes nothing |
| `Tables.Tables.TryAddExtension` | Server/google/protobuf/descriptor.cc:787-795 | succeeds exactly for a new extendee and number; the table and its pending list then gain exactly that entry, and a refusal changes nothing |
| `Tables.Tables.PushCheckpoint` | Server/google/protobuf/descriptor.cc:575-577 | the AddCheckpoint step |
| `Tables.Tables.ClearCheckpoint` | Server/google/protobuf/descriptor.cc:579-589 | drops the last checkpoint and keeps the tables; the pending lists are emptied exactly when no checkpoint is left |
| `Tables.Tables.Rollback` | Server/google/protobuf/descriptor.cc:591-636 | the RollbackToLastCheckpoint step |
| `Tables.Tables.DoAll` | Server/google/protobuf/descriptor.cc:575-832 | the object follows the state machine through any run of operations |
| `Tables.Tables.TryAndRollBack` | Server/google/protobuf/descriptor.cc:575-636 | a checkpoint, any well-nested run and a rollback leave the object exactly as it was |
| `Tables.Tables.DoAfterCommit` | Server/google/protobuf/descriptor.cc:575-636 | with no checkpoint left, any run keeps every table entry and allocation of the object |
| `FileLoader.LoadableFromImports` | Server/google/protobuf/descriptor.cc:3134-3165 | a sound file whose other imports are loadable is loadable, cycles through it included |
| `FileLoader.ImportsAreLoadable` | Server/google/protobuf/descriptor.cc:3134-3165 | a loadable file is sound and so are all its other imports loadable |
| `FileLoader.LoadableExactly` | Server/google/protobuf/descriptor.cc:3134-3165 | loadable by import paths is exactly sound with loadable imports |
| `FileLoader.PathDoesNotReturn` | Server/google/protobuf/descriptor.cc:3051-3064 | no import path through a loadable import comes back to where it began |
| `FileLoader.PendingAgainIsACycle` | Server/google/protobuf/descriptor.cc:3051-3064 | a file met again while pending is on an import cycle, so refusing it is right |
| `FileLoader.StrictExactly` | Server/google/protobuf/descriptor.cc:3051-3165 | what the code loads is acyclic exactly when no file it reaches imports itself |
| `FileLoader.SelfImportIsLoadable` | Server/google/protobuf/descriptor.cc:3117-3146 | a concrete database whose one file imports itself and is loadable all the same |
| `FileLoader.Pool.TryFindFileInFallbackDatabase` | Server/google/protobuf/descriptor.cc:1320-1333 | terminates on every finite database; loads a name exactly when it is loadable and not being built, and otherwise remembers it as bad |
| `FileLoader.Pool.BuildFile` | Server/google/protobuf/descriptor.cc:3020-3248 | builds exactly the loadable files that are not pending, restoring the pending list |
| `FileLoader.Pool.CheckImports` | Server/google/protobuf/descriptor.cc:3130-3165 | passes exactly when the file is sound, no import is listed twice and every other import is loaded |
| `FileLoader.Pool.LoadImports` | Server/google/protobuf/descriptor.cc:3069-3080 | afterwards each import other than the file itself is loaded exactly when it is loadable |
| `FileLoader.Pool.TryImports` | Server/google/protobuf/descriptor.cc:3071-3078 | the loop loads every loadable import, and marks a self-import as bad |
| `FileLoader.Pool.LoadImport` | Server/google/protobuf/descriptor.cc:3072-3077 | the same for one import |
| `FileLoader.Pool.FindFileByName` | Server/google/protobuf/descriptor.cc:964-975 | finds exactly the loadable files, so only files that are in the database, build and list no import twice, and whose other imports all are; agrees with acyclic loading exactly when a found file reaches no self-import |
| `FileLoader.Pool.FindAll` | Server/google/protobuf/descriptor.cc:964-975 | however queries are ordered and repeated, remembered bad names never change an answer |
| `PublicDependencies.Builder.RecordPublicDependencies` | Server/google/protobuf/descriptor.cc:2583-2588 | terminates on any import graph; adds only files reachable along public imports, and leaves nothing it finished half recorded |
| `PublicDependencies.Builder.BuildDependencySet` | Server/google/protobuf/descriptor.cc:3184-3188 | the set is exactly the non-null files reachable from a direct import along public imports |
| `SymbolLookup.JoinSplit` | Server/google/protobuf/descriptor.cc:2684-2693 | a scope is its dot-separated components joined again |
| `SymbolLookup.ChopDropsComponent` | Server/google/protobuf/descriptor.cc:2687-2693 | cutting at the last dot drops exactly the last component, and only a single one cannot be cut |
| `SymbolLookup.InnermostScopeDecides` | Server/google/protobuf/descriptor.cc:2665-2717 | the innermost scope that settles the first component decides, even if the rest is missing there |
| `SymbolLookup.NoScopeDecides` | Server/google/protobuf/descriptor.cc:2689-2690 | with no such scope the name is looked up as it stands |
| `SymbolLookup.TryScope` | Server/google/protobuf/descriptor.cc:2695-2718 | one pass settles the name exactly when the scope does: an aggregate if more follows, a type in type mode |
| `SymbolLookup.TryScopes` | Server/google/protobuf/descriptor.cc:2684-2722 | the loop terminates and equals the reference over the enclosing scopes, innermost first |
| `SymbolLookup.LookupSymbolNoPlaceholder` | Server/google/protobuf/descriptor.cc:2656-2723 | the whole lookup equals the reference for every name and scope, fully qualified names included |
| `SymbolLookup.InnerScopeHidesOuter` | Server/google/protobuf/descriptor.cc:2665-2675 | the case the source describes: an inner Bar without Baz hides an outer Bar.Baz |
| `SymbolLookup.SettlesExactly` | Server/google/protobuf/descriptor.cc:2695-2718 | a scope settles a name of several parts exactly by a message, package, enum or service, and a single one by anything, or in type mode by a message or an enum |
| `SymbolLookup.LookupThroughScope` | Server/google/protobuf/descriptor.cc:2695-2710 | Bar.Baz used inside Foo is looked up in Foo exactly when Foo.Bar is a message, package, enum or service |
| `SymbolLookup.TypeModeSkipsFields` | Server/google/protobuf/descriptor.cc:2711-2718 | Bar used inside Foo as a type passes over a field Foo.Bar, which the same lookup in any other mode finds |
| `DynamicMessage.AlignTo` | Server/google/protobuf/dynamic_message.cc:144-152 | the least multiple of the alignment not below the offset |
| `DynamicMessage.StackedIsDisjoint` | Server/google/protobuf/dynamic_message.cc:499-543 | regions that each end before the next begins are pairwise disjoint and inside the block |
| `DynamicMessage.LayoutIsDisjoint` | Server/google/protobuf/dynamic_message.cc:499-543 | the object, has-bits, extension set, every field and the unknown fields are pairwise disjoint and inside the block |
| `DynamicMessage.PlaceFields` | Server/google/protobuf/dynamic_message.cc:526-533 | fields follow in order, each aligned to min(8, its size) with the least padding for it |
| `DynamicMessage.ComputeLayout` | Server/google/protobuf/dynamic_message.cc:499-543 | for every list of positive sizes: such a layout, one has-bit per field with less than a word to spare, and a size that is a multiple of 8 |
| `DynamicMessage.Factory.Register` | Server/google/protobuf/dynamic_message.cc:484-549 | enters a new type with the whole of what ComputeLayout promises and changes nothing recorded |
| `DynamicMessage.Factory.Link` | Server/google/protobuf/dynamic_message.cc:412-413 | points one field at its type's prototype and leaves every finished type and every earlier field linked |
| `DynamicMessage.Factory.LinkField` | Server/google/protobuf/dynamic_message.cc:402-415 | one pass of the linking loop links its field and only adds types reachable from it |
| `DynamicMessage.Factory.CrossLinkPrototypes` | Server/google/protobuf/dynamic_message.cc:394-416 | links every singular message field of the type |
| `DynamicMessage.Factory.GetPrototypeNoLock` | Server/google/protobuf/dynamic_message.cc:471-568 | terminates on every finite, possibly cyclic type graph and returns the type's one prototype |
| `DynamicMessage.Factory.GetPrototype` | Server/google/protobuf/dynamic_message.cc:466-469 | every type reachable through singular message fields is then registered with exactly these fields linked, each to its type's prototype, and no repeated field; nothing else was added, and each type was built once |
| `DynamicMessage.Factory.WrittenOut` | Server/google/protobuf/dynamic_message.cc:402-415 | what a linked type is, field by field: a link for each message field that is not repeated, none for any other |
| `DynamicMessage.Factory.EdgesExactly` | Server/google/protobuf/dynamic_message.cc:402-404 | one type leads to another, not a generated one, exactly by a message field that is not repeated |
| `DynamicMessage.Factory.RegisteredTypesAreClosed` | Server/google/protobuf/dynamic_message.cc:394-416 | the registered types are closed under singular message fields |
| `WireFormat.VarintRoundTrip` | Server/google/protobuf/io/coded_stream.cc:422-443 | a varint is read back, with the bytes after it untouched |
| `WireFormat.VarintPrefixIsMalformed` | Server/google/protobuf/io/coded_stream.cc:422-443 | no proper prefix of a varint is read |
| `WireFormat.VarintSizeIsLength` | Server/google/protobuf/io/coded_stream.cc:813-853 | the size decided by comparisons is the number of bytes written, at most 10 |
| `WireFormat.LittleEndianRoundTrip` | Server/google/protobuf/io/coded_stream.cc:612-640 | fixed-width numbers come back |
| `WireFormat.NumberRoundTrip` | Server/google/protobuf/wire_format_lite.h:600-616 | every number of every type comes back from its wire form, zig-zag and sign extension included |
| `WireFormat.LengthRoundTrip` | Server/google/protobuf/wire_format_lite.cc:344-357 | length-delimited bytes come back |
| `WireFormat.ValueRoundTrip` | Server/google/protobuf/wire_format_lite_inl.h:53-165 | every value of every scalar, enum and string type comes back, with the bytes after it untouched |
| `WireFormat.ValuePrefixIsMalformed` | Server/google/protobuf/wire_format_lite_inl.h:53-165 | no value of any type is read from a proper prefix of its bytes |
| `WireFormat.ReadIsInRange` | Server/google/protobuf/wire_format_lite_inl.h:53-165 | whatever is read, from any bytes, is a value of its type |
| `WireFormat.SizeIsLength` | Server/google/protobuf/wire_format_lite_inl.h:715-744 | the size function of each type is the number of bytes written |
| `WireFormat.TagRoundTrip` | Server/google/protobuf/wire_format_lite.h:528-538 | field number and wire type come back from a tag, and its size is right |
| `ExtensionSet.PackedRoundTrip` | Server/google/protobuf/extension_set.cc:897-936 | a packed payload is read back value for value |
| `ExtensionSet.ParsePackedBytes` | Server/google/protobuf/extension_set.cc:892-946 | a packed field with any payload bytes parses exactly when they do, whatever follows |
| `ExtensionSet.ParsePacked` | Server/google/protobuf/extension_set.cc:892-946 | parsing a serialized packed field appends its values |
| `ExtensionSet.ParseTagged` | Server/google/protobuf/extension_set.cc:947-1014 | parsing a serialized repeated field appends its values, one tag each |
| `ExtensionSet.ParseSingular` | Server/google/protobuf/extension_set.cc:947-1014 | parsing a serialized singular field replaces the value: the last one wins |
| `ExtensionSet.ParseSerializedField` | Server/google/protobuf/extension_set.cc:888-1039 | parsing a serialized field of any kind does what merging that field does |
| `ExtensionSet.ParseSerialized` | Server/google/protobuf/extension_set.cc:1058-1067 | parsing serialized fields does what merging them one after the other does |
| `ExtensionSet.MergeKeysIsMerge` | Server/google/protobuf/extension_set.cc:683-823 | merging field by field, in any order, is the merge a reader expects |
| `ExtensionSet.ConcatenationIsMerge` | Server/google/protobuf/extension_set.cc:683-823 | parsing serialize(a) followed by serialize(b) gives exactly merge of b into a, in whatever order the fields were written |
| `ExtensionSet.SetRoundTrip` | Server/google/protobuf/extension_set.cc:1058-1067 | a set comes back from its own serialized form |
| `ExtensionSet.TruncatedPackedExactly` | Server/google/protobuf/extension_set.cc:892-946 | a last packed field with any payload bytes and any announced size not too small for them parses exactly when the payload does, to its values |
| `ExtensionSet.WholeValuesExactly` | Server/google/protobuf/extension_set.cc:897-936 | the number of whole values counted in the first k bytes is j exactly when those bytes are the encoding of the first j values |
| `ExtensionSet.CutPayload` | Server/google/protobuf/extension_set.cc:897-936 | a payload cut anywhere is read exactly when the cut is not inside a value, and gives the values before it |
| `ExtensionSet.CutPackedField` | Server/google/protobuf/extension_set.cc:892-946 | for every cut of a packed field: refused inside the tag, the length or a value, otherwise parsed as the values before the cut |
| `ExtensionSet.CutTagged` | Server/google/protobuf/extension_set.cc:947-1014 | a repeated field that is not packed, cut anywhere: the values before the cut, or refused inside a tag or value |
| `ExtensionSet.CutFieldExactly` | Server/google/protobuf/extension_set.cc:888-1039 | a field of any kind cut anywhere: refused inside a tag, a length or a value, otherwise the values before the cut |
| `ExtensionSet.PrefixExactly` | Server/google/protobuf/extension_set.cc:1058-1067 | every prefix of every serialized set, in any field order: exactly whether it parses and to which view, on top of any view |
| `ExtensionSet.TruncationGoesUnnoticed` | Server/google/protobuf/extension_set.cc:892-908 | a concrete packed field that still parses without its last byte |
| `ExtensionSet.MergeStep` | Server/google/protobuf/extension_set.cc:684-822 | merging one more entry extends the merge by exactly that entry |
| `ExtensionSet.FixedPayload` | Server/google/protobuf/extension_set.cc:1274-1287 | for fixed-size types the product is the number of bytes |
| `ExtensionSet.TaggedSize` | Server/google/protobuf/extension_set.cc:1304-1345 | tag size times count plus the values' sizes is the number of bytes |
| `ExtensionSet.PayloadSize` | Server/google/protobuf/extension_set.cc:1256-1295 | the computed payload size is the number of bytes the values take |
| `ExtensionSet.ExtensionByteSize` | Server/google/protobuf/extension_set.cc:1251-1392 | exactly the bytes the writer produces, 0 for a cleared or empty one, and the cached size is the payload's length |
| `ExtensionSet.WriteValues` | Server/google/protobuf/extension_set.cc:1152-1175 | writes the values in order without tags |
| `ExtensionSet.WriteTagged` | Server/google/protobuf/extension_set.cc:1185-1212 | writes the values in order, each with its tag |
| `ExtensionSet.SerializeFieldWithCachedSizes` | Server/google/protobuf/extension_set.cc:1141-1249 | with the size the last ByteSize stored, writes exactly the field, or nothing if it is not there |
| `ExtensionSet.ExtensionSet.Set` | Server/google/protobuf/extension_set.cc:250-263 | a reader then sees that value and nothing else changed |
| `ExtensionSet.ExtensionSet.Add` | Server/google/protobuf/extension_set.cc:280-295 | a reader then sees the values appended and nothing else changed |
| `ExtensionSet.ExtensionSet.ClearExtension` | Server/google/protobuf/extension_set.cc:212-216 | a reader then sees everything but that extension |
| `ExtensionSet.ExtensionSet.MergeFrom` | Server/google/protobuf/extension_set.cc:683-823 | a reader then sees exactly the merge of the two |
| `ExtensionSet.ExtensionSet.ParseFieldWithExtensionInfo` | Server/google/protobuf/extension_set.cc:888-1039 | on any input, fails or succeeds as the reference does, with the same result and the same bytes left |
| `ExtensionSet.ExtensionSet.ParsePackedValues` | Server/google/protobuf/extension_set.cc:897-936 | the loop over a payload appends exactly its values, leaving out unknown enum numbers, or fails |
| `ExtensionSet.ExtensionSet.ParseTaggedField` | Server/google/protobuf/extension_set.cc:876-886 | a tag is parsed as its extension or skipped, nested groups included, as ParseField does; what that does with unknown fields is stated by the lemmas of UnknownFields |
| `ExtensionSet.ExtensionSet.MergePartialFromCodedStream` | Server/google/protobuf/descriptor.pb.cc:6605-6645 | the loop over tags terminates and answers as ParseAll on every input, unknown and malformed fields included |
| `UnknownFields.ReadVarintExactly` | Server/google/protobuf/io/coded_stream.cc:422-443 | a varint is read as one to ten bytes, all but the last with the high bit set, seven bits of each from the lowest up |
| `UnknownFields.SkipsUnknown` | Server/google/protobuf/wire_format_lite.cc:111-173 | skipping takes exactly a varint, 8 bytes, a length and that many bytes, 4 bytes, or a group of such fields up to the end tag of its number, at most 100 deep |
| `UnknownFields.SkippedIsUnknown` | Server/google/protobuf/wire_format_lite.cc:111-173 | whatever is skipped is of one of these forms |
| `UnknownFields.UnknownIsSkipped` | Server/google/protobuf/extension_set.cc:876-886 | a field with an unregistered number or another wire type makes no difference to what the input parses to |
| `UnknownFields.MalformedUnknownIsRefused` | Server/google/protobuf/extension_set.cc:876-886 | an input with such a field of no such form is refused |
| `UnknownFields.UnknownFixed32IsSkipped` | Server/google/protobuf/wire_format_lite.cc:145-149 | a concrete input: four bytes of an unknown field and then a known one |
| `UnknownFields.UnknownEnumIsDropped` | Server/google/protobuf/extension_set.cc:979-996 | a number that the enum does not have leaves the view as it was |
| `UnknownFields.PayloadKeepsAllowed` | Server/google/protobuf/extension_set.cc:925-936 | a payload of any enum numbers is read as those of them that the enum has |
| `UnknownFields.PackedEnumsKeepAllowed` | Server/google/protobuf/extension_set.cc:892-946 | so a packed field loses only the numbers that the enum does not have |
| `UnknownFields.NumberExample` | Server/google/protobuf/wire_format_lite.cc:88-109 | field 1 holding 150 is 08 96 01 for every plain varint type, as in section "A Simple Message" of the Encoding guide |
| `UnknownFields.StringExample` | Server/google/protobuf/wire_format_lite.cc:88-109 | field 2 holding "testing" is 12 07 and its seven bytes, as in section "Length-Delimited Records" |
| `UnknownFields.FixedExamples` | Server/google/protobuf/wire_format_lite.cc:88-109 | each type of fixed width takes 4 or 8 bytes, the lowest first |
| `UnknownFields.PackedExample` | Server/google/protobuf/extension_set.cc:1144-1175 | a packed field of 3, 270 and 86942 as in section "Packed Repeated Fields" |
| `UnknownFields.SignedExamples` | Server/google/protobuf/wire_format_lite.h:600-616 | zig-zag takes 0, -1, 1, -2, 2 to 0, 1, 2, 3, 4, and a negative int32 takes ten bytes |
| `ExtensionSet.ExtensionSet.ByteSize` | Server/google/protobuf/extension_set.cc:1069-1078 | the total is the length of the serialized set, every cached size is right afterwards, and a reader sees no change |
| `ExtensionSet.ExtensionSet.SerializeWithCachedSizes` | Server/google/protobuf/extension_set.cc:1058-1067 | writes exactly the visible extensions numbered from start up to but not including end, in ascending order |
| `ExtensionSet.SerializeWhole` | Server/google/protobuf/extension_set.cc:1058-1078 | sizing and then writing produces the whole set |
| `ExtensionSet.ConcatenateAndParse` | Server/google/protobuf/extension_set.cc:683-1078 | the real pipeline: size, write, concatenate and parse shows the same as MergeFrom |

## Left out

- Socket setup, fcntl, epoll, accept and addresses: system calls; `send` and `recv` are nondeterministic methods of a `Wire` class that may move any number of bytes, block or fail.
- MySQL login and registration, and the other message processors: queries and forwarding.
- Dispatch in `MessageHandler` and `RoomManager`: a message is decoded without looking up its id, a kick is a synchronous `DeletePlayer`, a broken connection one from inside the send, a heartbeat drop is a `DeleteFD`.
- Room.Room.SendMessageToEveryone: a send that breaks the connection of an online player always takes that player out of this room, as it does while the login, room and person tables agree; a send that is refused without an error counts as one that goes.
- Syn.SYN.Run: a send that fails in a running game makes the room add an exit message to the ring from inside the loop; the ring model has no such call back, and the room model only notes the exit.
- Heartbeat.Heartbeat.OnTick: drops exactly the silent descriptors provided that a drop removes no other one; in the program the drop of a player can, through a room broadcast that fails, remove others, even the one the scan has already moved to.
- Contents and ownership of a message's `m_proto`: the payload is opaque bytes.
- Person status, logging, random seeds and clocks: times are parameters.
- Overflow of 32-bit frame numbers, seconds and sizes: these are unbounded here, except for message lengths and wire-format numbers.
- Link.Connection.Transmit: closing the socket after an error is the caller's doing, and the login replies do not do it; the end-to-end law assumes that nothing is sent on a connection after an error.
- Link.Connection.Send: `CMessage::encode` writes without a bound check, so a message longer than the buffer is excluded by a precondition.
- Link.Connection.Run: the same for the messages of its schedule.
- Syn.SYN.Add: the three assumptions about its environment are preconditions, as the code checks none of them.
- FileLoader.Pool.BuildFile: whether a file builds apart from its imports is a fixed flag of the database; underlay pools, unknown-import placeholders, databases that answer with another file's name, and files already in the pool are not modelled.
- FileLoader.Pool.FindAll: independence of the order rests on that flag; in the program a symbol defined in two files makes whether the second one builds depend on what is loaded before it.
- SymbolLookup.LookupSymbolNoPlaceholder: `FindSymbol` is a fixed function, so `possible_undeclared_dependency_` is not modelled.
- Tables.Tables.Rollback: freeing is not modelled; allocations are identities, and each map is kept with its pending list in one field.
- Files and extensions of the descriptor index, which are plain map insertions, and `FindAllExtensionNumbers`.
- Option interpretation, placeholders, DebugString and default values of `descriptor.cc`.
- Group, message, lazy and MessageSet extensions, and the to-array serializers: these depend on the message classes. An unknown group is skipped as the program does.
- ExtensionSet.ExtensionSet.MergePartialFromCodedStream: input is a flat array, as in ParseFromString, not a stream, and every field is offered to the extensions; a top-level end-group tag fails at once, where the program's loop returns true and only the caller's end-of-message test refuses; what a failed parse has already added is not specified; skipped fields and unknown enum values are dropped, as by the plain FieldSkipper, and not kept as unknown.
- Zig-zag coding is by arithmetic instead of shifts, and floats are their bit patterns.
- Mutexes.
