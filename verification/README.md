# A verified model of node-server

node-server is a socket-server framework: it cuts byte streams into messages, turns UDP datagrams
into client sessions, keeps rooms of clients, and serves static files. This project models those four
parts (and the deep merge of `util/util.js`) in Dafny and proves what holds of them over every stream,
every request sequence, every interleaving and every directory tree.

`dafny verify dfyconfig.toml` checks everything.

| file | what it holds |
|---|---|
| `Search.dfy`, `Framing.dfy` | leftmost search and borders; cutting a stream at the leftmost delimiter, chunking invariance, canonicity, round trip |
| `Utf8.dfy`, `Utf8Decoding.dfy` | UTF-16 strings and their UTF-8 bytes (section 3 of RFC 3629); byte framing refines character framing; reading bytes as text (section 8.1.1 of the WHATWG Encoding Standard) |
| `MessageBuffers.dfy`, `Clients.dfy` | the receive buffer and the client that emits messages, as classes |
| `ObjectManagers.dfy`, `CollectionHistory.dfy` | the keyed collection with its limit and counters; exact accounting, statistics, pagination; what it holds and counts, told from the operations alone |
| `Rooms.dfy`, `RoomRequests.dfy`, `RoomHistory.dfy`, `Servers.dfy` | rooms; the state machine of room requests and its whole-run properties; what a room is and who is in it, told from the requests alone; the server class |
| `UdpSessions.dfy`, `UdpServers.dfy` | demultiplexing of datagrams as a state machine with non-interference; the listener class |
| `Paths.dfy`, `PathMeaning.dfy`, `PublicPaths.dfy`, `Confinement.dfy` | path joining and the URLs of files; where paths lead, and that joining writes that down in normal form; which public paths work; which URLs stay below them |
| `DirectoryTrees.dfy`, `PublicFiles.dfy` | the directory walk and its order; the index it leaves |
| `FileCache.dfy`, `CacheHistory.dfy`, `HttpServers.dfy` | the asynchronous file cache; what its state says about the events of a run; the server class, whose handlers take the steps of the cache |
| `DeepMerge.dfy`, `ObjectShapes.dfy`, `ObjectExtend.dfy` | `Object.extend`: what it makes of values, of trees of objects, and what it does to objects in memory |
| `Options.dfy`, `Sequences.dfy` | an optional value; regrouping of sequences |

Code that changes fields is modelled by classes whose methods change fields; each such method is proved
to take one step of a function on values, and the laws are proved about those functions. JavaScript
objects used as maps are Dafny maps; where key order matters it is a parameter.

## Where the code does not do what it seems to mean

- A string buffer starts as `null` and is extended with `+=`, so its first message starts with the text
  "null" (message/messageBuffer.js:38, 67-69). The model keeps this: `StringModeShowsNull` says that such
  a buffer never gives what its stream alone would give, and `Utf8Agreement` compares both modes from any
  common leftover, including that text.
- The delimiter is searched as bytes but skipped by its UTF-16 length (message/messageBuffer.js:94-96).
  For a delimiter that is not ASCII the tail of each match stays in the buffer. All framing laws are
  proved for every such advance; the round trip holds exactly for ASCII delimiters without a border.
- The limit of a collection refuses an add only when `count` equals it, and a refused add still raises
  `count` (util/objectManager.js:107-114), so one refusal lifts the limit (`LimitOverrun`).
  `LimitHeldExactly` says in which runs the limit holds.
- `getRooms(start, max)` hands its arguments over in the opposite order (server/server.js:321-323);
  `SwappedArguments` says exactly when that does not matter.
- `lockRoom` stores `undefined` as the password, which no string equals (server/server.js:364): a locked
  room admits only its owner until it is unlocked, whatever password is given.
- `Room.add` calls `addObject`, which no superclass has (room/room.js:155-157). The model reads it as
  `addOne`; as written, every admitted join throws.
- The URL of a registered file replaces backslashes by slashes (http/httpServer.js:264-265), so a name
  with a backslash gets a URL that does not lead back to it (`UrlInverse`), and two files can then share
  a URL (`SharedUrl`); the index keeps the one that the walk sees last (`KeepsLast`).
- The public path is cut out of a file's path as it was given, but `path.join` has normalised that path
  (http/httpServer.js:258, 264). `PublicPathExactly` says for which public paths the URLs come out as the
  names on the way to the files: "./public", "." and "public/", which the constructor accepts, are not
  among them. What the index then holds is still exact (`IndexIsExact`, `WalkThenRun`); what it means in
  terms of the files' names is stated for plain public paths, such as the default one.
- A URL that is not in the index is joined to the public path as it is (http/httpServer.js:299), ".."
  included, so a file outside the public path can be found and served. `ConfinedInExactly` says exactly when
  a URL stays below a given public path, `ConfinedExactly` when it stays below all, and `UpAndDown` shows
  that going up is neither always nor never a way out.
- The cache never forgets (http/httpServer.js:302, 314): a new request for a URL whose cached file is
  gone is answered with the path of that file (`RemovalShows`). `TransparentExactly` and `WalkThenRun`
  say that only this, or an entry that a backslash led astray, makes the cache visible. A handler whose
  probe succeeded before the removal is not affected: its answer was right when it looked.
- `Object.extend` takes over objects of a source without copying them, wherever the target has no object
  of its own, and merges later sources into them (util/util.js:99-104). `Extend` says what every source
  looks like in the end, and `SourceKeptExactly` when the first of two keeps its value; `SourceLost` shows
  two ways to lose it.
- `UdpServer` never hands a client limit on (udp/udpServer.js:23), so only a server built by hand gives
  the listener a limited collection. The model takes the limit as a parameter: 0 for `UdpServer`.

## Model

| member | source | states |
|---|---|---|
| Search.IndexOf | message/messageBuffer.js:94 | `indexOf` gives the leftmost occurrence, or -1 exactly when there is none |
| Search.BorderlessFirst | message/messageBuffer.js:94 | behind a delimiter-free message, a delimiter without a border is first found at the message's end |
| Framing.SplitAppend | message/messageBuffer.js:91-99 | input that arrives later changes nothing already cut, and the leftover with the new input gives the rest |
| Framing.ChunkingInvariance | client/client.js:386-395 | for every delimiter and every way of cutting the stream into chunks, what is emitted and held is that of one leftmost split of the whole |
| Framing.EmittedPrefix | client/client.js:386-395 | what was emitted after some chunks is a prefix of what is emitted in the end |
| Framing.SplitCanonical | message/messageBuffer.js:91-99 | the split is the only cutting that loses nothing, cuts at the first delimiter each time and leaves none |
| Framing.SplitConserves | message/messageBuffer.js:94-96 | messages, each with the skipped part of the delimiter, then the leftover, are the input |
| Framing.SplitRestFree | message/messageBuffer.js:94 | what stays in the buffer holds no delimiter |
| Framing.SplitLengths | message/messageBuffer.js:94-96 | every element of the buffer is accounted for, which bounds the number of messages of one split |
| Framing.RoundTripOfList | message/messageBuffer.js:91-99 | one list of messages comes back exactly when none of them, with the delimiter behind it, shows an earlier delimiter |
| Framing.RoundTripExactly | message/messageBuffer.js:91-99 | all delimiter-free lists come back exactly when the delimiter has no border and the advance is its full width |
| Framing.BorderCounterexample | message/messageBuffer.js:91-99 | for a delimiter with a border, a delimiter-free message that is received as an empty one |
| Framing.EarlyResumeBreaks | message/messageBuffer.js:96 | an advance short of the match leaves the tail of the delimiter behind |
| Utf8.AdvanceWithinMatch | message/messageBuffer.js:94-96 | the UTF-16 length of any string is at most its UTF-8 length, and equal exactly for ASCII |
| Utf8Decoding.DecodeEncode | message/messageBuffer.js:67-76 | a string can be read back from its bytes exactly when it has no stray surrogate |
| Utf8Decoding.DecodeRepairs | message/messageBuffer.js:67-76 | what is read back otherwise is the string with each stray surrogate replaced by U+FFFD |
| Utf8Decoding.DecodeAppend | message/messageBuffer.js:67-69 | bytes read in two pieces give the text of the whole if no character is cut, and more replacement characters if one is |
| Utf8Decoding.DecodeChunks | message/messageBuffer.js:67-69 | chunks of bytes added to a string give the text of the stream exactly when none of them ends inside a character |
| Utf8Decoding.DecodedIsText | message/messageBuffer.js:67-69 | whatever the bytes, the text read from them is well-formed; where it shows no replacement character it encodes to just these bytes |
| Utf8Decoding.IsUtf8Exactly | message/messageBuffer.js:67-76 | encoding what is read gives the bytes back exactly when they are the encoding of some well-formed text |
| Utf8Decoding.MaximalSubpart | message/messageBuffer.js:67-69 | as many bytes are read at a time as start a character, or one; a whole character is read as such, anything less as one replacement character |
| Utf8Decoding.EncodedInstances | message/messageBuffer.js:76 | the bytes of a character of each length |
| Utf8.EncodeIsBytes | message/messageBuffer.js:76 | every text encodes to bytes |
| Utf8.EncodeAppend | message/messageBuffer.js:76-81 | encoding piece by piece is encoding the whole exactly when no surrogate pair is cut |
| Utf8.EncodeChunks | message/messageBuffer.js:76-81 | the same for any number of chunks |
| Utf8.AsciiIndex | message/messageBuffer.js:94 | the leftmost match of an ASCII delimiter in the bytes is that in the characters |
| Utf8.SplitEncoded | message/messageBuffer.js:91-99 | for an ASCII delimiter, splitting the bytes gives the encodings of the messages of the string |
| Utf8.Utf8Agreement | message/messageBuffer.js:67-99 | buffer mode refines string mode for all strings and all character-aligned chunkings |
| MessageBuffers.MessageBuffer.AppendString | message/messageBuffer.js:67-69 | text, or the text that bytes are read as, is added to what is held, at first to the text "null" |
| MessageBuffers.MessageBuffer.AppendBuffer | message/messageBuffer.js:75-83 | bytes, or text in the buffer's encoding, are added to the bytes held |
| MessageBuffers.MessageBuffer.Append | message/messageBuffer.js:40-45 | the append of the buffer's type |
| MessageBuffers.MessageBuffer.Empty | message/messageBuffer.js:59-61 | nothing is held |
| MessageBuffers.MessageBuffer.Split | message/messageBuffer.js:91-99 | cuts what is held at each first `eof`, searching its characters in a string buffer and its UTF-8 bytes in a byte buffer, loses nothing and leaves none; that is the leftmost split |
| MessageBuffers.MessageBuffer.CutAt | message/messageBuffer.js:94-97 | the loop returns the messages of the leftmost split and keeps its rest |
| MessageBuffers.CutsExactly | message/messageBuffer.js:91-99 | the split at what the buffer searches for is the one cutting at the characters, or the bytes, of `eof` |
| MessageBuffers.ReferenceExactly | message/messageBuffer.js:38-99 | what a client should have emitted and hold is the one such cutting of all it received, behind "null" in a string buffer |
| MessageBuffers.NullText | message/messageBuffer.js:38 | what a string buffer starts with spells "null" |
| MessageBuffers.StringModeShowsNull | message/messageBuffer.js:38-69 | a string buffer gives the split of "null" and its stream at the characters of `eof`, never that of the stream |
| MessageBuffers.StringModeReadsBytes | message/messageBuffer.js:67-69 | a string buffer that is handed bytes cuts the text of the stream behind "null" exactly when no chunk ends inside a character |
| MessageBuffers.BufferedTextExactly | message/messageBuffer.js:75-83 | text handed to a byte buffer chunk by chunk gives the encodings of the messages of the text exactly when no chunk ends inside a surrogate pair, as none from a decoding socket does |
| MessageBuffers.BufferRoundTripExactly | message/messageBuffer.js:91-99 | in buffer mode the round trip holds for all messages of bytes exactly when `eof` is ASCII and has no border |
| Clients.Client.ProcessRxData | client/client.js:386-395 | emits the messages of append and split in order; the whole log and what is held stay the one cutting, at each first `eof`, of everything received |
| ObjectManagers.ObjectManager.AddOne | util/objectManager.js:106-118 | stores unless `count` is exactly at the limit; counts in any case |
| ObjectManagers.ObjectManager.Delete | util/objectManager.js:167-172 | removes the id if present; counts down in any case |
| ObjectManagers.ObjectManager.DeleteAll | util/objectManager.js:177-181 | removes everything and counts down once for each object |
| ObjectManagers.ObjectManager.Update | util/objectManager.js:217-221 | stores without counting |
| ObjectManagers.ObjectManager.Empty | util/objectManager.js:227-230 | nothing stored, count zero, statistics kept |
| ObjectManagers.ObjectManager.UpdatePeakCount | util/objectManager.js:67-71 | the peak becomes the larger of itself and the count |
| ObjectManagers.ObjectManager.SerializeObjects | util/objectManager.js:254-278 | the countdown loop yields the serialisable objects of the window of keys |
| ObjectManagers.WindowMeans | util/objectManager.js:254-278 | a key is on the page exactly when its position is not before the offset and, for a positive maximum, among the next so many; the order is kept |
| ObjectManagers.CollectMeans | util/objectManager.js:254-278 | just what the objects on the page serialise to is collected, in order |
| ObjectManagers.PagesPartition | util/objectManager.js:254-278 | pages of any positive size put together are the unpaged result |
| ObjectManagers.SwappedArguments | server/server.js:321-323 | for every list of distinct keys, swapping limit and offset gives the meant page exactly when both come to the same within the list |
| ObjectManagers.Accounting | util/objectManager.js:106-230 | in every run, `count` is the size plus refused and overwriting adds, less absent deletes and inserting updates, since the last `empty` |
| CollectionHistory.CountIsNet | util/objectManager.js:106-230 | `count` is adds less deletes since the last `empty`, refused and absent ones included |
| CollectionHistory.AddStoredExactly | util/objectManager.js:106-118 | in every state an add is stored exactly when there is no limit or `count` is not at it, in terms of the size and the irregular operations |
| CollectionHistory.HalfFullRefuses | util/objectManager.js:106-118 | a collection for two that was given one object twice refuses another |
| CollectionHistory.HeldIsHistory | util/objectManager.js:106-230 | under each id is what the last operation that stored something there stored, unless one took it away since |
| ObjectManagers.RegularRun | util/objectManager.js:106-230 | on regular runs `count` is the size and a positive limit holds |
| ObjectManagers.OverfillsExactly | util/objectManager.js:106-221 | an operation leads beyond a positive limit exactly when the collection is full and it stores a new id: an update always does, an add unless the irregular operations of the past cancel out |
| ObjectManagers.LimitHeldExactly | util/objectManager.js:106-230 | a positive limit holds throughout a run exactly when no operation of the run is such a one |
| ObjectManagers.LimitOverrun | util/objectManager.js:106-118 | a run that stores more objects than the limit |
| ObjectManagers.TotalIsAdds | util/objectManager.js:115 | `count_total` is the number of adds ever, and `count <= count_peak <= count_total` |
| ObjectManagers.PeakIsMaximum | util/objectManager.js:67-71 | `count_peak` is the largest count of the whole run |
| Rooms.Room.Join | room/room.js:97-104 | lets in whoever is not banned and has the password or owns the room |
| Rooms.Room.Lock | room/room.js:80-82 | replaces the password |
| Rooms.Room.Unlock | room/room.js:87-89 | clears the password |
| Rooms.Room.Delete | room/room.js:165-167 | removes a client |
| Rooms.Room.Ban | client/clientManager.js:42-45 | removes a client and puts it on the ban list |
| Rooms.Room.Empty | util/objectManager.js:227-230 | removes all clients, keeping everything else |
| Rooms.Room.Privatize | room/room.js:118-120 | hides the room |
| Rooms.Room.Deprivatize | room/room.js:125-127 | shows the room |
| RoomRequests.OtherRoomsUntouched | server/server.js:288-387 | a request changes no room but the one it names; creating an existing name changes nothing |
| RoomRequests.NonOwnerFrame | server/server.js:307-387 | a request by a non-owner changes at most its own membership and the counters |
| RoomRequests.OwnerKept | room/room.js:34-52 | owner, name and limit of a room never change |
| RoomRequests.BirthExists | server/server.js:288-312 | every existing room was created by some request and has existed since |
| RoomRequests.RoomIsItsHistory | server/server.js:288-387 | in its lifetime a room is what its creation and the later requests naming it make of it |
| RoomRequests.MembershipIsHistory | server/server.js:314-359 | who is in a room, and as which client, is given by the last join that passed the checks and was not undone since |
| RoomRequests.MembersAreHistory | server/server.js:288-359 | the same in every reachable state of the server, counted from the room's creation |
| RoomRequests.BansAreHistory | client/clientManager.js:42-54 | a client is banned exactly when the owner banned it at some time |
| RoomRequests.PasswordIsHistory | server/server.js:361-373 | the owner's last lock or unlock decides the password |
| RoomRequests.VisibilityIsHistory | server/server.js:375-387 | the owner's last privatize or deprivatize decides the visibility |
| RoomRequests.NoMemberIsBanned | client/clientManager.js:42-54 | in every reachable state no member of any room is banned |
| RoomRequests.BannedStaysOut | client/clientManager.js:42-54 | a client once banned is never again a member in the room's lifetime |
| RoomRequests.LockKeepsOthersOut | server/server.js:361-373 | from a lock to the next unlock or deletion nobody but the owner becomes a member |
| RoomRequests.RoomCounters | util/objectManager.js:106-172 | a room's counters are those of the operations its requests cause, and obey the exact account |
| RoomRequests.RoomCount | server/server.js:300-312 | the count of rooms is live rooms plus refused creations; without a limit, exactly the live rooms |
| RoomHistory.RoomBorn | room/room.js:34-52 | a new room has the requester as owner, the name, password, visibility and limit of the request, and nobody in it or banned |
| RoomHistory.ExistsExactly | server/server.js:288-312 | a room exists exactly when a request made it, its name being free and the count of rooms not at the limit, and its creator has not deleted it since |
| RoomHistory.SettingsAreHistory | room/room.js:72-127 | owner, name, limit, password, visibility and bans are what the creation and the creator's later requests say |
| RoomHistory.AdmittedExactly | room/room.js:97-104 | a join is counted exactly when the creator has not banned the client and it is the creator, or the password in force is empty or the given one; it then makes a member unless the count was at the limit |
| RoomHistory.CountIsHistory | util/objectManager.js:106-230 | a room counts whom it let in, less who left, was kicked or was banned, since it was last emptied |
| RoomHistory.MembersExactly | server/server.js:314-359 | so in every reachable state, who is in a room, and as which client, follows from the requests alone |
| Servers.Server.CreateRoom | server/server.js:288-298 | a new room with the requester as owner, named after it by default, unless the name is taken; every other room is untouched |
| Servers.DefaultNamesDiffer | server/server.js:291 | the default name is made of the requester's id, so two clients never get the same |
| Servers.Server.AddRoom | server/server.js:300-305 | adds the room unless its name is taken |
| Servers.Server.DeleteRoom | server/server.js:307-312 | the room goes if its owner asks; every other room is untouched |
| Servers.Server.EmptyRoom | server/server.js:314-319 | the room loses its clients if its owner asks, and keeps the rest |
| Servers.Server.JoinRoom | server/server.js:333-338 | the requester is added if the room admits it |
| Servers.Server.LeaveRoom | server/server.js:340-345 | the requester is removed, whoever it is |
| Servers.Server.BanClient | server/server.js:347-352 | the target is removed and banned if the owner asks |
| Servers.Server.KickClient | server/server.js:354-359 | the target is removed if the owner asks |
| Servers.Server.LockRoom | server/server.js:361-366 | the password becomes one that no string equals, if the owner asks |
| Servers.Server.UnlockRoom | server/server.js:368-373 | the password is cleared if the owner asks |
| Servers.Server.Privatize | server/server.js:375-380 | the room is hidden if the owner asks |
| Servers.Server.Deprivatize | server/server.js:382-387 | the room is shown if the owner asks |
| UdpSessions.EndpointNameInjective | udp/udpServerListener.js:47 | different endpoints have different session keys |
| UdpSessions.EndpointMeans | udp/udpServerListener.js:47 | the key is the address, a colon and the port in decimal |
| UdpSessions.SessionsAreKept | udp/udpServerListener.js:46-59 | under every client limit, an endpoint's session is the split of just the datagrams that its registered client was given |
| UdpSessions.LogIsKept | server/server.js:227-230 | under every client limit, the messages emitted for an endpoint are those of all its clients in order; a client that the limit kept out contributes the split of its one datagram |
| UdpSessions.SessionsAreReference | udp/udpServerListener.js:46-59 | where nothing of an endpoint was dropped, it has a session exactly when it sent something since it was last removed, and it is the split of just those datagrams |
| UdpSessions.SessionsAreReferenceExactly | udp/udpServerListener.js:46-59 | that holds for an endpoint throughout a run exactly when the client limit dropped none of its own datagrams |
| UdpSessions.NoLimitNothingDropped | server/server.js:135 | without a client limit nothing is ever dropped |
| UdpSessions.LogIsReference | server/server.js:227-230 | where nothing of an endpoint was dropped, the messages emitted for it are those of all its sessions, in order |
| UdpSessions.LogAppended | server/server.js:227-230 | the log only grows, by just the messages that the datagram completes for the client of its endpoint, in order |
| UdpSessions.ClientCounters | util/objectManager.js:106-230 | the counters are those of adding the clients of new endpoints, of every delete, present or not, and of emptying |
| UdpSessions.NonInterference | udp/udpServerListener.js:46-59 | without a limit, an endpoint's session and messages are the same as if nobody else had sent |
| UdpSessions.LimitInterferes | udp/udpServerListener.js:46-59 | with a limit, one endpoint can cost another its session |
| UdpServers.UdpServer.CreateClient | udp/udpServerListener.js:77-84 | a new client under the endpoint's name, with an empty session |
| UdpServers.UdpServer.HandleClientConnection | server/server.js:197-205 | offers the client to the collection |
| UdpServers.UdpServer.FindOrConnect | udp/udpServerListener.js:47-56 | the registered client of the endpoint, or a new one offered for registration |
| UdpServers.UdpServer.SocketReceive | udp/udpClient.js:91-95 | the client takes the datagram, and the server emits its messages again |
| UdpServers.UdpServer.OnMessage | udp/udpServerListener.js:46-59 | exactly the datagram's endpoint gains a session or has its session fed; all others are untouched |
| UdpServers.UdpServer.DeleteClient | util/objectManager.js:167-172 | that session ends; all others are untouched |
| UdpServers.UdpServer.EmptyClients | server/server.js:422 | all sessions end |
| PathMeaning.NormalizeExactly | http/httpServer.js:252 | normalising a path gives the one path in normal form that starts and ends with a slash as it does and leads to the same place from every directory |
| PathMeaning.JoinExactly | http/httpServer.js:299 | joining gives the one such path that leads on from where the first leads, along the second |
| PathMeaning.ReduceClimbs | http/httpServer.js:252 | the ".." that a relative path keeps are as many as its segments climb above its start |
| PathMeaning.ClimbKept | http/httpServer.js:252 | and so are those of its normal form |
| PathMeaning.ClimbingPlain | http/httpServer.js:252-299 | any number of ".." and then names are plain, and joining a name only appends it |
| PathMeaning.ClimbingInstance | http/httpServer.js:252-299 | a public path one level up keeps its ".." |
| Paths.RemoveFirstMeans | http/httpServer.js:264 | the first occurrence of the public path goes, and nothing else |
| Paths.JoinName | http/httpServer.js:258 | below a plain path a name is joined by one slash, giving a plain path |
| Paths.UrlBelow | http/httpServer.js:264-265 | the public path is cut off the front, and no file gets the URL "/" |
| Paths.UrlInjective | http/httpServer.js:264-265 | without backslashes different files get different URLs |
| Paths.UrlInverse | http/httpServer.js:264-299 | joining a file's URL to the public path gives the file back exactly when no name holds a backslash |
| PublicPaths.PublicPathExactly | http/httpServer.js:258-265 | the URL of every file at any depth is made of the names on its way exactly when the public path is plain, or stands for "/" with a second slash other than as one name and up again |
| Confinement.ConfinedExactly | http/httpServer.js:299 | a URL stays below every plain public path exactly when its ".." never climb above its start |
| Confinement.ConfinedInExactly | http/httpServer.js:299 | a URL stays below a given plain public path exactly when the segments of that path come first among those that joining leaves |
| Confinement.UpAndDown | http/httpServer.js:299 | going up and down to another name leaves the public path, going up and down again does not |
| DirectoryTrees.FileFacts | http/httpServer.js:256-268 | every file and directory of a tree has its own plain path |
| DirectoryTrees.FilesExactly | http/httpServer.js:254-268 | the files and the directories of a tree are those that names lead to, under the paths that the names make |
| DirectoryTrees.RegistrationIsFiles | http/httpServer.js:250-278 | the order of the walk, files of a directory first and its directories last to first, lists every file once |
| DirectoryTrees.FilesInOrder | http/httpServer.js:254-268 | files listed in a directory are registered in the order listed |
| DirectoryTrees.FilesFirst | http/httpServer.js:254-276 | before everything in directories listed there |
| DirectoryTrees.LaterDirectoryFirst | http/httpServer.js:254-276 | of two directories listed, what is in the later one is registered first |
| PublicFiles.IndexIsExact | http/httpServer.js:250-289 | whatever the public path, every file is reached by its own URL exactly when all URLs differ; below a plain one there is then one entry for each file and one for "/" |
| PublicFiles.KeepsLast | http/httpServer.js:264-266 | the index leads a file's URL to the file exactly when no file that the walk sees later has the same URL |
| PublicFiles.SharedUrl | http/httpServer.js:264-266 | for any directory and file name, a tree of two files that share a URL, with the order of the walk, and which of them the index loses |
| PublicFiles.NoBackslashUrlsDiffer | http/httpServer.js:264-265 | without backslashes all URLs differ |
| PublicFiles.OffPlainShares | http/httpServer.js:264-265 | below a public path that is not plain even such names can share a URL |
| HttpServers.HttpServer.AddPublicFile | http/httpServer.js:287-289 | sets the entry of the URL |
| HttpServers.HttpServer.FindPublicFiles | http/httpServer.js:250-278 | the walk ends, visits each directory once and registers each regular file once, in the order that the tree determines, and leads "/" to the index file in the public directory |
| HttpServers.HttpServer.ScanDirectory | http/httpServer.js:254-268 | the inner loop registers the files of one directory and puts its directories on the stack, both in order |
| HttpServers.HttpServer.GetPublicFile | http/httpServer.js:313-316 | in the index of a walk, an answer is a file of the tree that the URL belongs to, or the index file for "/"; without an answer no file of the tree has the URL |
| HttpServers.HttpServer.FindPublicFile | http/httpServer.js:298-306 | once probed, the joined path is found exactly if it exists, and the map then gives it for this URL and is otherwise as before |
| HttpServers.HttpServer.RoutePublicFile | http/httpServer.js:323-327 | a new request takes the arrival step of the cache: it is answered from the map, or its handler waits |
| HttpServers.HttpServer.FileExists | http/httpServer.js:221-227 | the answer of the file system takes the probe step |
| HttpServers.HttpServer.ResumeRoute | http/httpServer.js:298-334 | the handler that goes on takes the finishing step: it remembers and answers |
| HttpServers.WalkedIndexIsCoherent | http/httpServer.js:250-289 | below a plain public path the index of any tree leads URLs to the files they stand for, and is coherent, exactly when no path that it keeps holds a backslash |
| HttpServers.NoBackslashCoherent | http/httpServer.js:250-289 | so it is coherent when no name in the tree holds one |
| HttpServers.IndexAnswers | http/httpServer.js:252 | after the walk "/" leads to public path, slash, index; that is a file of the tree exactly when the public directory lists a regular file of that name |
| HttpServers.RootAnswered | http/httpServer.js:252-327 | and every request for "/" that is answered later is answered with it |
| HttpServers.WalkThenRun | http/httpServer.js:250-334 | after the walk of any tree from any public path, in every run of requests, probes and changes to the files, the index is invisible exactly when no new request hits an entry whose file is gone or is not the one its URL stands for |
| FileCache.StepCoherent | http/httpServer.js:298-334 | every step keeps the cache coherent exactly when it does not remove a path that is relied on |
| FileCache.RunCoherent | http/httpServer.js:298-334 | so does every run without such removals |
| FileCache.RequestTransparentExactly | http/httpServer.js:323-334 | a request is answered as an uncached lookup would at some moment from its arrival to its answer exactly when it did not hit a wrong entry on arrival |
| FileCache.TransparentExactly | http/httpServer.js:323-334 | in every run, removals of files included, all requests are so answered exactly when none hits a wrong entry |
| FileCache.StaleExactly | http/httpServer.js:313-334 | from an index that leads URLs to the files they stand for, exactly when none hits an entry whose file is gone |
| FileCache.CacheTransparent | http/httpServer.js:323-334 | in particular all are, however requests interleave, as long as no file relied on is removed |
| FileCache.AnsweredArrived | http/httpServer.js:323-334 | every answer belongs to one request: its first arrival and the event that answered it |
| FileCache.AnswersFinal | http/httpServer.js:323-334 | nothing later takes an answer back or changes it |
| CacheHistory.AnsweredExactly | http/httpServer.js:323-334 | a request is answered exactly when it arrived and its URL was in the cache then, or its file was probed since and its handler finished after that |
| CacheHistory.CacheIsHistory | http/httpServer.js:298-306 | the cache leads a URL to the path it joins to once a request has found its file, and until then to what it led it to at first |
| CacheHistory.DiskIsHistory | http/httpServer.js:221-227 | which files a probe finds is what the last changes to them left |
| FileCache.RemovalShows | http/httpServer.js:313-316 | a removed cached file is still answered with its path |
| ObjectExtend.Extend | util/util.js:91-108 | merges all sources into the target in place, in order: the target then has the value of the merge, and every source has what it shares with the target filled as well |
| ObjectExtend.ExtendOne | util/util.js:93-105 | fills the objects of the target from one source and writes to no others, sharing the objects that the target lacks |
| ObjectShapes.FilledValue | util/util.js:93-105 | the tree that is left in memory has the value of the merge |
| ObjectShapes.FilledTree | util/util.js:93-105 | it is again a tree, of objects of the target and the source only |
| ObjectShapes.AfterInMemory | util/util.js:99-104 | what becomes of a tree that shares objects with the target when one more source is merged |
| ObjectShapes.TouchedKeptExactly | util/util.js:99-104 | the first of two sources keeps its value exactly when, wherever the target takes over an object of it, that object covers the second |
| ObjectExtend.SourceKeptExactly | util/util.js:91-108 | that is what becomes of it in memory; the second source always stays as it is |
| ObjectShapes.SourceLost | util/util.js:99-104 | two inputs on which the first source is changed |
| DeepMerge.MergeIdempotent | util/util.js:91-108 | the keys are united, and merging a source twice is merging it once, nulls included |
| DeepMerge.LaterWins | util/util.js:91-108 | of two sources with a leaf under the same key the later one wins |
| DeepMerge.MergeExactly | util/util.js:91-108 | the merge is the one value that, along every path, shows the source where that decides and the target everywhere else, nulls included |
| DeepMerge.MergeOverlays | util/util.js:91-108 | so without nulls the source gives the leaf along every path, except where it says nothing |
| DeepMerge.AbsorbsExactly | util/util.js:91-108 | merging leaves the source exactly when its keys include the target's and, where both hold objects, so on inside |
| DeepMerge.CoversExactly | util/util.js:91-108 | merging leaves the target exactly when a null shields it or it has all the source has |
| DeepMerge.MergeAssociative | util/util.js:91-108 | merging is associative exactly when, wherever the outer two have no leaf, a leaf between them means that the last absorbs the first, a null that the first covers the last, and objects that so it is inside |
| DeepMerge.NotAssociative | util/util.js:91-108 | any leaf, or a null, between two objects that disagree breaks it |

## Left out

- Sockets, TLS, timers, event emitters and logging: an emitted message is an entry of a log, in order.
- The `connect` event between listener and server is a direct call, as the handler is synchronous.
- The log of the UDP machine is the order in which the server emits messages again (server/server.js:227-230).
- A buffer type other than "string" or "buffer", for which `append` does nothing.
- `split` on a buffer that was never appended to fails, and with an empty `eof` it does not end (message/messageBuffer.js:94-96): the methods require both not to happen.
- Inheritance: a `Room` owns its collection of clients instead of being one.
- Object keys that JavaScript prototypes already have, and ids that are numbers.
- `addMany`, `getUniqueRandomId`, `broadcast`, `disconnectClients`, `serializeClients`, `getRoom` and message routing: they use undefined names or randomness, or iterate over fields nothing sets.
- `serialize` of rooms and clients: pagination is over any serialising function of the stored values.
- Asynchronous handlers are cut at their `await`s; sending a file and its status codes are not part of the model, an answer is the path handed to the sender.
- The operating system's files are a tree without links for the walk, and a set of existing paths for probes; Windows paths are not modelled.
- AppendBuffer: takes the encoding as a function, UTF-8 by default; what Node's other encodings compute is not modelled.
- FindPublicFiles: takes what `readdir` and `lstat` report as an argument, so a tree that changes during the walk is not modelled.
- FindPublicFile: is cut at its `await`; what the file system reports comes from the `FileExists` step before it.
- UrlInverse: is stated for plain public paths; with any other one, `PublicPathExactly` says whether files get the URLs of their names at all.
- NoBackslashUrlsDiffer: is stated for plain public paths; `OffPlainShares` shows that it fails for others.
- WalkedIndexIsCoherent: is stated for plain public paths, for the same reason; `WalkThenRun` is not.
- NoBackslashCoherent: is stated for plain public paths, for the same reason.
- SourceKeptExactly: says when values are kept for two sources; for more, `Extend` says what each becomes, not when its value stays the same.
- Extend: requires the target and the sources to be null or trees of objects that share nothing with each other; cycles, objects that occur twice and a source given twice are not modelled.
- HTTP routing, MIME types, cookies and request bodies; `HttpClient`, `ServerMonitor`, heartbeat and latency; browser files and the build script.
