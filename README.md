# Chat room server and client, modelled in Dafny

The system is a small TCP chat room. A client connects and sends its nickname
as a line. The server admits it when the room (at most 4 clients) has a free
place, the trimmed nickname has at most 10 ASCII letters or digits, and the
nickname is not taken. The client then sends frames: one opcode octet (1 LIST,
2 TO, 3 EXCEPT, 4 BAN, 5 PING, 6 EXIT, 7 CHAT), a payload and a newline. One
thread per client serves the frames against a shared registry from nickname to
stream and address, and writes plain text lines back.

The model has these parts:

- `Text` (`text.dfy`): the string vocabulary both programs use. It covers
  `trim`, ASCII `to_lowercase`, `find(' ')`, `contains` and decimal
  formatting.
- `Wire` (`wire.dfy`): the frame format, one `read_until(b'\n')` on the
  inbound stream, and the receive loop's split of a read into opcode and
  content.
- `Registry` (`registry.dfy`): the registry, one outbox per connection
  standing in for the socket writes, `send_message`, `broadcast_to_all` and
  the registry invariant.
- `Dispatch` (`dispatch.dfy`): the specification functions.
  - The handshake of the accept loop.
  - The session start.
  - One iteration of the receive loop, with its seven command arms and the
    default arm.
  - The teardown, and the whole session.
- `ChatServer` (`server.dfy`): the server as the program runs it. It is a
  class whose fields are the registry and the outboxes. Each method changes
  them step by step as the code does: loops over the registry, removals,
  writes. Each method is proved to reach the state the `Dispatch` function
  describes.
- `ServerProperties` (`server_properties.dfy`): who receives what for each
  command, the registry invariant, and the consequences of removing entries
  by nickname.
- `ChatClient` (`client.dfy`): the client's per-line logic. This is the
  prohibited-phrase warning, the translation of a typed line into a frame, a
  usage line or "invalid command", the nickname check, and the Ctrl-C frame.
- `Protocol` (`protocol.dfy`): the two programs together. What the client
  writes for a line arrives at the server's matching arm with its content
  intact.

Modelling choices:

- **Transport failures.** Every step takes a set `failing` of connections
  whose writes fail. A `let _ = send_message(..)` skips them and carries on.
  A `?` write on the session's own stream ends the session with `Fail`, with
  no teardown.
- **Registry iteration order.** `HashMap` iteration order is a parameter.
  - Broadcasts do not depend on it, because each connection has its own
    outbox.
  - LIST does depend on it. The method returns the iteration it used
    (`entries`), and the specification is stated for any enumeration of the
    registry.

Behaviour of the code worth knowing, all of it modelled as written:

- The client warns when the lowercased line contains the phrase anywhere.
  The server moderates a CHAT only when the lowercased content equals the
  phrase, so a line that merely contains it is warned about and still
  relayed (`Protocol.WarnedButRelayed`).
- Only CHAT content is moderated; the content of TO, EXCEPT and BAN is
  never checked for the phrase.
- EXCEPT naming the sender is accepted (`ServerProperties.ExceptSelf`).
- An unknown opcode gets no reply (`ServerProperties.ReadSizes`).
- The empty nickname is admitted, since `Wire.ValidNickname` has no lower
  bound.
- After EXIT the teardown runs the leave sequence again, so every remaining
  client gets the leave notice twice (`ServerProperties.ExitAnnouncesTwice`).

## Model

| member | source | states |
|---|---|---|
| Text.Trim | chat_server/src/main.rs:371 | the trimmed text neither starts nor ends with whitespace and is no longer than the input |
| Text.TrimIsSlice | chat_server/src/main.rs:371 | `trim` keeps a contiguous slice and drops only whitespace before and after it |
| Text.TrimOfTrimmed | chat_server/src/main.rs:371 | text without leading or trailing whitespace is its own trim |
| Text.TrimNewline | chat_server/src/main.rs:367-371 | the nickname line with its newline trims back to the nickname when the nickname has no outer whitespace |
| Text.TrimIdempotent | chat_server/src/main.rs:255 | trimming the already trimmed BAN target again changes nothing |
| Text.TrimEmptyIff | chat_client/src/main.rs:211 | `input.trim().is_empty()` holds exactly when every char of the input is whitespace |
| Text.LowerChar | chat_server/src/main.rs:146 | upper-case ASCII letters map to their lower-case letter and every other char is kept |
| Text.Lower | chat_server/src/main.rs:146 | lowercasing keeps the length and lowercases each char in place |
| Text.FindSpace | chat_server/src/main.rs:208 | `find(' ')` is None exactly when there is no space, and otherwise the index of the first space |
| Text.SplitAtSpace | chat_server/src/main.rs:208-210 | the split at the first space gives a space-free head and a tail that join back to the text with one space |
| Text.SplitAtSpaceJoin | chat_client/src/main.rs:141-151 | a space-free nickname joined to a message by a space splits back into exactly those two |
| Text.SpaceFreePrefixUnique | chat_server/src/main.rs:208 | the first space of a text is at a unique position |
| Text.ContainsAt | chat_client/src/main.rs:34 | an occurrence of the pattern at any offset makes `contains` true |
| Text.ContainsOccurs | chat_client/src/main.rs:34 | `contains` holds only when the pattern occurs at some offset |
| Text.Contains | chat_client/src/main.rs:34 | a text that contains the pattern is at least as long as the pattern |
| Text.LowerIdempotent | chat_client/src/main.rs:34 | lowercasing twice gives the same text as lowercasing once |
| Text.Decimal | chat_server/src/main.rs:108-111 | the formatted count is a non-empty string of digits with no leading zero |
| Text.DecimalValue | chat_server/src/main.rs:108-111 | the digits printed for a count, read back most significant first, give that count |
| Text.DecimalInjective | chat_server/src/main.rs:331-334 | distinct counts print as distinct text |
| Wire.ValidNickname | chat_server/src/main.rs:374 | a nickname that passes the format check holds no whitespace |
| Wire.Encode | chat_client/src/main.rs:213-215 | a frame is the opcode octet, then the payload, then a final newline |
| Wire.NextRead | chat_server/src/main.rs:123 | `read_until` returns a prefix of the stream that ends at the first newline, or the whole rest if no newline arrives |
| Wire.Decode | chat_server/src/main.rs:123-137 | 0 octets means closed and 1 octet is short; otherwise the first octet is the opcode and the content is the middle, with the last octet dropped |
| Wire.DecodeEncode | chat_server/src/main.rs:136-137 | decoding a frame gives back the opcode and payload it was encoded from |
| Wire.NextReadLine | chat_server/src/main.rs:370 | a line with no newline inside, followed by a newline, is what one `read_line` returns, and the octets after it are not part of that read |
| Wire.NextReadFrame | chat_server/src/main.rs:123 | a frame whose payload has no newline is read whole by one `read_until` |
| Wire.UnterminatedReadLosesLastOctet | chat_server/src/main.rs:123-137 | for every stream of two or more octets without a newline, the read takes all of it and the content is everything between the first octet and the last, so the last octet is lost |
| Registry.Post | chat_server/src/main.rs:49-54 | exactly the addressed connections get the message appended, and every other outbox is unchanged |
| Registry.PostTwiceAt | chat_server/src/main.rs:63-73 | one connection receives from two posts to disjoint sets exactly what one post to their union gives it |
| Registry.PostTwice | chat_server/src/main.rs:63-73 | sending to two disjoint groups one after the other is the same as sending to both at once |
| Registry.PostNowhere | chat_server/src/main.rs:63-73 | sending to no connection changes nothing |
| Registry.PostOne | chat_server/src/main.rs:49-54 | sending to one connection appends to its outbox alone |
| Registry.AudienceStep | chat_server/src/main.rs:63-73 | visiting one more registry entry adds its connection, if that connection is neither excluded nor failing, and no earlier entry already received it |
| Registry.Direct | chat_server/src/main.rs:148-150 | a write on the session's own stream leaves the registry unchanged |
| Registry.Deliver | chat_server/src/main.rs:49-54 | `send_message` leaves the registry unchanged |
| Registry.DeliverElsewhere | chat_server/src/main.rs:49-54 | `send_message` writes to no other connection |
| Registry.Reply | chat_server/src/main.rs:202-204 | a lookup followed by `send_message` leaves the registry unchanged |
| Registry.Broadcast | chat_server/src/main.rs:58-74 | a broadcast leaves the registry unchanged |
| Registry.BroadcastAt | chat_server/src/main.rs:58-74 | a registered client gets exactly one copy, unless its nickname is excluded or its transport fails |
| Registry.BroadcastElsewhere | chat_server/src/main.rs:58-74 | a broadcast writes nothing to a connection that no registered client uses |
| Registry.BroadcastReachesEachOnce | chat_server/src/main.rs:58-74 | a broadcast gives each registered, non-excluded client with a working transport exactly one copy, writes nothing elsewhere, and keeps the registry |
| Registry.Remove | chat_server/src/main.rs:327 | removal by nickname drops that key and writes nothing (what it keeps is stated by `Registry.RemoveIdempotent`, the size it leaves by `Registry.RemovePreservesWellformed`) |
| Registry.RemoveIdempotent | chat_server/src/main.rs:327 | removal by nickname keeps every other entry unchanged, and removing it twice is removing it once |
| Registry.InsertPreservesWellformed | chat_server/src/main.rs:391-394 | inserting a fresh valid nickname on a fresh connection into a registry with room keeps the invariant and grows the registry by one |
| Registry.WellformedLater | chat_server/src/main.rs:351-354 | the invariant survives issuing more connection ids |
| Registry.ShrinkPreservesWellformed | chat_server/src/main.rs:266 | dropping entries keeps the registry invariant |
| Registry.RemovePreservesWellformed | chat_server/src/main.rs:327 | removal keeps the invariant and shrinks the registry by one when the key was present |
| Dispatch.ListMessageSnoc | chat_server/src/main.rs:196-199 | pushing one entry's line extends the LIST message by that line |
| Dispatch.ListLines | chat_server/src/main.rs:197-199 | the LIST lines are empty exactly when there are no entries, and otherwise end in a newline |
| Dispatch.ListLinesCount | chat_server/src/main.rs:197-199 | the LIST lines hold one newline per entry when no nickname or address holds one, so the client reads one line per registered client |
| Dispatch.ListLineIsLine | chat_server/src/main.rs:198 | each `nick, ip, port` line is one line the client reads whole |
| Dispatch.WelcomeLine | chat_server/src/main.rs:94-97 | the welcome text is one line the client reads whole when the nickname holds no newline |
| Dispatch.JoinedLine | chat_server/src/main.rs:108-111 | the join notice is one line when the nickname and address hold no newline |
| Dispatch.RemovedLine | chat_server/src/main.rs:158-161 | the removal notice is one line when the nickname holds no newline |
| Dispatch.RelayLine | chat_server/src/main.rs:187 | a relayed message is one line when the nickname and content hold no newline |
| Dispatch.WhisperLine | chat_server/src/main.rs:217 | a TO message is one line when the nickname and content hold no newline |
| Dispatch.NoSuchUserLine | chat_server/src/main.rs:223 | the missing-user error is one line when the name holds no newline |
| Dispatch.BannedByLine | chat_server/src/main.rs:261 | the ban line is one line when the nickname holds no newline |
| Dispatch.LeftLine | chat_server/src/main.rs:331-334 | the leave notice is one line when the nickname holds no newline |
| Dispatch.RttLine | chat_server/src/main.rs:298 | the PING reply is one line when the elapsed time text holds no newline |
| Dispatch.EnumeratesStep | chat_server/src/main.rs:197 | visiting one more unvisited entry keeps the iteration duplicate-free and faithful to the registry |
| Dispatch.Admit | chat_server/src/main.rs:358-390 | the room-full rejection happens exactly when the room is full, and admission happens exactly when there is room and the trimmed nickname is valid and free, admitting that trimmed nickname |
| Dispatch.Accept | chat_server/src/main.rs:357-394 | an admitted connection is inserted under its trimmed nickname with nothing written, and a rejected one leaves the registry unchanged |
| Dispatch.Welcome | chat_server/src/main.rs:91-114 | the session start keeps the registry, and a failed welcome write ends the session with an error |
| Dispatch.Chat | chat_server/src/main.rs:144-190 | the session returns exactly when the lowercased content is the phrase and the notice write works, and then the sender's entry alone is gone; otherwise the registry is kept |
| Dispatch.List | chat_server/src/main.rs:191-205 | LIST leaves the registry unchanged |
| Dispatch.To | chat_server/src/main.rs:206-228 | TO leaves the registry unchanged |
| Dispatch.Except | chat_server/src/main.rs:229-253 | EXCEPT leaves the registry unchanged |
| Dispatch.BanTarget | chat_server/src/main.rs:254-291 | banning a registered client other than the sender removes exactly that entry; any other target leaves the registry unchanged |
| Dispatch.Ping | chat_server/src/main.rs:292-301 | PING leaves the registry unchanged |
| Dispatch.Ban | chat_server/src/main.rs:254-291 | BAN removes the entry under the trimmed content when that is not the sender's nickname, and otherwise leaves the registry unchanged |
| Dispatch.Leave | chat_server/src/main.rs:302-318 | the leave sequence removes exactly the session's nickname |
| Dispatch.Step | chat_server/src/main.rs:121-322 | one iteration of the receive loop only ever drops registry entries, and never adds or changes one |
| Dispatch.Loop | chat_server/src/main.rs:121-323 | the loop consumes at most the reads given, and stops only after a step that does not continue |
| Dispatch.LoopShrinks | chat_server/src/main.rs:121-323 | the receive loop only ever drops registry entries |
| Dispatch.Run | chat_server/src/main.rs:121-323 | the receive loop of a session never adds or changes a registry entry |
| Dispatch.Serve | chat_server/src/main.rs:77-340 | a whole session never adds or changes a registry entry |
| ServerProperties.AcceptAdmission | chat_server/src/main.rs:357-394 | admission happens exactly when there is room and the trimmed nickname is valid and free, and it inserts exactly that key; otherwise the registry is kept and the new connection gets the rejection line for the first failed check; the invariant holds either way |
| ServerProperties.WelcomeDelivery | chat_server/src/main.rs:91-114 | the joiner gets the welcome with the registry's size, and every other client with a working transport gets the join notice with the same size |
| ServerProperties.WelcomeAfterInsert | chat_server/src/main.rs:391-394 | after the insert, the welcome count includes the joiner, and every client registered before it gets the join notice |
| ServerProperties.WelcomeAfterAccept | chat_server/src/main.rs:391-400 | an admitted client's welcome and join notice count the registry after its insert |
| ServerProperties.StepPreservesWellformed | chat_server/src/main.rs:121-322 | no command arm breaks the registry invariant |
| ServerProperties.ReadSizes | chat_server/src/main.rs:126-133 | a 0-octet read leaves the loop, a 1-octet read is skipped, and an unknown opcode sends nothing and changes nothing |
| ServerProperties.ModeratedWorld | chat_server/src/main.rs:146-178 | moderation is the notice to the sender, the removal notice counting `len - 1` to the others, then the removal |
| ServerProperties.ChatModerationSender | chat_server/src/main.rs:146-178 | the moderated sender gets the prohibited notice once, its entry alone goes, and the session returns |
| ServerProperties.ChatModerationOthers | chat_server/src/main.rs:153-168 | every other client gets the removal notice with `len - 1`, and the content reaches no one |
| ServerProperties.ChatRelay | chat_server/src/main.rs:182-189 | content that is not the phrase reaches every registered client but the sender exactly once, and the registry is kept |
| ServerProperties.StaleSessionRemovalCount | chat_server/src/main.rs:144-172 | for every registry, a session whose nickname is no longer registered that sends the phrase removes nobody, yet every working client gets a removal notice counting one user fewer than the registry holds |
| ServerProperties.ListOneLinePerClient | chat_server/src/main.rs:191-205 | LIST sends one message, to the sender's registered stream only, with one line per registered client |
| ServerProperties.EnumerationSize | chat_server/src/main.rs:197 | an iteration over the registry has exactly as many entries as the registry |
| ServerProperties.DistinctNamesCount | chat_server/src/main.rs:197 | entries with distinct names have as many names as entries |
| ServerProperties.ToWithoutSpace | chat_server/src/main.rs:208 | TO content without a space is dropped silently |
| ServerProperties.ToDelivery | chat_server/src/main.rs:208-227 | an existing target alone gets the private line; for a missing target the sender gets one error line; nothing else is written |
| ServerProperties.ExceptWithoutSpace | chat_server/src/main.rs:229-252 | for content holding no space, the result is the world it was given: the registry and every outbox are unchanged |
| ServerProperties.ExceptDelivery | chat_server/src/main.rs:237-244 | every registered client but the sender and the named one gets the relay once, and nothing is written elsewhere |
| ServerProperties.ExceptMissing | chat_server/src/main.rs:245-251 | naming a missing client sends the sender one error line and relays nothing |
| ServerProperties.ExceptSelf | chat_server/src/main.rs:237-244 | naming the sender as the excluded client relays the message to every registered client but the sender |
| ServerProperties.BanNotifiesTarget | chat_server/src/main.rs:258-266 | the banned client gets the ban line and the registry shrinks by one |
| ServerProperties.BanWorld | chat_server/src/main.rs:258-277 | BAN is the ban line, then the removal, then the leave notice with the new size to everyone still registered |
| ServerProperties.BanNotifiesRest | chat_server/src/main.rs:266-277 | every client that stays registered, the sender included, gets the leave notice with the new size |
| ServerProperties.BanRefused | chat_server/src/main.rs:278-290 | banning oneself or a missing name only sends the sender the matching error line |
| ServerProperties.LeaveAt | chat_server/src/main.rs:325-337 | every other registered client gets one leave notice with the size after the removal |
| ServerProperties.PingReply | chat_server/src/main.rs:292-301 | the client registered under the sender's nickname gets one RTT line, no other connection gets anything, and the registry is unchanged |
| ServerProperties.StepExit | chat_server/src/main.rs:302-318 | EXIT is the leave sequence followed by leaving the loop |
| ServerProperties.ExitAnnouncesTwice | chat_server/src/main.rs:302-337 | after EXIT the teardown repeats the leave sequence, so every remaining client gets the same leave notice twice |
| ServerProperties.StaleTeardownRemovesNewer | chat_server/src/main.rs:327 | a banned session's teardown removes a newer client that took its nickname |
| ServerProperties.StaleListReachesNewer | chat_server/src/main.rs:202-204 | a stale session's LIST reply goes to the newer client holding its nickname |
| ServerProperties.RunSkipsShortReads | chat_server/src/main.rs:121-133 | one-octet reads are skipped until a zero-octet read leaves the loop, and nothing is sent |
| ServerProperties.LoopSnoc | chat_server/src/main.rs:121-323 | one more read after a still-running loop is one more step |
| ServerProperties.LoopStops | chat_server/src/main.rs:121-323 | after the loop stops, later reads are never made |
| ServerProperties.LoopPrefixStep | chat_server/src/main.rs:121-323 | the loop over the first i reads, still running, extends by read i |
| ServerProperties.LoopPrefixStops | chat_server/src/main.rs:121-323 | a loop that stopped after i reads, or ran out of them, is the loop over all the reads |
| ServerProperties.ListsSnoc | chat_server/src/main.rs:191-199 | one more read, answered from the registry before it if it is a LIST, keeps every LIST read of a running loop answered that way |
| ServerProperties.ListsStop | chat_server/src/main.rs:121-323 | reads after the loop stopped add no LIST obligation |
| ServerProperties.ListsPrefixStep | chat_server/src/main.rs:191-199 | the LIST property of the first i reads extends to read i when its LIST is answered from the registry before it |
| ServerProperties.ListsPrefixStops | chat_server/src/main.rs:121-323 | a loop that stopped after i reads, or ran out of them, has the LIST property over all the reads when its first i reads have it |
| ServerProperties.ServeParts | chat_server/src/main.rs:77-340 | a session is its welcome, its receive loop and, after `break`, the leave sequence |
| ChatServer.Server.constructor | chat_server/src/main.rs:348 | the server starts with an empty registry and nothing sent |
| ChatServer.Server.WriteOwn | chat_server/src/main.rs:148-150 | a direct write appends to the session's own outbox and keeps the registry |
| ChatServer.Server.SendMessage | chat_server/src/main.rs:49-54 | `send_message` appends to the connection's outbox unless its transport fails |
| ChatServer.Server.ReplyTo | chat_server/src/main.rs:202-204 | a lookup of the nickname, then `send_message` if it is present |
| ChatServer.Server.BroadcastToAll | chat_server/src/main.rs:58-74 | the loop over the registry reaches exactly the state of `Broadcast` |
| ChatServer.Server.Accept | chat_server/src/main.rs:357-394 | the handshake checks capacity, nickname format and uniqueness in order, writes the rejection line or inserts, and keeps the invariant |
| ChatServer.Server.Welcome | chat_server/src/main.rs:91-114 | the welcome write and the join broadcast reach the state of `Dispatch.Welcome` |
| ChatServer.Server.Moderate | chat_server/src/main.rs:146-178 | the prohibited notice, then the removal notice to the others and the removal, then return |
| ChatServer.Server.Expel | chat_server/src/main.rs:153-175 | the notify loop with `len - 1` in `usize`, then the removal of the sender's entry |
| ChatServer.Server.Chat | chat_server/src/main.rs:144-190 | the CHAT arm reaches the state and control of `Dispatch.Chat` |
| ChatServer.Server.ListMessage | chat_server/src/main.rs:192-199 | the loop builds the header and one line per registry entry, each entry once |
| ChatServer.Server.List | chat_server/src/main.rs:191-205 | the LIST arm reaches the state of `Dispatch.List` for the iteration it used |
| ChatServer.Server.To | chat_server/src/main.rs:206-228 | the TO arm reaches the state of `Dispatch.To` |
| ChatServer.Server.Except | chat_server/src/main.rs:229-253 | the EXCEPT arm reaches the state of `Dispatch.Except` |
| ChatServer.Server.Ban | chat_server/src/main.rs:254-291 | the BAN arm reaches the state of `Dispatch.Ban` |
| ChatServer.Server.Leave | chat_server/src/main.rs:302-318 | the removal and the leave broadcast reach the state of `Dispatch.Leave` |
| ChatServer.Server.Receive | chat_server/src/main.rs:121-322 | one iteration of the receive loop reaches the state and control of `Dispatch.Step`, and a LIST read is answered from an iteration over the registry before it |
| ChatServer.Server.ReceiveLoop | chat_server/src/main.rs:121-323 | the receive loop reaches the state and control of the specified loop over the same reads, and every LIST read it makes is answered from an iteration over the registry just before that read |
| ChatServer.Server.HandleClient | chat_server/src/main.rs:77-340 | `handle_client` reaches the state and result of the whole specified session, and after a successful welcome every LIST read is answered from an iteration over the registry just before that read |
| ChatClient.EncodeLine | chat_client/src/main.rs:123-229 | a line that is sent becomes an opcode frame ending in a newline, and it is a command exactly when the line starts with a backslash |
| ChatClient.EncodeCommand | chat_client/src/main.rs:128-208 | every command arm that writes sends an opcode other than CHAT and a final newline |
| ChatClient.EncodeAddressed | chat_client/src/main.rs:134-179 | `\to` and `\except` send exactly when the rest holds a space, and send the rest unchanged; otherwise they print the usage line |
| ChatClient.ChatLine | chat_client/src/main.rs:209-229 | a non-command line is sent as typed unless it is all whitespace, in which case nothing happens |
| ChatClient.CommandWord | chat_client/src/main.rs:123-128 | the first word of a command line alone selects the arm |
| ChatClient.ToLine | chat_client/src/main.rs:134-156 | `\to` sends the rest of the line when it holds a space and otherwise prints its usage line |
| ChatClient.ExceptLine | chat_client/src/main.rs:157-179 | `\except` sends the rest of the line when it holds a space and otherwise prints its usage line |
| ChatClient.BanLine | chat_client/src/main.rs:180-191 | `\ban` sends the trimmed rest, possibly empty, and without a space it prints its usage line |
| ChatClient.ListPingLines | chat_client/src/main.rs:129-133 | `\list` and `\ping` send the bare opcode whatever follows the word |
| ChatClient.InvalidLine | chat_client/src/main.rs:205-207 | any other command word prints "invalid command" and sends nothing |
| ChatClient.AcceptsNicknameIff | chat_client/src/main.rs:262-268 | the client's nickname check accepts exactly the nicknames the server's format check accepts |
| ChatClient.AcceptsNickname | chat_client/src/main.rs:263 | a nickname the client accepts holds no whitespace |
| ChatClient.Greeting | chat_client/src/main.rs:283-284 | the first write is the nickname followed by a newline, one line when the nickname holds no newline |
| ChatClient.ContainsProhibited | chat_client/src/main.rs:33-35 | a line shorter than the phrase is never flagged |
| ChatClient.ProhibitedIgnoresCase | chat_client/src/main.rs:33-35 | lowercasing the line first does not change whether it is flagged |
| ChatClient.ExitFrame | chat_client/src/main.rs:240-245 | the Ctrl-C frame is read whole by one server read, whatever follows it, and decodes to EXIT with empty content |
| Protocol.LineReadWhole | chat_client/src/main.rs:123-229 | every frame the client writes for a typed line is read whole by one server read and decodes to its opcode and payload |
| Protocol.ChatArrives | chat_client/src/main.rs:209-216 | a chat line reaches the CHAT arm with its content unchanged |
| Protocol.ToArrives | chat_client/src/main.rs:134-156 | `\to nick message` reaches the TO arm split back into that nickname and that message |
| Protocol.ExceptArrives | chat_client/src/main.rs:157-179 | `\except nick message` reaches the EXCEPT arm split back into that nickname and that message |
| Protocol.BanArrives | chat_client/src/main.rs:180-191 | the client's trim makes the server's second trim a no-op |
| Protocol.ExitFrameLeaves | chat_client/src/main.rs:240-245 | the Ctrl-C frame makes the server run the leave sequence and leave the loop |
| Protocol.ModerationWarns | chat_client/src/main.rs:116-120 | content the server moderates always triggers the client's warning |
| Protocol.WarnedButRelayed | chat_client/src/main.rs:33-35 | for all content the client warns about whose lowercasing is not the phrase, the server relays it to every other working client and keeps the session |
| Protocol.WarnedExample | chat_client/src/main.rs:33-35 | such content exists: "I hate professor!" is warned about and is not the phrase once lowercased |
| Protocol.NicknameHandshake | chat_client/src/main.rs:281-285 | a nickname the client accepts is read as one line, trims back to itself, and is admitted when there is room and it is free |

## Left out

- Sockets, threads and the mutex are left out. Each step runs as one critical section on the shared state, which is what the code's locks give every command arm except the moderated CHAT.
- Dispatch.Chat: the moderated arm writes and flushes the notice to the sender (chat_server/src/main.rs:148-150) before it takes the lock at :154, so another session's broadcast can reach the sender after the notice and before its entry is removed. The model takes the notice, the removal notices and the removal as one step, so nothing reaches the sender in between.
- Dispatch.Welcome: the code reads the room size under separate locks (chat_server/src/main.rs:86, 93, 106). The model reads it once, so a join or leave by another thread between those reads is not modelled.
- Console output (`println!`, `eprintln!`) is left out. It has no effect on the protocol.
- Dispatch.Ping: the elapsed time is a parameter (`rtt`), the text `{:?}` formats the `Duration` to. Clocks are outside the model.
- Wire.Decode: the content is octets taken as chars. Lossy UTF-8 decoding (`from_utf8_lossy`) is not modelled, and neither is the octet-to-char mapping for non-ASCII text.
- Text.Lower: lowercases ASCII only, where Rust's `to_lowercase` is Unicode. This is exact for both uses against the ASCII phrase. The only non-ASCII chars whose lowercase holds a letter of the phrase are U+212A, which gives `k` (not in the phrase), and U+0130, which gives `i` followed by U+0307. The phrase's only `i` is followed by a space, so U+0130 can produce neither an equality nor an occurrence.
- Dispatch.Chat: `len() - 1` at chat_server/src/main.rs:155 wraps modulo 2^64, as in a release build. The panic of a debug build on an empty registry is not modelled.
- Error paths of `handle_client` not modelled:
  - a failed `peer_addr` (chat_server/src/main.rs:82);
  - a failed `try_clone` (99, 117, 148);
  - a read error (123).

  In the code each of them returns without teardown, so after a read error the session's entry stays registered. Only the failed welcome write and the failed prohibited-notice write are modelled (`Fail`).
- ChatServer.Server.Accept: writes of rejection lines always succeed. In the code a failed rejection write, `peer_addr` or `try_clone` in `main` ends the whole server through `?`.
- Dispatch.Accept: the nickname line is a string. At chat_server/src/main.rs:370 `read_line(&mut nickname)?` fails on a read error and also on a nickname line that is not valid UTF-8, and the `?` then ends the whole server, so one client can stop it for everyone. The model does not show this.
- Wire.NextReadLine: the handshake's `BufReader` (chat_server/src/main.rs:368-370) is dropped after `read_line`, so octets it had buffered past the newline are lost, not handed to the reader of `handle_client` (:117). The client writes nothing after its nickname until it has the welcome line, so nothing is lost in practice; the model does not carry the rest of the stream from the handshake to the session.
- Accept-loop connection errors (chat_server/src/main.rs:405-407) only log and are left out.
- On the client side, these are left out as I/O:
  - the receive thread;
  - the connection checker thread;
  - the "cannot connect" check of the first reply;
  - the sleeps;
  - the stdin loop itself;
  - `process::exit`.

  The model covers what each typed line becomes.
- The client's second `flush` after a chat frame (chat_client/src/main.rs:218-222) is an I/O error path and is left out.
- Client argument parsing (the argument count) and the connection setup are left out as I/O.
