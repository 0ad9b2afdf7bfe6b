# ibchat in Dafny

A model of the stateful core of ibchat, an encrypted chat system with a C client and server, and proofs of
what that core promises.

* `MessageQueue`, `AckMap`, `Frames`, `Connection`, `Duplex`, `DuplexProgress`, `AckTimes`, `HandlerSteps`, `KeepAlive`: the connection protocol.
  `Connection` holds the methods that move frames through a socket; `Duplex` is the state machine of two handlers, their
  callers and the bytes between them, stepped one chunk at a time; `DuplexProgress` shows that it can always finish;
  `AckTimes` says since when messages wait; `HandlerSteps` proves that the methods are runs of that machine; `KeepAlive` is the timing of keep-alives.
* `SecureChannel`, `SharedKeyset`: the encryption layer on top of it, and several threads that send through one keyset.
* `LogHeader`, `ConversationLog`, `ConversationLayout`, `ConversationFile`, `ConversationAttempts`, `UndeliveredLog`,
  `UndeliveredLayout`, `UndeliveredFile`, `UndeliveredAttempts`: the two append-only logs. Each has a module of functions on
  file contents, with the theorems, one that reads the format off the bytes and shows that records are bound to those
  before them, a module of methods on an open stream, and one about runs of appends of which some are cut short.
* `UndeliveredThreads`, `UndeliveredLosses`: several threads in one undelivered file, read by read and write by write.
* `ConversationView`, `ConversationDesk`: the open conversation and the splice of newly arrived messages, alone and
  together with the file.
* `HandlerTable`, `Routing`, `RoutingThreads`, `RoutingOrder`, `RoutingTurns`, `Server`, `KeyLookup`: the table of logged-in users, and the routing of
  messages as whole operations, as steps of many threads, and as methods on the table and the files. `RoutingOrder` says
  when the threads keep the order of letters and when they leave one behind, `RoutingTurns` gives a condition on the
  schedule alone; `KeyLookup` is about who is told which key.
* `Fields`, `DataFile`, `DataFileIO`, `Accounts`, `Friends`, `Notifications`: the encrypted container and its records.
* `Dispatch`, `FriendMessages`, `FriendRestart`, `Delivery`, `FriendRequests`: what the client makes of a message from the
  server; messages between friends, alone, over restarts of the
  client, and end to end through the server, and the exchange that makes two users friends.
* `RwLock`: the readers-writer lock.
* `Bytes`, `Crypto`, `Files`, `LinkedLists`, `Multisets`, `Options`, `Sequences`: words and bytes, the cryptographic
  primitives as arbitrary functions, files whose writes may fail, linked lists and arrays of them, stock definitions.

The primitives (HMAC, SHA-256, the ChaCha keystream) are arbitrary functions, and every theorem holds for all of them;
exclusive or is concrete, so that the cipher being its own inverse is proved. RSA is an arbitrary library that obeys
`FriendRequests.Lawful`. Machine words are explicit: `Wrap64` is written wherever the C code may wrap. A file's
`budget` is the number of writes that succeed, so a full disk or a crash is a budget that runs out.

Where the code and its intent differ, the model follows the code, and a theorem says exactly when the intent is met:

* A type 3 notification is written with 0x20 bytes after its type and read with 0x28
  (`Notifications.NotifsSurviveIff`).
* Splicing needs a non-empty history (`ConversationView.CrashIsPossibleIff`), and a message that is
  logged before the file of an opened conversation is loaded, and put into the view afterwards, is shown twice
  (`ConversationView.ViewMatchesFileIff`, `ConversationView.EarlyLogIsShownTwice`).
* An empty message breaks an undelivered file (`UndeliveredLog.AddThenLoad`), whose length field nobody checks
  (`UndeliveredLog.LoadedIsCanonicalIff`).
* A text with a NUL is cut when it is logged (`ConversationLog.RoundTrip`).
* A payload's number is noted before its MAC is checked (`FriendMessages.GenuineAcceptedIff`), so one payload can shut
  a friend out (`FriendMessages.OneForgeryShutsTheInbox`).
* Counters are saved only when a friend is added, so a restart can bring old ones back
  (`FriendRestart.NumberRepeatsIff`, `FriendRestart.RefusedAfterRestart`), and a message can be accepted twice
  (`FriendRestart.TakenTwice`); `FriendRestart.NumbersRiseIff` says exactly when numbers stop increasing.
* A response to a friend request is taken from anyone, asked or not (`FriendRequests.UnaskedResponseIsTaken`).
* An append that is cut short ends the life of a log (`ConversationAttempts.LoadsUnlessCut`,
  `UndeliveredAttempts.LoadsUnlessCut`), a failed save loses the whole list (`DataFileIO.SavedLoadsIff`), and a
  login whose file cannot be started afresh loses what waited (`Server.Server.Login`).
* An answer that a user was not found is taken for the answer to the request for a key that is waiting, whichever user
  it names (`KeyLookup.ReadIff`), and a key that does not fit its length is only logged.
* The fields of a friend request may reach past the data that its MAC covers (`FriendRequests.AcceptedIff`).
* A list whose last record is empty is refused by the container (`DataFile.RoundTrip`).
* The server's threads look a target up and deliver in two steps, and log a user in in two. A newer letter can be
  handed over before an older one, around a login (`RoutingThreads.SplitLoginCanReorder`) or without any
  (`RoutingOrder.TwoSendersCanReorder`); `RoutingOrder.HandedInOrderIff` says exactly when the order is kept. A letter can
  stay in the file of a user who is logged in (`RoutingOrder.LateStoreStrands`); `RoutingOrder.NeverStrandedIff` says
  exactly when none does.
* Those threads also append to one undelivered file with no lock, so that both of two appends succeed and a letter is
  gone (`UndeliveredLosses.TwoAppendsLoseOne`), or a load wipes one out (`UndeliveredLosses.LoadWipesAppend`).
  `UndeliveredLosses.CompletedLoadIffNotStale` says exactly when appends lose none, and
  `UndeliveredThreads.NothingLostWithoutOverlap` that operations that do not overlap are safe.
* Those threads also seal through the target's keyset with no lock, so nonces can repeat (`SharedKeyset.TwoUnderOneNonce`)
  and a message can be torn (`SharedKeyset.TornOpensWrong`); `SharedKeyset.NoncesIncreaseIff` and
  `SharedKeyset.ClearIffUnblurred` say exactly when not. What is not torn arrives, in order, whatever its nonce
  (`SharedKeyset.ThreadsAreHeard`).
* Keep-alives suffice only while 50 s + turn + delay stays within 100 s (`KeepAlive.NeverMissedIff`); writing messages
  alone may take a turn of the loop to 50 s.

## Model

| member | source | states |
|---|---|---|
| Bytes.BigEndian64 | inet/protocol.c:416-422 | A word of eight bytes counts from the most significant byte down |
| Bytes.BigEndian32 | inet/protocol.c:410-410 | And so a type of four bytes |
| Crypto.XorIsBitwise | server/client_handler.c:405-408 | The exclusive or sets exactly the bits in which the two numbers differ |
| Crypto.StreamTwice | crypto/crypto_layer.c:28-58 | Applying the stream cipher twice with the same key, nonce and position gives the text back, for bytes of any number and any keystream |
| Crypto.StreamAppend | client/conversation.c:725-738 | A stream can be applied in parts, each starting where the one before it stopped |
| Crypto.KeystreamShows | crypto/crypto_layer.c:28-58 | Text and cipher together show the keystream byte for that key, that nonce and that position |
| MessageQueue.Queue.Push | inet/message.c:36-57 | The linked queue stays well formed (links, first, last, size) and holds its old contents followed by the new message |
| MessageQueue.Queue.Pop | inet/message.c:17-34 | The oldest message comes out and the rest stays in order; an empty queue gives none |
| MessageQueue.Queue.Top | inet/message.c:12-15 | The oldest message, or none |
| AckMap.AddedOutstanding | inet/protocol.c:693-713 | Adding a number keeps every entry in its bucket and adds exactly one occurrence to the multiset of outstanding numbers |
| AckMap.RemovedOutstanding | inet/protocol.c:715-733 | Removal succeeds exactly when the number is outstanding and takes away exactly one occurrence, so repeated numbers are counted |
| AckMap.AddedAllOutstanding | inet/protocol.c:443-446 | A run of sent messages adds the multiset of their numbers |
| AckMap.AddedEntries | inet/protocol.c:693-713 | The multiset of pairs of number and time gains exactly the number that was sent with the time at which it was sent |
| AckMap.RemovedTimes | inet/protocol.c:715-733 | Per number the times form a queue: a removal succeeds exactly when one waits and takes the oldest, and leaves other numbers alone |
| AckMap.AddedAllOlder | inet/protocol.c:337-355 | After a run of sent messages something is older than a limit if and only if something was before or one of them was sent before the limit |
| LinkedLists.Buckets.Seek | inet/protocol.c:719-730 | The walk along the links of a list ends at the first wanted item, with the item before it, or at the end with the last one |
| LinkedLists.Buckets.LinkLast | inet/protocol.c:705-710 | A new item behind the last one: that list grows at its end, every list stays well linked and apart from the others |
| LinkedLists.Buckets.Unlink | inet/protocol.c:722-731 | Setting one link bypasses the item found: that list loses it and nothing else changes |
| LinkedLists.Buckets.LinkFirst | server/client_handler.c:435-436 | An item from elsewhere goes in front of a list, whatever its link was |
| AckMap.Map.Add | inet/protocol.c:693-713 | The walk ends at the last link of the list and the new entry is put there: the map then holds all it held and this number with this time, once more, and the times of this number are those from before, in order, followed by this one |
| AckMap.Map.Remove | inet/protocol.c:715-733 | The first entry with the number is bypassed, or its absence is reported and nothing changes: the map loses one pair of the number and a time, the one that waited longest, and no other |
| AckMap.Map.Overdue | inet/protocol.c:337-355 | The overdue check reports exactly whether something that was sent before the limit still waits |
| Frames.ReaderFollowsFrame | inet/protocol.c:454-530 | On every proper part of a frame the reader asks for more bytes of that frame only, and on the whole it recognises exactly that frame |
| Frames.RecognisedIsEncoded | inet/protocol.c:472-530 | Whatever the stream holds, what the reader recognises as a frame is the encoding of that frame |
| Frames.PrefixFree | inet/protocol.c:401-438 | No frame's encoding begins another's: a stream is cut into frames in one way only |
| Frames.RecognisedForGood | inet/protocol.c:472-530 | Later bytes do not change what was recognised |
| Frames.MalformedIsNoFrame | inet/protocol.c:542-549 | What the reader gives up on begins no frame at all |
| Frames.FrameStands | inet/protocol.c:401-438 | Every frame byte for byte: the type in four bytes (1, 2 or 3), and for a message its number, its length, its bytes and their hash |
| Connection.Socket.Recv | inet/protocol.c:608-653 | However the network splits or stalls, what is read is the next part of the stream and never more than asked for |
| Connection.Socket.Send | inet/protocol.c:559-604 | However the network splits or stalls, what is written is the first part of the buffer |
| Connection.Handle.AddMessage | inet/protocol.c:209-224 | The message is queued last and the handler gets one more byte in its pipe |
| Connection.WaitKeepsOrder | inet/protocol.c:158-207 | Whatever is queued and however time and kill status go while a caller waits, it gets the oldest message or none, and all others stay queued in order |
| Connection.WaitSucceeds | inet/protocol.c:166-190 | A message that is there, or comes while there is time and the handler lives, is taken, and it is the oldest one |
| Connection.WaitIsDecided | inet/protocol.c:158-207 | The waiting caller goes on exactly while there is time, the handler lives and nothing is queued; what fails first decides: ETIME when the time is up, else EPIPE when the handler has ended, else the oldest message |
| Connection.Handle.GetMessage | inet/protocol.c:158-207 | The waiting loop gives the answer (message, ETIME or EPIPE) and leaves the queue that are specified for every course of arrivals, clock readings and kill status |
| Connection.Handle.WriteMessage | inet/protocol.c:405-448 | A completed turn has written exactly the frame of the oldest message, recorded its number with the time it is, and only then dequeued it; a failed one has written a part of the frame and changed neither queue nor map |
| Connection.Handle.WriteMessages | inet/protocol.c:389-452 | Messages leave in order until the queue is empty or time is up: the bytes written are their frames, the rest stays queued, and the map gains exactly the numbers sent, each with the time of its sending, so that something is too old exactly when something was or one of these times is; after a failure exactly one more frame is written in part |
| Connection.Handle.CheckAcks | inet/protocol.c:337-355 | The connection is given up exactly when some message was sent more than 100 s ago and still waits; below 100 s the unsigned difference wraps |
| AckTimes.LogIsCompleted | inet/protocol.c:405-448 | Over every run of the two sides the record of what a side has sent, with times, lists the messages it completed, in order |
| AckTimes.WaitingAreNewest | inet/protocol.c:337-490 | Over every run, of the messages with one number exactly those wait that were sent last, as many as are in flight, as messages or as acknowledgements on their way back |
| AckTimes.OverdueIff | inet/protocol.c:337-355 | Over every run, something is too old if and only if some number was sent before the limit and among its last sendings, as many as still wait |
| AckTimes.RecentIsNotOverdue | inet/protocol.c:337-355 | Over every run, a side whose messages were all sent since the limit is never given up for want of an acknowledgement |
| Connection.Handle.WriteAcknowledge | inet/protocol.c:668-683 | An acknowledgement frame is written whole, or a part of it is and the connection ends |
| Connection.Handle.WriteKeepAlive | inet/protocol.c:655-666 | The same for a keep-alive |
| Connection.Handle.ReadMessage | inet/protocol.c:454-555 | Success means exactly one whole frame was consumed and acted on (queue and acknowledgement, map, or keep-alive clock); refusal means no frame stands there, or an acknowledgement of nothing outstanding, and leaves queue and map alone; a read that stops took part of a frame and changed nothing, or took a message whose acknowledgement was cut short |
| Duplex.LaunchedLink | inet/protocol.c:418-438 | Starting a frame adds all of it to what is in flight |
| Duplex.ReadInside | inet/protocol.c:467-530 | A reader never reads past the frame it is in |
| Duplex.FrameLanded | inet/protocol.c:472-530 | When the reader acts, it acts on the oldest frame in flight, and the rest stays in flight |
| Duplex.AckActKeeps | inet/protocol.c:473-490 | An acknowledgement always finds its number in the map |
| Duplex.FinishSendKeeps | inet/protocol.c:440-448 | A message enters the map in the step in which it leaves the queue |
| Duplex.StepKeeps | inet/protocol.c:209-387 | Every step of a handler or caller on one side keeps the invariant over both sides and both byte streams |
| Duplex.RunKeeps | inet/protocol.c:209-555 | Every state that any interleaving of the two handlers and their callers reaches satisfies that invariant |
| Duplex.MessagesInOrder | inet/protocol.c:389-555 | What was submitted on one side is, in order, what was taken on the other, what waits there, what is in flight, and what is queued, in both directions |
| Duplex.DeliveredIsPrefix | inet/protocol.c:158-224 | What callers take on one side is a prefix of what callers submitted on the other |
| Duplex.AcksMatchTraffic | inet/protocol.c:440-490 | As multisets, the outstanding numbers are the data frames in flight and the acknowledgements in flight back (a message still being written is not in the map yet) |
| Duplex.NothingIsRefused | inet/protocol.c:479-549 | No connection between two such handlers ends because of what the peer sent; in particular ack_map_rm never fails |
| Duplex.NoLostWakeUp | inet/protocol.c:209-335 | There are never more queued messages than unread pipe bytes, a caller about to write one, and a handler that took one and has not sent anything for it |
| Duplex.QuietMeansAcknowledged | inet/protocol.c:337-355 | When nothing is being written or under way, everything written was received and nothing is outstanding |
| HandlerSteps.Add | inet/protocol.c:209-224 | add_message on the linked queue is the two steps Push and Signal of the machine |
| HandlerSteps.Read | inet/protocol.c:454-555 | Every read_message is a run of steps of the machine on the mirrored state: when it takes a frame, when it refuses, when it stops for want of bytes or time, and when an acknowledgement cannot be written |
| HandlerSteps.Write | inet/protocol.c:389-452 | Every write_messages is a run of steps of the machine, whether or not it reaches its end |
| HandlerSteps.Beat | inet/protocol.c:655-666 | The same for a keep-alive |
| HandlerSteps.Take | inet/protocol.c:158-207 | get_message without waiting is the step Take, or none |
| HandlerSteps.StepsAreARun | inet/protocol.c:209-555 | In a state that the two sides reach, what a method does to its side is what they reach when that side takes the method's steps, so the invariant and every theorem over runs hold after it |
| DuplexProgress.StepAdvances | inet/protocol.c:209-555 | A side that has something to do can take a step that brings the end nearer: fewer messages to begin, frames in flight, wake-ups, bytes to move, work begun or messages to take, in that order of weight |
| DuplexProgress.BothWaitWhenDone | inet/protocol.c:209-555 | Both sides are without such a step only when nothing is queued, under way or untaken: nobody waits for bytes that will not come |
| DuplexProgress.EverythingCanGetThrough | inet/protocol.c:158-555 | From every state that two live sides reach, some further steps deliver all that was submitted on either side, with nothing outstanding |
| SecureChannel.OpenIffSealed | crypto/crypto_layer.c:18-60 | A body opens as a text exactly when it is that text sealed under the same keys with some nonce |
| SecureChannel.SealIff | crypto/crypto_layer.c:18-34 | A sealed text byte for byte: the nonce, the text under the keystream of that nonce, and a MAC over both |
| SecureChannel.KeysAreQuarters | crypto/crypto_layer.c:100-119 | The four keys are the four quarters of the buffer, so the two directions share none of its bytes |
| SecureChannel.Keyset.Expand | crypto/crypto_layer.c:100-119 | Types 0 and 1 get mirrored quarters of the key buffer, and all of it is used; any other type changes nothing |
| SecureChannel.Keyset.Send | crypto/crypto_layer.c:62-73 | The sealed text is queued last and the nonce moves on by one, wrapping |
| SecureChannel.Keyset.Receive | crypto/crypto_layer.c:75-97 | The message that waiting yields is taken off whether or not it opens, and opens to the sealed text or fails |
| SecureChannel.ChannelCarriesPrefix | crypto/crypto_layer.c:18-119 | Over every run of the connection, with keysets expanded from one buffer, the texts each side reads after the handshake are exactly a prefix of those the other side sent, under whatever nonces they were sealed |
| SharedKeyset.DraftOpens | crypto/crypto_layer.c:18-60 | What any interleaving of encrypt_message queues has a right MAC, and opens as its text when the counter showed the same for head and cipher |
| SharedKeyset.ClearIffUnblurred | crypto/crypto_layer.c:18-73 | Over every interleaving of threads on one keyset, each text is sealed under one nonce if and only if no thread reads the counter after it changed since the text was given its number |
| SharedKeyset.ClearUnlessTorn | crypto/crypto_layer.c:18-73 | In particular when no thread stores the counter between the reads of another |
| SharedKeyset.ThreadsAreHeard | server/client_handler.c:237-378 | Then the client opens everything that the server's threads sent, as the first texts in the order of queueing, though nonces may repeat |
| SharedKeyset.NoncesIncreaseIff | crypto/crypto_layer.c:62-73 | Over every interleaving, sealing numbers are increasing if and only if no seal falls between another thread's seal and increment and start plus number of seals does not pass 2^64 |
| SharedKeyset.NoncesRepeatIff | crypto/crypto_layer.c:62-73 | Some number is used twice if and only if some seal overlaps or there are more than 2^64 of them |
| SharedKeyset.NoTearWithoutOverlap | crypto/crypto_layer.c:18-73 | Without an overlap no message is torn |
| SharedKeyset.OneThreadNeverOverlaps | crypto/crypto_layer.c:62-73 | A keyset used by one thread at a time, as the client's under net_lock, never overlaps |
| SharedKeyset.SendingIsSend | crypto/crypto_layer.c:62-73 | The steps of one send taken without a break do what Keyset.Send does |
| SharedKeyset.TwoUnderOneNonce | server/client_handler.c:302-319 | The run in which two letters for one user are sealed under the same nonce |
| SharedKeyset.TornOpensWrong | crypto/crypto_layer.c:28-33 | The run in which a text is queued with a right MAC and opens as another text |
| KeepAlive.NotOverdue | inet/protocol.c:357-363 | What was received last is recent enough whenever the flow invariant and the bound hold |
| KeepAlive.RunKeeps | inet/protocol.c:337-371 | With half the limit + turn + delay within the limit, no reachable state of two live endpoints has a missed keep-alive |
| KeepAlive.NeverMissedIff | inet/protocol.c:243-371 | No run ends for want of a keep-alive if and only if 50 s + turn + delay <= 100 s |
| KeepAlive.EarlyClockMisses | inet/protocol.c:357-363 | The unsigned difference makes a clock below 100 s end the connection at once |
| KeepAlive.Clocks.AtLoopEnd | inet/protocol.c:357-371 | The checks at the end of the loop give up after more than 100 s without a keep-alive, and else send one after more than 50 s, as specified |
| LogHeader.HeaderFromFields | client/conversation.c:537-544 | An authentic header is the one that its two fields determine |
| LogHeader.HeaderIs | client/conversation.c:466-473 | A header byte for byte: the length, the count, and a MAC over both |
| ConversationLog.OneKeystream | client/conversation.c:720-738 | Prefix and text together are length, sender and text under one keystream, the text continuing where the prefix stopped |
| ConversationLog.RecordIsParsed | client/conversation.c:546-615 | A whole record is read back as its sender and text, though prefix and text share one keystream |
| ConversationLog.ParsedIsRecord | client/conversation.c:546-615 | Whatever bytes are accepted as a record are exactly the record of what was read |
| ConversationLog.LoadIffCanonical | client/conversation.c:492-635 | The loader returns a list if and only if the file begins with the one canonical image of that list |
| ConversationLayout.LoadIffStands | client/conversation.c:492-635 | The loader returns a list if and only if every byte of the file, up to its length, is what the format says, read off by offsets: the header, and for each record its number as the nonce, length and sender, the MAC over the last MAC before it and its prefix, the text, and the MAC over all of it |
| ConversationLayout.BoundToPredecessor | client/conversation.c:551-565 | Bytes that are accepted as a record after two different MACs make two different texts with one MAC |
| ConversationLayout.SameRecordSameHistory | client/conversation.c:546-615 | If two files that stand hold the same bytes in record n, their lists agree on all records up to n, or two different texts checked in them, in one record up to n, have one MAC |
| ConversationLayout.LoadedHistories | client/conversation.c:492-635 | So a file spliced from two histories is accepted only with such a clash of MACs |
| ConversationLog.TruncatedIsRefused | client/conversation.c:537-635 | A file shorter than its header claims is refused |
| ConversationLog.AddExtendsCanonical | client/conversation.c:689-755 | Appending to a file that begins with the image of a list gives one that begins with the image of the longer list |
| ConversationLog.AddThenLoad | client/conversation.c:637-767 | After a completed append a loadable file loads as the longer list, exactly when the sender is 0 or 1 and the length fits |
| ConversationLog.InterruptedAddIsRefused | client/conversation.c:707-749 | Stopping after some but not all of the writes leaves a file that is refused, never a shorter or altered list |
| ConversationLog.AddAllIsCanonical | client/conversation.c:637-767 | After any run of appends the file is the image of everything appended and the header states its length |
| ConversationLog.RoundTrip | client/conversation.c:454-767 | init, any appends, load returns exactly what was appended if and only if all senders are 0 or 1 and no text holds a NUL |
| ConversationAttempts.LoadsUnlessCut | client/conversation.c:637-767 | After any run of attempts to append, each with its own number of possible writes, the file loads as the completed ones exactly when none was cut short, and is refused otherwise |
| ConversationAttempts.SucceedsIffNoneCut | client/conversation.c:637-767 | An attempt succeeds if and only if none before it was cut short and it is not either: a broken file stays broken |
| ConversationFile.Init | client/conversation.c:454-490 | The file is the empty log, or empty when the write fails |
| ConversationFile.Add | client/conversation.c:637-767 | The file is at the stage that the number of writes that succeeded determines; success means all five |
| ConversationFile.LoadRecords | client/conversation.c:546-620 | The loop builds a doubly linked list of exactly the parsed records and adds up their lengths |
| ConversationFile.LoadList | client/conversation.c:492-635 | The result is a well-formed doubly linked list of what the log loads as, and an error exactly when it does not load |
| ConversationView.View.Show | client/conversation.c:220-228 | The walk over the loaded list ends at its last message and shows that list, also when messages have arrived before |
| ConversationView.View.Append | client/conversation.c:176-180 | A local send puts the message behind the newest one and keeps both links inverse |
| ConversationView.View.Arrive | client/conversation.c:343-347 | An arrival becomes the newest pending message, linked backwards |
| ConversationView.View.Splice | client/conversation.c:268-292 | The view becomes the old history followed by the pending messages oldest first, well linked, with none lost or shared; it crashes exactly when there are pending messages and no history |
| ConversationView.ViewMatchesFileIff | client/conversation.c:189-292 | Over any run, each party's messages in the view and pending are those of the file in the file's order, if and only if no message was logged before the file was loaded |
| ConversationView.EarlyLogIsShownTwice | client/conversation.c:189-266 | The run in which a message that is logged, loaded with the file and then put into the view stands there twice |
| ConversationView.CrashIsPossibleIff | client/conversation.c:268-292 | Some course of events crashes the program if and only if the history is empty |
| ConversationDesk.Begin | client/conversation.c:202-209 | Both ends of the view are cleared: with the file that holds a list, nothing is shown or pending yet |
| ConversationDesk.OpenFile | client/conversation.c:210-228 | On the view and the open file, loading does what the step Load says: the file's messages are shown, those that have arrived stay pending |
| ConversationDesk.SendMessage | client/conversation.c:157-187 | With five writes possible, the message goes to the end of the file and of the view as the step Send says; else the view stays as it is |
| ConversationDesk.LogMessage | client/conversation.c:335-339 | The arrived message goes to the end of the file as the step Log says, and is not in the view yet |
| ConversationDesk.PutMessage | client/conversation.c:341-349 | The logged message goes to the pending ones as the step Put says |
| ConversationDesk.MergeMessages | client/conversation.c:268-292 | The pending messages are shown as the step Merge says, and the program crashes exactly when the step does |
| UndeliveredLog.LoadIffImage | server/undelivered.c:203-291 | The loader returns a list if and only if the file begins with the image of that list under some length field |
| UndeliveredLayout.LoadIffStands | server/undelivered.c:203-291 | The loader returns a list if and only if every byte behind the length field, up to the end of the list, is what the format says: the count, the MAC of the header, and for each record the length, the message, and the MAC over the MAC before it and both |
| UndeliveredLayout.BoundToPredecessor | server/undelivered.c:250-265 | Bytes that are accepted as a record after two different MACs make two different texts with one MAC |
| UndeliveredLayout.SameMacSameHistory | server/undelivered.c:245-268 | If record n of two files that stand ends with the same MAC, their lists agree on all records up to n, or two different texts checked in them, in one record up to n, have one MAC |
| UndeliveredLog.LoadedIsCanonicalIff | server/undelivered.c:225-235 | A file that loads is canonical exactly when its length field is right, which the loader does not check |
| UndeliveredLog.WrongLengthStillLoads | server/undelivered.c:225-235 | A concrete file with a wrong length field that loads |
| UndeliveredLog.AddExtendsCanonical | server/undelivered.c:148-182 | Appending a non-empty message to the image of a list gives the image of the longer list |
| UndeliveredLog.AddThenLoad | server/undelivered.c:96-201 | A completed append is seen by the next load if and only if the message is not empty |
| UndeliveredLog.InterruptedAddIsRefused | server/undelivered.c:155-182 | Stopping after some but not all of the writes leaves a file that is refused; an empty message always ends so |
| UndeliveredAttempts.LoadsUnlessCut | server/undelivered.c:96-291 | After any run of attempts to append the file loads as the completed ones exactly when none was cut short (an empty message always is), and is refused otherwise |
| UndeliveredAttempts.SucceedsIffNoneCut | server/undelivered.c:96-201 | An attempt succeeds if and only if none before it was cut short and it is not either |
| UndeliveredFile.InitFile | server/undelivered.c:64-94 | The file is the empty log, or empty when the write fails |
| UndeliveredFile.AddMessage | server/undelivered.c:96-201 | The file is at the stage that the number of writes that succeeded determines; success means all four |
| UndeliveredFile.LoadRecords | server/undelivered.c:240-268 | The loop builds a linked list of exactly the parsed records |
| UndeliveredFile.LoadAndClear | server/undelivered.c:203-291 | The stored messages come back in order and the file is started afresh; a refused file is left alone |
| UndeliveredThreads.IntactUnlessHarmed | server/undelivered.c:96-291 | With every read and write of any number of threads a step of its own: while no step does harm (a header written over another one than was read, no MAC where one is looked for, an empty message, a file emptied that does not hold what was loaded), the file holds what was added and not given back, in order, with its header ahead by the appends under way |
| UndeliveredThreads.NothingLostUnlessHarmed | server/undelivered.c:96-291 | At rest it is then the canonical image of what waits, and what was added is what was given back followed by what waits |
| UndeliveredThreads.NoHarmWithoutOverlap | server/undelivered.c:96-291 | No step does harm while no thread begins before another one is done |
| UndeliveredThreads.NothingLostWithoutOverlap | server/undelivered.c:96-291 | So then at rest nothing is lost, doubled or moved |
| UndeliveredThreads.AddingIsOneStep | server/undelivered.c:96-201 | The steps of an append taken without a break do on any file what AfterAdd says, as Routing takes for granted |
| UndeliveredThreads.LoadingIsOneStep | server/undelivered.c:203-291 | The same for a load: it gives back what the file loads as and leaves the empty log, or changes nothing |
| UndeliveredLosses.CountsAllIffNotStale | server/undelivered.c:145-162 | While the user does not log in, the header counts all header writes if and only if none was written over another header than the one read |
| UndeliveredLosses.CompletedLoadIffNotStale | server/undelivered.c:145-182 | When all appends that wrote a header were completed, in whatever interleaving, the file loads as what they appended if and only if no header was stale |
| UndeliveredLosses.StaleLosesLetters | server/undelivered.c:145-182 | After a stale header the file loads, if at all, as fewer letters than headers were written |
| UndeliveredLosses.SecondWriterIsStale | server/undelivered.c:145-162 | Two threads that read a header and then both write one make a stale header, whatever happens in between |
| UndeliveredLosses.TwoAppendsLoseOne | server/client_handler.c:302-308 | The run in which two letters for one user are appended, both successfully, and the file loads as the second alone |
| UndeliveredLosses.LoadWipesAppend | server/undelivered.c:225-276 | The run in which a letter is appended successfully between the reading and the emptying of a load, and is neither handed over nor in the file |
| HandlerTable.AddIsPaid | server/client_handler.c:525-529 | An add keeps size and load in bounds and pays at most three relinked entries, counting what it saves up |
| HandlerTable.RemovalIsPaid | server/client_handler.c:562-565 | The same for a removal |
| HandlerTable.ResizesAreCheap | server/client_handler.c:395-570 | Over every run from the empty table the size is 16*2^k within its bounds, the load within its thresholds, and all resizes together relink at most three entries per operation |
| HandlerTable.FoundInBucket | server/client_handler.c:484-501 | A user's entry is in the chain that the hash selects, and that chain holds entries of logged-in users only |
| HandlerTable.HashIsXor | server/client_handler.c:401-409 | The hash is the bitwise exclusive or of the four 64-bit words of the hash of the id |
| HandlerTable.HoldsCounts | server/client_handler.c:521-523 | The table has as many entries as there are users |
| HandlerTable.Table.constructor | server/client_handler.c:447-462 | The new table is empty, of size 16 |
| HandlerTable.Table.Get | server/client_handler.c:484-501 | The mapped handler, or none |
| HandlerTable.Table.Resize | server/client_handler.c:411-445 | Every entry is relinked, none is copied or lost: the same users in a table of the new size, each in the chain of its hash; a size out of range is ignored |
| HandlerTable.Table.Add | server/client_handler.c:503-534 | A new user is in the table and nobody else changes, each in the chain of the hash; a user who is there is refused; size and count move as specified |
| HandlerTable.Table.Remove | server/client_handler.c:536-570 | That user and no other is taken out; an absent user is reported; size and count move as specified |
| HandlerTable.Relink | server/client_handler.c:425-438 | The entries of one old chain, none lost and none copied, move to the new chains of their hashes, and nothing else changes |
| Routing.DeliverIffLetter | server/client_handler.c:266-300 | A message is routed if and only if it is a whole letter (type, target, length, payload) to a registered user |
| Routing.OutcomeIff | server/client_handler.c:266-364 | Every outcome (delivered, no such user, key, unknown kind, invalid, read past the end) holds exactly for the messages with certain bytes and a target that is or is not registered |
| Routing.StoredInFile | server/client_handler.c:305-313 | A stored letter is the last of what waits in the file, and the file stays sound |
| Routing.LoginKeepsOrder | server/client_handler.c:193-249 | Entering the table and draining the file at once keeps the order |
| Routing.MessageKeepsOrder | server/client_handler.c:266-364 | Handling any message at once keeps the order for every user |
| Routing.OperationsKeepOrder | server/client_handler.c:150-364 | Over every run of operations done at once, letters accepted for a user = letters handed over followed by those waiting, in order; nothing waits for a user who is logged in |
| RoutingThreads.StepKeeps | server/client_handler.c:193-364 | Every step of every client thread conserves the letters of every user; an append and a load are one step each (see UndeliveredThreads) |
| RoutingThreads.NothingLostOrDuplicated | server/client_handler.c:193-364 | Over every interleaving in which no two threads are in one undelivered file at once (each append and each load is one step, as UndeliveredThreads.AddingIsOneStep and LoadingIsOneStep justify), letters accepted = handed over + waiting in the file + carried by threads, as multisets |
| RoutingThreads.SplitLoginCanReorder | server/client_handler.c:193-207 | A concrete run in which login in two steps lets a newer letter go first |
| RoutingOrder.LedgerIsRight | server/client_handler.c:193-364 | Over every interleaving a ledger that numbers a user's letters as they are accepted says where each one is: handed over, drained, in the file, or carried by which thread; and a user has one thread exactly while in the table |
| RoutingOrder.HandedInOrderIff | server/client_handler.c:193-364 | Over every interleaving, letters are handed over as the first accepted ones, in order, if and only if no step hands one over while an older one is drained, waits in the file or is carried |
| RoutingOrder.OrderOfLetters | server/client_handler.c:193-364 | So unless a step overtakes, the letters handed over are a prefix of those accepted and the rest is what is drained, waiting and carried; for letters that differ, only then |
| RoutingOrder.NeverStrandedIff | server/client_handler.c:193-319 | Over every interleaving, no letter ever waits for a user who is there and will not look into the file again if and only if no step stores a letter for a user who is there by then |
| RoutingOrder.LateStoreStrands | server/client_handler.c:302-308 | The run in which a letter stays in the file of a user who is logged in and waits for messages |
| RoutingOrder.TwoSendersCanReorder | server/client_handler.c:302-319 | The run in which two threads carry letters for one user, nobody logs in, and the newer letter is handed over first |
| RoutingOrder.OperationsAreSteps | server/client_handler.c:193-364 | Every run of whole operations is a run of thread steps with the same outcome |
| RoutingTurns.TurnsKeepOrder | server/client_handler.c:193-364 | A condition on the schedule alone: while no delivery to a user and no login of the user begins before the last one is done, whatever the threads do for others, no letter of the user is overtaken and none is stranded |
| RoutingTurns.TurnsDeliverInOrder | server/client_handler.c:193-364 | So the user is then handed the first letters that were accepted, in order |
| RoutingTurns.TurnsDeliverAll | server/client_handler.c:193-364 | And all of them once the user is there and nothing is under way for the user |
| Server.Server.HandleMessage | server/client_handler.c:266-364 | On the table and the open files the method does what Routing specifies: a request for a key or a letter to nobody is answered to the asker alone, with the key in wire form or the id that was not found, a letter is passed on with the sender's id in place of the target's, and nothing else is answered; a failed store leaves the target's file at the stage its writes reached and nothing else changed; invalid messages change nothing |
| KeyLookup.ReadIff | client/friendreq.c:63-90 | The asker takes an answer for a key exactly when a whole key follows the id that was asked for, and an answer 0xff, and no other, for there being no such user |
| KeyLookup.AnswersAreOwn | server/client_handler.c:266-364 | Over every run each client gets, in order, the answers to its own messages and no others |
| KeyLookup.AskerLearnsKey | server/client_handler.c:323-352 | After any run, a request for a key brings the asker one more answer and changes nothing else; the asker reads off it the key that is registered, or that there is no such user exactly when nobody is registered |
| KeyLookup.AskerLearnsKeyInSteps | server/client_handler.c:323-352 | The same when the request comes to one of many threads |
| KeyLookup.RequestIsAccepted | client/friendreq.c:33-112 | From the question to the request: under the key that the asker reads, the request is packed, routed, dispatched and accepted by the target, with the asker's name and key |
| Server.Server.Login | server/client_handler.c:193-249 | add_handler and send_undelivered on the table and the file do what Routing specifies, except when the header of the emptied file cannot be written: then the user is there, the file is empty and the loaded letters are dropped |
| Server.Server.Drain | server/client_handler.c:221-249 | Every stored message goes to the user's handler in order and the file is started afresh, or none does and the file is empty |
| Server.EmptiedForGood | server/undelivered.c:96-146 | A file that was emptied and got no header takes no letter and is never loaded again |
| Server.Server.Logout | server/client_handler.c:141-144 | The user and nobody else leaves the table |
| DataFile.ReadAllIff | client/datafile.c:225-240 | A payload is read back as the list that was written exactly when the list is empty or its last record takes up room |
| DataFile.ContainerIff | client/datafile.c:52-126 | A container byte for byte: count, length, salt, preamble and a MAC over all that; the payload under a key that is the hash of the file's key and the salt; and a MAC over everything before it |
| DataFile.RoundTrip | client/datafile.c:16-256 | For any codec whose reader inverts its writer and lists of any length, reading returns the list exactly when it is empty or ends in a non-empty record; otherwise the count check fires |
| DataFile.LoadedIsContainer | client/datafile.c:136-256 | For a codec that reads only what it writes, an accepted file is the container of the list it is read as |
| DataFile.TruncatedIsRefused | client/datafile.c:168-204 | A container that was cut short is refused |
| DataFileIO.Measure | client/datafile.c:44-50 | The walk counts the records and adds up their lengths |
| DataFileIO.Serialise | client/datafile.c:82-97 | The buffer holds exactly the records when they are as long as was announced; shorter ones are an error, longer ones leave the buffer |
| DataFileIO.Crypt | client/datafile.c:99-99 | Encryption in place |
| DataFileIO.WriteDatafile | client/datafile.c:16-134 | For any codec: how it ends and what the file holds, for every number of possible writes: nothing, a part of the container, or all of it exactly on success |
| DataFileIO.FailedSaveIsRefused | client/datafile.c:34-134 | A save that fails leaves a file that is refused: the list that was there before is gone |
| DataFileIO.SavedLoadsIff | client/datafile.c:16-256 | A list that is saved is read back if and only if the save succeeds and the list is empty or ends in a record that takes up room |
| DataFileIO.Parse | client/datafile.c:225-244 | The loop links exactly the records it reads, and fails as specified |
| DataFileIO.ReadDatafile | client/datafile.c:136-256 | A linked list of what the file loads as, or the specified error |
| DataFileIO.AddAndSave | client/friends.c:107-127 | The item becomes the last of the list whether or not saving succeeds; the file holds of the longer list what WriteDatafile says (insert_notif in client/notifications.c:230-244 has the same shape) |
| Accounts.WrittenIsParsed | client/account.c:91-179 | What account_write_bin writes is read back whatever follows, moving past exactly account_bin_size bytes |
| Accounts.WrittenStands | client/account.c:112-128 | A record byte for byte: three lengths, the three strings, and seven keys and names, each at its offset |
| Accounts.ParsedIsWritten | client/account.c:132-179 | account_parse_bin accepts nothing else |
| Accounts.AccountsSurvive | client/userfile.c:114-139 | Any list of accounts is read back as it was written |
| Accounts.AccountsAreStrict | client/userfile.c:114-139 | An accepted user file is the container of the accounts it is read as |
| Accounts.Write | client/account.c:112-128 | The fields stand in the buffer in order |
| Accounts.Parse | client/account.c:132-179 | Read field by field, the record is what the specification reads, and the same bytes are moved past |
| Friends.WrittenIsParsed | client/friends.c:204-285 | What was written is read back with the id recomputed from the name |
| Friends.WrittenStands | client/friends.c:227-247 | A record byte for byte: two lengths, name and public key, the name of the conversation's file, six keys and two counters, each at its offset |
| Friends.ParsedStands | client/friends.c:249-285 | And whatever is read stands so in the file, with the hash of the name and its NUL for the id |
| Friends.FriendInverseIff | client/friends.c:249-285 | A friend survives storing if and only if the id is the one of the name |
| Friends.FriendsSurvive | client/friends.c:180-202 | Any friend list is read back as it was written |
| Friends.FriendsAreStrict | client/friends.c:192-285 | An accepted friend file is the container of the friends it is read as |
| Friends.Write | client/friends.c:227-247 | The fields stand in the buffer in order |
| Friends.Parse | client/friends.c:249-285 | Read field by field, the record is what the specification reads, and the same bytes are moved past |
| Notifications.NotifInverseIff | client/notifications.c:308-405 | A notification survives storing if and only if it is not a response and, for unread messages, its friend is the first with that id |
| Notifications.NotifsSurviveIff | client/notifications.c:284-405 | With distinct ids, a list of notifications is read back as written if and only if it holds no response (type 3) |
| Notifications.OneResponseIsLost | client/notifications.c:345-379 | The concrete list that is lost: one response of the only friend |
| Notifications.WrittenStands | client/notifications.c:329-351 | A record byte for byte, for each type |
| Notifications.Write | client/notifications.c:329-351 | The buffer gets exactly the specified bytes |
| Notifications.Parse | client/notifications.c:353-405 | The parser, with its fall-through from type 1 to type 3, reads what the specification reads |
| FriendMessages.AcceptedIff | client/conversation.c:362-425 | A payload is accepted with a number and a text if and only if it is that text sealed under that number and the number is greater than the last |
| FriendMessages.PayloadJudged | client/conversation.c:96-141 | A friend's own payload is accepted or refused by its number alone |
| FriendMessages.PayloadParts | client/conversation.c:120-141 | A payload byte for byte: the type, the number, the length, the text under the keystream of that number, and a MAC over all that |
| FriendMessages.SealedReachesConversation | client/bg_manager.c:47-81 | A message from a friend reaches parse_conv_message and nothing else, whoever the server says that it is from |
| FriendMessages.Friend.Send | client/conversation.c:96-141 | The counter moves on, wrapping; nothing is sent when it wraps to 0; otherwise the letter with the sealed text, which with a sender's id in place of the target's reaches parse_conv_message |
| FriendMessages.Friend.Receive | client/conversation.c:362-425 | The method judges as specified; the number is noted before the MAC is checked |
| FriendMessages.AcceptedIsSubsequence | client/conversation.c:96-425 | Under any dropping, repeating, reordering and any payload whose MAC fails, what is accepted is an order-preserving, duplicate-free subsequence of what was sent |
| FriendMessages.LastIsGreatestClaim | client/conversation.c:371-382 | The number noted is the greatest ever claimed by a payload with a right length, accepted or not |
| FriendMessages.GenuineAcceptedIff | client/conversation.c:371-382 | A genuine message is accepted if and only if its number exceeds every number claimed before it |
| FriendMessages.OneForgeryShutsTheInbox | client/conversation.c:371-395 | The input for which it fails: one payload of right length with a false MAC and the greatest number, after which nothing is accepted |
| FriendMessages.LosslessIsComplete | client/conversation.c:96-425 | When everything arrives in order, everything is accepted |
| FriendRestart.NumberRepeatsIff | client/friends.c:107-202 | Over every course of messages, saves and restarts, a number is used twice under the same keys if and only if a message is sent after a restart that found a smaller counter in the file |
| FriendRestart.RestartBringsBack | client/friends.c:107-202 | A restart brings back both counters as they were at the last save, whatever came in between |
| FriendRestart.RestartForgetsAll | client/friends.c:107-202 | And when there was no save, as they were when the friend was added |
| FriendRestart.NumberRepeatsBySchedule | client/friends.c:107-202 | By the schedule alone: a number is used twice if and only if there are, in this order, a message, a restart with no save or restart in between, and another message |
| FriendRestart.SameNumberAfterRestart | client/friends.c:107-202 | The shortest course in which one is: send, restart, send |
| FriendRestart.NumbersRiseIff | client/conversation.c:371-395 | Over every course of messages, saves and restarts, and whatever arrives, messages are accepted under increasing numbers if and only if no whole payload with a right MAC arrives whose number is greater than the counter in use but not than the last one accepted |
| FriendRestart.OldNewsNeedsForgetting | client/conversation.c:371-395 | Such a payload needs a restart that found a smaller receiving counter in the file |
| FriendRestart.TakenTwice | client/conversation.c:371-395 | The shortest course: a message, a restart, and the same message, which is accepted twice |
| FriendRestart.RefusedAfterRestart | client/conversation.c:96-141 | Of the messages sent after such a restart the receiver refuses exactly as many as the counter went back by, and accepts the rest |
| FriendRestart.TakenOnceUnlessForgotten | client/conversation.c:371-395 | As long as no restart brings back a smaller receiving counter, numbers increase and stay below the counter, whatever arrives (NumbersRiseIff is the exact condition) |
| FriendRestart.TakenAgainIff | client/conversation.c:371-395 | What comes right after a restart is accepted if and only if its number is greater than the saved one |
| Dispatch.LetterIsOpened | client/bg_manager.c:47-64 | The receiving client finds the sender and the payload of a letter |
| Dispatch.LetterReaches | client/bg_manager.c:47-81 | A letter reaches the parser that the first byte of its payload names, with the sender's id and the whole payload, and no other |
| Dispatch.ReachedIff | client/bg_manager.c:47-133 | And nothing but a letter with that first byte reaches it |
| Delivery.CourseIsPosted | client/conversation.c:96-155 | For all texts there is a run in which they are sent, as the theorems from end to end take for granted |
| Delivery.AcceptedIsPosted | server/client_handler.c:266-300 | What is accepted for b as messages from a is exactly what a sent to b, in order: every letter carries the id of the client it came from |
| Delivery.AcceptedIsPostedBySteps | server/client_handler.c:266-300 | The same over the steps of many threads |
| Delivery.FriendIsHeardInOrder | server/client_handler.c:266-321 | From end to end with operations done at once: the receiver accepts exactly the first texts sent, as many as were handed over, and all of them once logged in |
| Delivery.FriendIsHeardInSteps | server/client_handler.c:193-364 | The same for every interleaving in which no step overtakes |
| Delivery.FriendIsHeardInTurns | server/client_handler.c:193-364 | And for every interleaving in which deliveries to the receiver and its logins take turns, with all texts heard once it is there and nothing is under way |
| Delivery.FriendIsNeverMisheard | server/client_handler.c:266-321 | From end to end under any interleaving: what is accepted is a subsequence of what the friend sent |
| FriendRequests.BlockIsOpened | client/friendreq.c:310-332 | The receiver finds the two keys and the data block that the sender placed |
| FriendRequests.SignedIsParsed | client/friendreq.c:288-391 | A correctly signed and sealed message yields its name, key and extra data |
| FriendRequests.PackedIsParsed | client/friendreq.c:167-391 | For every name, key size and extra data, parsing recovers what was packed, and the offsets add up to the announced length |
| FriendRequests.PackedStands | client/friendreq.c:206-267 | The payload byte for byte: kind, two lengths, the encrypted keys, name and key and extra data behind their lengths under the first key, the MAC under the second one, and a signature over all that |
| FriendRequests.AcceptedIff | client/friendreq.c:288-391 | parse_rsa_message accepts exactly the payloads of that form that the receiver can decrypt and whose MAC and signature hold; the fields may reach past the data |
| FriendRequests.PackedReaches | client/friendreq.c:393-445 | A request reaches parse_friendreq and an answer parse_friendreq_response, whoever the server says that it is from, and neither reaches anything else |
| FriendRequests.AcceptedIsSigned | client/friendreq.c:356-378 | Nothing is accepted without a signature, under the key it brings along, over everything before it as it came |
| FriendRequests.EncryptedAgain | client/friendreq.c:367-372 | Encrypting the decrypted data again restores the signed bytes |
| FriendRequests.ParseMessage | client/friendreq.c:288-391 | The in-place method parses as specified and leaves an accepted payload as it came |
| FriendRequests.SendMessage | client/friendreq.c:167-286 | The buffer is exactly the letter with the packed payload: the lengths added up beforehand fit, and with a sender's id in place of the target's the letter reaches the parser that its kind names |
| FriendRequests.UnaskedResponseIsTaken | client/friendreq.c:445-503 | Whoever packs an answer, asked or not, under whatever name and from whatever id, reaches parse_friendreq_response with it and becomes a friend with the keys of their choice, who is heard at once |
| FriendRequests.ExchangeMirrorsKeys | client/friendreq.c:445-577 | Both letters reach their parsers, and after request and answer each side has the other's name, id and key, send keys equal receive keys crosswise, each a certain quarter of what was drawn, and a first message in either direction is accepted |
| RwLock.StepKeeps | util/lock.c:11-45 | Every step of any thread keeps the invariant |
| RwLock.LockIsSafe | util/lock.c:11-45 | Over every interleaving: the state is -1 for one writer and no reader, else the number of readers, within [-1, INT_MAX-1]; both assertions hold; nobody sleeps who could get in (EntersIff says when in terms of who is inside) |
| RwLock.EntersIff | util/lock.c:11-37 | Over every interleaving, an awake thread that asks to read gets in with its turn exactly when nobody writes and fewer than INT_MAX-1 read, one that asks to write exactly when nobody is inside, and one that is asleep could not get in |
| RwLock.SleeperIsWoken | util/lock.c:11-45 | The run in which a reader sleeps while a writer is inside, wakes up for no reason and sleeps again, and is woken and gets in when the writer leaves |
| RwLock.ReadersShare | util/lock.c:11-19 | Readers do not keep each other out: any number up to INT_MAX-1 of them is inside together in some run |
| RwLock.EverybodyCanGetIn | util/lock.c:11-45 | Nobody is shut out for good: from every reachable state a thread that asks gets what it asks for when those inside leave and it takes one turn |
| RwLock.Exclusion | util/lock.c:11-45 | While a thread writes no other thread reads or writes |
| RwLock.Lock.ReadTurn | util/lock.c:11-19 | A turn of the waiting loop: in exactly when nobody writes and fewer than INT_MAX-1 read, else asleep |
| RwLock.Lock.ReleaseRead | util/lock.c:21-27 | The assertion holds; the thread and no other stops reading, and every sleeper is woken |
| RwLock.Lock.WriteTurn | util/lock.c:29-37 | The same for a writer: in exactly when nobody reads or writes |
| RwLock.Lock.ReleaseWrite | util/lock.c:39-45 | The assertion holds; nobody is inside and every sleeper is woken |

## Left out

- Sockets, `select`, signals, address lookup, thread creation and clean-up: replaced by arbitrary chunk sizes, step
  interleavings and event lists.
- Memory: allocation succeeds, and freeing, zeroing and the lifetime of a handler after `get_handler` releases
  its lock are not modelled. The `malloc(n) + 1` in client/friends.c:257 and the `fclose(NULL)` in
  client/conversation.c:443-447 are such matters.
- Reads outside a buffer: where a length in a message leads the C code outside it, the model ends in `Overread` or
  `Overrun` instead of a value.
- Files of 2^63 bytes and more: `fseek` takes a signed offset. `Routing.Room` and the bounds on file lengths say where
  this matters.
- Two threads in the same undelivered file at once while routing: the server takes no lock there, but in `Routing`,
  `RoutingThreads` and `RoutingOrder` each operation on a file is one step. `UndeliveredThreads` and `UndeliveredLosses`
  take the operations apart, for one file.
- The buffers of `stdio`: in `UndeliveredThreads` each `fread` and `fwrite` reaches the file at once.
- UndeliveredLosses.CompletedLoadIffNotStale: is about appends while no load goes on; `UndeliveredThreads` has loads too.
- Failing file operations while routing: the logs have theorems about interrupted writes, while `Routing` and
  `RoutingThreads` take the file operations of a step to succeed.
- The time limits inside one transfer: time runs out at an arbitrary event.
- The handshake, login and password derivation: what they leave behind (nonces, mirrored key buffer) is a parameter.
- Bodies of SHA-256, HMAC, ChaCha, scrypt, RSA and DH, which are a foreign library.
- The key file, the profile and the user database: the user database is a fixed registry, and the other two repeat the
  container.
- Terminal interface, prompts, logging, options and paths.
- `add_new_message`, `view_notifs` and the other list operations around notifications.
- HandlerTable.Table.Resize: does not model a failing allocation, after which the C code reports an error although the
  entry was added or removed.
- HandlerSteps.Take: is about a call that does not wait; what is queued during a wait comes from steps of the reader.
- KeepAlive.NeverMissedIff: does not model two clocks that run apart; both handlers read one clock.
- SharedKeyset.ClearIffUnblurred: takes each read and each write of the counter to happen at once, in the order in which
  they are written down; a compiler may read it less often.
- Notifications.NotifsSurviveIff: does not say what a list with a response is read as, only that it is not read back.
