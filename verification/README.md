# libqxt: IRC codec, Berkeley DB hash, directory list and IRC tabs

A Dafny model of four pieces of libqxt and proofs about them:

* the IRC message codec of the ircpeer example (RFC 1459, sections 2.3.1 and 2.4) and the receive loop of
  `QxtRPCService` that drives it;
* `QxtBdbHash`, its iterator, and the two-call fetch of `QxtBdb::get`;
* the tabs and the channel table of the ircpeer main window;
* the image list of the flow view example, kept in step with a directory and its watcher.

Each part that the program runs step by step is a method or a class with its fields, proved against a
specification function; the lemmas are about these functions.

| file | content |
|---|---|
| Wrappers.dfy, ByteArray.dfy | an optional value; the `QByteArray` operations used: search, parts, trim, split, join, number conversion |
| IrcName.dfy | `IRCName`: printing and matching nick!ident@host |
| IrcLine.dfy | what a line means: the scan of a line, the rewriting of replies, the bytes of a call |
| IrcSerializer.dfy | `serialize` and `deserialize` as they run: stream, buffer, word loops, list edits |
| IrcFraming.dfy | cutting lines out of the buffer, draining, independence of chunks |
| IrcGrammar.dfy | the parameter grammar as a relation, and the scan as its one solution |
| IrcRoundTrip.dfy | the messages that survive, and their round trip |
| IrcParams.dfy, IrcWire.dfy | which parameters arrive; the bytes of any call |
| IrcExact.dfy | that no other messages survive, and which lines can be printed again |
| IrcCalls.dfy | lines of servers, and calls whose first parameter is no sender |
| IrcReplies.dfy, IrcFaults.dfy | numeric replies and CTCP requests; the lines the parser cannot cope with |
| RpcService.dfy | the receive loop: when it ends, and what it delivers |
| BdbStore.dfy, BdbOrder.dfy | the store as sorted records with cursors; ranks, look-ups, positions |
| BdbGet.dfy, BdbHash.dfy, BdbMap.dfy | the fetch, the hash and its iterator, the hash as a finite map |
| IrcTabs.dfy, IrcClient.dfy | the client's tabs as values, and the slots that update them |
| IrcShown.dfy | what each event shows, where, and what it sends |
| FsImageModel.dfy | the directory list, its watcher and the row signals |

A byte string is a Dafny `string`, one `char` a byte. A list index past the end, which the program does not
guard against, is the outcome `OutOfRange`.

## What the code does that its comments or names do not say

* `canDeserialize` says yes to a CR without an LF, and `deserialize` takes nothing out of such a buffer, so
  the receive loop does not come to an end on it. `RpcService.LoopEndsExactlyWhen` gives the exact
  condition; `RpcService.MessagesAreDelivered` says that a stream of messages is delivered exactly when no
  chunk ends between a CR and its LF. Draining "while there is an LF" has no such limit
  (`RpcService.StreamDelivery`).
* The pattern in `IRCName::fromName` needs a '!': nick@host, which the RFC allows, gives a name with no
  parts. `IrcName.FromNameIsTheMatch` gives the exact condition.
* `deserialize` runs past the end of its lists on a line that is only a prefix, on a numeric reply with
  nothing but markers after the nick, and on a PRIVMSG with fewer than two parameters, and on no other line
  (`IrcFaults.RunsOutExactly`; `PrefixAlone`, `MarkerReply` and `ShortPrivmsg` are such lines).
* The protocol error in `deserialize` for an empty prefix word is never returned. An empty command with
  parameters, as in a line with two spaces after the prefix, does count as a protocol error in the receive
  loop (`IrcFaults.ProtocolErrorExactly`, `IrcFaults.TwoSpaces`).
* A message called "numeric" or "raw" does not come back, whatever its parameters
  (`IrcExact.RoundTripExactly`).
* `QxtBdbHash::end` is the last record, not a place after it.
* `QxtBdbHash::value` returns a default value for an entry whose value is saved as no bytes at all
  (`BdbMap.FlagIsLost`); a traversal sees a default key for an entry with neither key nor value bytes
  (`BdbMap.TraversalSeesTheMap`).
* `QxtBdb::get` with a key to be written and no cursor, the default, allocates the key buffer anew between
  its two calls, so that the second call looks for whatever is left in that memory
  (`BdbGet.QxtBdb.GetWithoutCursor`). No caller in the library does this.
* `+=` and `-=` on an iterator call each other for ever with the least 32-bit integer
  (`BdbHash.DelegationEndsExactlyWhen`). `j*(-1)` overflows there, which C++ leaves open; wrap-around is
  assumed.
* `/join` with a name that no message is shown under (empty, AUTH, the own nick) leaves a key without a view
  in the channel table, and nothing else does (`IrcTabs.RunAgrees`). It is never looked up for a message
  (`IrcTabs.LookupIsSafe`).

## Model

| member | source | states |
|---|---|---|
| IrcName.FromNameIsTheMatch | examples/ircpeer/ircpeer.cpp:130-134 | The pattern decomposes a string in at most one way, it matches exactly the strings with a '!' that no '@' precedes, and fromName returns the parts of that match |
| IrcName.FromNameOfAssemble | examples/ircpeer/ircpeer.cpp:130-140 | fromName undoes assemble for a name if and only if it has no parts, or an ident, no '!' or '@' in the nick and no '@' in the ident |
| IrcName.AssembleOfFromName | examples/ircpeer/ircpeer.cpp:130-140 | assemble undoes fromName for a string if and only if it is empty, or matches with a non-empty ident and with a host or no '@' |
| IrcName.PrefixRoundTrip | examples/ircpeer/ircpeer.cpp:74-76 | A sender printed as a prefix parses back to itself if and only if it has no parts or has ident and host and clean nick and ident |
| IrcName.FromPrefixIsTheSender | examples/ircpeer/ircpeer.cpp:74-76 | The sender of a prefix: no parts for none, the prefix three times without an '@', and with one the parts of its match or no parts |
| ByteArray.ToIntOfDigits | examples/ircpeer/ircpeer.cpp:69-70 | Digits count as the number they spell when it fits in 32 bits and as 0 otherwise, with a '-' as its negative |
| ByteArray.ToIntOfNumber | examples/ircpeer/ircpeer.cpp:69-70 | The printed digits of a number are read as that number |
| ByteArray.DecimalOfZeroFirst | examples/ircpeer/ircpeer.cpp:69-70 | Zeros in front do not count |
| IrcLine.WordsAreScanned | examples/ircpeer/ircpeer.cpp:60-89 | Splitting at spaces, skipping empty words and joining the trailing ones gives what scanning the bytes gives, inner runs of spaces of the trailing parameter included |
| IrcGrammar.ScanIsTheGrammar | examples/ircpeer/ircpeer.cpp:79-89 | The scanned parameters are the one solution of the parameter grammar of RFC 1459 for the bytes after the command, for all bytes |
| IrcSerializer.SerializeParam | examples/ircpeer/ircpeer.cpp:12-25 | Writes one parameter and reports whether the line is complete, so that what was written and what is still to come make up the whole |
| IrcSerializer.Serialize | examples/ircpeer/ircpeer.cpp:27-52 | The chain of stream writes produces the line of the call |
| IrcSerializer.ReadParams | examples/ircpeer/ircpeer.cpp:79-89 | The word loop with its two nested position updates collects the parameters |
| IrcSerializer.DropNickAndMarkers | examples/ircpeer/ircpeer.cpp:92-94 | The removal loop terminates, stays in range or reports that it would not, and leaves the kept parameters |
| IrcSerializer.RewriteNumeric | examples/ircpeer/ircpeer.cpp:91-113 | The in-place list edits of a numeric reply amount to NumericCall |
| IrcSerializer.RewritePrivmsg | examples/ircpeer/ircpeer.cpp:114-122 | The in-place split of a CTCP request amounts to PrivmsgCall |
| IrcSerializer.Deserialize | examples/ircpeer/ircpeer.cpp:54-128 | The buffer loses exactly the cut line and its line end, and the result is what the trimmed line parses to by a direct scan |
| IrcFraming.DrainIsSplit | examples/ircpeer/ircpeer.cpp:54-58 | Draining over arbitrary bytes processes exactly the trimmed non-blank pieces of the part up to the last LF, split at every CR and LF, and leaves exactly the bytes after the last LF |
| IrcFraming.DrainAppend | examples/ircpeer/ircpeer.cpp:54-58 | Draining a and then what is left together with b is draining a ++ b |
| IrcFraming.ChunkIndependence | examples/ircpeer/ircpeer.cpp:54-58 | The lines and the rest do not depend on how the stream is cut into chunks |
| IrcRoundTrip.RoundTrip | examples/ircpeer/ircpeer.cpp:12-89 | A message that survives comes back with the same command, sender and parameters, and the buffer keeps LF and whatever followed |
| IrcParams.ArrivingExactly | examples/ircpeer/ircpeer.cpp:12-25 | Parameters arrive as they were sent if and only if none is empty, only the last contains a space or starts with ':', and the last does not end in white space |
| IrcExact.RoundTripExactly | examples/ircpeer/ircpeer.cpp:12-128 | A message of any command, sender and up to seven parameters, of any bytes, comes back as it was sent if and only if its command is plain, its sender has no parts or has ident and host with clean separators, its parameters arrive, it has no line ends, and it is no CTCP request |
| IrcExact.NormalFormExactly | examples/ircpeer/ircpeer.cpp:27-89 | A line that is no numeric reply and no CTCP request, printed from what it parses to and parsed again, gives the same result if and only if its prefix is stable, its last parameter is not empty, and its command is not "raw" and can stand first where the sender is not printed |
| IrcExact.StablePrefixMeans | examples/ircpeer/ircpeer.cpp:74-76 | The prefixes whose senders survive printing: without '!' and '@', or with an '@' and a full match or none; this includes the prefix stored three times |
| IrcWire.SerializedLineEnd | examples/ircpeer/ircpeer.cpp:12-52 | Any call without line ends and other than raw gives a line with one CR and one LF, as its last two bytes |
| IrcWire.LaterArgsDoNotMatter | examples/ircpeer/ircpeer.cpp:12-52 | The line does not depend on arguments after the first that is invalid, contains a space or starts with ':' |
| IrcCalls.PlainParamBytes | examples/ircpeer/ircpeer.cpp:12-25 | Parameters without spaces and leading colons are written after one space each, and nothing more |
| IrcCalls.TrailingParamBytes | examples/ircpeer/ircpeer.cpp:17-21 | The first parameter with a space or a leading colon is written after a colon and is the last |
| IrcCalls.NothingBeforeCommand | examples/ircpeer/ircpeer.cpp:32-42 | A call with an invalid, an empty or a nameless first parameter starts with its command |
| IrcCalls.CallWithoutSender | examples/ircpeer/ircpeer.cpp:27-89 | A message that survives without a sender comes back when it is called with an invalid first parameter |
| IrcCalls.CallWithTextSender | examples/ircpeer/ircpeer.cpp:39-41 | A text in place of the sender is the prefix, and what comes back has the sender this prefix stands for |
| IrcCalls.RawArrives | examples/ircpeer/ircpeer.cpp:29 | A raw call writes its text and a line end, and the next cut is the text without the white space around it |
| IrcCalls.NumericArrives | examples/ircpeer/ircpeer.cpp:69-113 | A line with a number as its command comes in as a reply from a sender whose nick is the server and the number and whose host is the server; of the parameters the nick and the markers after it go and all others are carried |
| IrcCalls.NamedNumericArrives | examples/ircpeer/ircpeer.cpp:73-113 | A line with the literal command numeric is taken for a reply with number 0, from the sender of its prefix |
| IrcReplies.NumericReply | examples/ircpeer/ircpeer.cpp:91-113 | A numeric reply that keeps something has exactly a sender and two texts, in which every kept parameter stands at a place of its own, in order, alone or followed by one space, with not a byte more; which of them are in the first text is exactly given |
| IrcReplies.NumericOutOfRange | examples/ircpeer/ircpeer.cpp:92-94 | The list runs out if and only if only markers follow the nick |
| IrcFaults.RunsOutExactly | examples/ircpeer/ircpeer.cpp:60-122 | An index runs past the end of a list if and only if the line is only a prefix, or a numeric reply with nothing but markers after the nick, or a PRIVMSG with fewer than two parameters |
| IrcFaults.ProtocolErrorExactly | src/core/qxtrpcservice.cpp:353-357 | What the receive loop takes for a protocol error comes from exactly the lines with two spaces after the prefix, or a space in front |
| IrcFaults.PrefixAlone | examples/ircpeer/ircpeer.cpp:67 | Every line that is only a prefix runs out |
| IrcFaults.MarkerReply | examples/ircpeer/ircpeer.cpp:92-94 | Every reply 353 that stops after its marker runs out |
| IrcFaults.ShortPrivmsg | examples/ircpeer/ircpeer.cpp:114-115 | Every PRIVMSG without a text runs out |
| IrcFaults.TwoSpaces | examples/ircpeer/ircpeer.cpp:60-67 | Every line with two spaces after its prefix is a protocol error |
| IrcReplies.SpacedHolds | examples/ircpeer/ircpeer.cpp:109-111 | Every joined parameter stands in the joined text, at increasing places |
| IrcReplies.SplitOfSpaced | examples/ircpeer/ircpeer.cpp:109-111 | Splitting the joined text gives space-free parameters back |
| IrcReplies.CtcpKeepsPayload | examples/ircpeer/ircpeer.cpp:115-121 | Command suffix and text of a CTCP request together are the payload without its bytes 1, split before the first space |
| IrcReplies.ActionArrives | examples/ircpeer/mainwindow.cpp:132-135 | What /me sends arrives as CTCP-ACTION with one space and the text that the local echo shows, for every nick, channel and text that can be sent |
| RpcService.StreamDelivery | examples/ircpeer/ircpeer.cpp:27-58 | Any run of well-formed messages, cut into any chunks and drained after each, gives exactly their lines in order, which parse to them, and an empty buffer |
| RpcService.RpcPeer.ServerData | src/core/qxtrpcservice.cpp:336-367 | The loop over the buffer ends in the state that following its turns leads to |
| RpcService.LoopEndsExactlyWhen | src/core/qxtrpcservice.cpp:344-367 | The loop ends if and only if no CR follows the last LF, or some line before it is one that runs out of parameters or has an empty command |
| RpcService.ServedIsDrained | src/core/qxtrpcservice.cpp:344-367 | When all lines parse, the loop dispatches their calls, each once and in order, and keeps the bytes after the last LF |
| RpcService.ServedStops | src/core/qxtrpcservice.cpp:344-367 | At the first line that runs out of parameters or has an empty command the loop has dispatched exactly the calls of the lines before it, is disconnected for the empty command, and keeps what follows that line |
| RpcService.EmptyCommandEnds | src/core/qxtrpcservice.cpp:353-357 | A line with an empty command ends the connection and does not run out of parameters |
| RpcService.MessagesAreDelivered | src/core/qxtrpcservice.cpp:336-367 | For any run of well-formed messages in any chunks, all calls return if and only if no chunk ends between CR and LF, and then every message is dispatched once, in order, with the eight arguments it was sent with |
| BdbGet.QxtBdb.Get | src/bdb/qxtbdb.cpp:146-252 | The sizing and the fetching call together fail with everything unchanged or move the cursor one record and load it; only a record without bytes is found without being loaded |
| BdbGet.QxtBdb.GetAt | src/bdb/qxtbdb.cpp:264-364 | The same for a given key, where only the value is sized and loaded |
| BdbGet.QxtBdb.GetWithoutCursor | src/bdb/qxtbdb.cpp:146-252 | Without a cursor a record with data is found if and only if the memory the key buffer gets happens to hold a stored key whose data fits, and then that record is loaded |
| BdbHash.DelegationEndsExactlyWhen | src/bdb/qxtbdbhash.h:488-547 | += and -= stop handing a negative j to each other if and only if it is not the least 32-bit integer, and then after one call with the same steps to go |
| BdbHash.HashIterator.Increment | src/bdb/qxtbdbhash.h:464-474 | Moves to the next key or becomes invalid; an invalid iterator stays so |
| BdbHash.HashIterator.Decrement | src/bdb/qxtbdbhash.h:514-524 | Moves to the previous key or becomes invalid; an invalid iterator stays so |
| BdbHash.HashIterator.PlusAssign | src/bdb/qxtbdbhash.h:488-497 | The mutually recursive operators end for every 32-bit j but the least and shift the place by j |
| BdbHash.HashIterator.MinusAssign | src/bdb/qxtbdbhash.h:538-547 | The same in the other direction |
| BdbHash.HashIterator.Erase | src/bdb/qxtbdbhash.h:553-563 | Removes the record under the iterator, invalidates the iterator and returns one at the record after it |
| BdbHash.HashIterator.Key | src/bdb/qxtbdbhash.h:423-433 | The key of the record, or a default one when there is none |
| BdbHash.HashIterator.Value | src/bdb/qxtbdbhash.h:437-447 | The value of the record, or a default one when there is none |
| BdbHash.BdbHash.Begin | src/bdb/qxtbdbhash.h:188-196 | An iterator at the first record, invalid when there is none |
| BdbHash.BdbHash.End | src/bdb/qxtbdbhash.h:199-207 | An iterator at the last record, invalid when there is none |
| BdbHash.BdbHash.Find | src/bdb/qxtbdbhash.h:210-218 | An iterator at the key, invalid when it is not stored |
| BdbHash.BdbHash.Insert | src/bdb/qxtbdbhash.h:295-336 | Puts the saved pair into an open store |
| BdbHash.BdbHash.Remove | src/bdb/qxtbdbhash.h:265-290 | Deletes the saved key and reports whether some record had it |
| BdbHash.BdbHash.Contains | src/bdb/qxtbdbhash.h:238-262 | Whether some record has the saved key |
| BdbHash.BdbHash.Value | src/bdb/qxtbdbhash.h:341-350 | The loaded value, or a default one |
| BdbHash.BdbHash.Clear | src/bdb/qxtbdbhash.h:226-234 | Empties an open store |
| BdbHash.BdbHash.KeysForward | src/bdb/qxtbdbhash.h:188-196 | The loop from begin with ++ until invalid ends, and has seen the key of every record once, in key order |
| BdbHash.BdbHash.KeysBackward | src/bdb/qxtbdbhash.h:199-207 | The loop from end with -- sees the same keys in reverse |
| BdbHash.BdbHash.EraseAll | src/bdb/qxtbdbhash.h:553-563 | Erasing from the first record while valid empties the store, with the number of records as measure |
| BdbStore.LessMeans | src/bdb/qxtbdb.cpp:93-100 | The order of the keys is that of a dictionary over their bytes |
| BdbOrder.NextIsNearest | src/bdb/qxtbdbhash.h:464-474 | The record after a key, stored or not, is the nearest above it |
| BdbOrder.PrevIsNearest | src/bdb/qxtbdbhash.h:514-524 | The record before a key, stored or not, is the nearest below it |
| BdbOrder.Traversal | src/bdb/qxtbdbhash.h:188-207 | n steps from the first record reach record n and then nothing, n steps back from the last reach the records in reverse |
| BdbOrder.ShiftIsAddition | src/bdb/qxtbdbhash.h:488-547 | From record p, j steps lead to record p + j when there is one and nowhere otherwise |
| BdbOrder.ShiftsAddUp | src/bdb/qxtbdbhash.h:488-547 | Two shifts are one by their sum if and only if the place between exists or the sum leads nowhere |
| BdbOrder.ShiftOfNowhere | src/bdb/qxtbdbhash.h:466-467 | An invalid iterator stays invalid under every shift |
| BdbOrder.AfterDeleted | src/bdb/qxtbdbhash.h:556-559 | The place of a deleted record still leads to the record after it |
| BdbOrder.DelOfRecord | src/bdb/qxtbdbhash.h:558 | Deleting a record keeps all others and their order |
| BdbMap.Perform | src/bdb/qxtbdbhash.h:210-350 | Every operation of an open hash leaves the records and gives the answer that OnRecords says |
| BdbMap.PerformAll | src/bdb/qxtbdbhash.h:210-350 | The same for a run of operations |
| BdbMap.StepAgrees | src/bdb/qxtbdbhash.h:210-350 | One operation keeps the agreement with a finite map, and its answer is the map's if and only if it is not the value of an entry saved as nothing that is not the default |
| BdbMap.RunAgrees | src/bdb/qxtbdbhash.h:210-350 | Every run of insert, remove, clear, contains, value and find keeps the agreement, and its answers are the map's if and only if no such value is asked for |
| BdbMap.AlwaysAgreesExactly | src/bdb/qxtbdbhash.h:341-350 | All runs from an empty hash answer as a map does if and only if nothing but the default value is saved as nothing |
| BdbMap.FlagIsLost | src/bdb/qxtbdbhash.h:341-350 | A type that loads what it saves, and an entry of it that value() forgets |
| BdbMap.TraversalSeesTheMap | src/bdb/qxtbdbhash.h:423-433 | The keys a traversal sees are those of the map if and only if no entry with neither key nor value bytes has a key other than the default, and then each is seen once |
| BdbMap.SameMapSameRecords | src/bdb/qxtbdb.cpp:93-100 | The stored sequence depends on the map alone, whatever operations led to it |
| BdbMap.RecordIsEntry | src/bdb/qxtbdbhash.h:423-447 | Each record loads as an entry of the map, and different records as different entries |
| IrcTabs.StepKeeps | examples/ircpeer/mainwindow.cpp:66-194 | Every event keeps the invariant: server tab first, titles distinct, index in range, keys without a view unused; and the server tab keeps its lines |
| IrcTabs.RunKeeps | examples/ircpeer/mainwindow.cpp:66-194 | The same for every run of events |
| IrcTabs.LookupIsSafe | examples/ircpeer/mainwindow.cpp:98-118 | In every reachable state the name a message is routed to is no key without a view, whatever names were joined |
| IrcTabs.RunAgrees | examples/ircpeer/mainwindow.cpp:66-194 | After every run of events the keys of the channel table are the titles of the tabs if and only if they were before it and no /join in it had a name that no message is shown under |
| IrcTabs.StepBlanks | examples/ircpeer/mainwindow.cpp:126-131 | Such a /join makes exactly its name a key without a view, and no other event makes or removes one |
| IrcTabs.LogKeeps | examples/ircpeer/mainwindow.cpp:98-113 | A logged line is the last line of exactly the tab it is routed to, and all else stays |
| IrcTabs.LogAdds | examples/ircpeer/mainwindow.cpp:98-113 | A logged line is one more line under the title it is routed to, and under no other |
| IrcTabs.JoinedShows | examples/ircpeer/mainwindow.cpp:81-85 | Exactly the channel's tab and, when there is one, the user's own gain a line when someone joins |
| IrcTabs.QuitShows | examples/ircpeer/mainwindow.cpp:92-96 | Exactly the tab of the empty channel name and, when there is one, the user's own gain a line when someone quits |
| IrcTabs.TabOfUser | examples/ircpeer/mainwindow.cpp:99-107 | The user's own tab has the user's name, and the tab of the empty channel name is the server tab for everyone with a nick |
| IrcShown.PrivateMessageShows | examples/ircpeer/mainwindow.cpp:66-118 | What another user sends to one's own nick adds one line, with that user and the text, under the name of the user and under no other |
| IrcShown.ChannelMessageShows | examples/ircpeer/mainwindow.cpp:66-118 | What is sent to a channel adds one line under that channel and under no other, whoever sent it |
| IrcShown.ServerMessageShows | examples/ircpeer/mainwindow.cpp:66-118 | What is sent to no channel or to AUTH, or to oneself by oneself or by nobody, adds one line in the server tab and in no other |
| IrcShown.OthersSendNothing | examples/ircpeer/mainwindow.cpp:66-118 | Nothing is sent for what is received, nor for cycling and clicking |
| IrcShown.JoinTyped | examples/ircpeer/mainwindow.cpp:126-131 | /join sends JOIN for a channel name only, adds one line in the tab of the name and shows that tab; for a name no message is shown under, one line in the server tab |
| IrcShown.TextTyped | examples/ircpeer/mainwindow.cpp:150-153 | Text is sent as PRIVMSG to the name of the tab shown, and adds one line there |
| IrcShown.NamesTyped | examples/ircpeer/mainwindow.cpp:136-140 | /names sends NAMES for the tab shown, or for what follows |
| IrcShown.RawTyped | examples/ircpeer/mainwindow.cpp:143-144 | /raw sends what follows it |
| IrcShown.PartTyped | examples/ircpeer/mainwindow.cpp:122-146 | /part does what the closing key does; /quit and blank text change nothing in the tabs |
| IrcShown.UnknownTyped | examples/ircpeer/mainwindow.cpp:147-149 | Any other command is not sent, and adds one line in the server tab |
| IrcShown.CloseShows | examples/ircpeer/mainwindow.cpp:158-165 | Closing takes the lines of the tab shown and of no other, shows the neighbour, and sends PART for a channel only; the server tab stays |
| IrcShown.PressesCycle | examples/ircpeer/mainwindow.cpp:185-192 | Presses of the cycling keys change nothing but the tab shown, to the right for Tab and to the left for Backtab |
| IrcTabs.ConnectingStarts | examples/ircpeer/mainwindow.cpp:41-46 | The connecting message makes the server tab with this one line, for every host that is not empty or AUTH, and no key without a view |
| IrcTabs.PartCloses | examples/ircpeer/mainwindow.cpp:158-165 | Closing removes exactly the tab shown, and never the server tab |
| IrcTabs.ActionIsSentAndShown | examples/ircpeer/mainwindow.cpp:132-135 | A typed action is sent under the name of the tab shown and shown there as it was typed |
| IrcTabs.CyclingTurnsBack | examples/ircpeer/mainwindow.cpp:185-192 | The next tab is in range, and one step back undoes one forward |
| IrcTabs.CyclingIsRotation | examples/ircpeer/mainwindow.cpp:185-192 | As many presses as there are tabs end at the first tab, and show every tab exactly once on the way, in either direction |
| IrcClient.MainWindow.LogMessage | examples/ircpeer/mainwindow.cpp:98-118 | Finds a view for every message, making tab and table entry when there is none, and appends to that view alone |
| IrcClient.MainWindow.ReceiveMessage | examples/ircpeer/mainwindow.cpp:66-71 | Shows a message, or the text of an action |
| IrcClient.MainWindow.UserJoin | examples/ircpeer/mainwindow.cpp:81-85 | Looks the user up in the channel table and logs as UserJoin says; JoinedShows tells which tabs gain a line |
| IrcClient.MainWindow.UserPart | examples/ircpeer/mainwindow.cpp:87-90 | One line in the channel, unless it is oneself |
| IrcClient.MainWindow.UserQuit | examples/ircpeer/mainwindow.cpp:92-96 | Looks the user up in the channel table and logs as UserQuit says; QuitShows tells which tabs gain a line |
| IrcClient.MainWindow.PartCurrentChannel | examples/ircpeer/mainwindow.cpp:158-165 | Takes the tab shown out of the tabs and the table together |
| IrcClient.MainWindow.CycleTab | examples/ircpeer/mainwindow.cpp:185-192 | Shows the next or previous tab, wrapping around |
| IrcClient.MainWindow.Join | examples/ircpeer/mainwindow.cpp:126-131 | Request, message and switch of a /join |
| IrcClient.MainWindow.Send | examples/ircpeer/mainwindow.cpp:121-156 | What a typed line sends and shows |
| FsImageModel.FsImageModel.constructor | examples/qxtflowview/fsimagemodel.cpp:14-39 | List and watched paths start as the listing |
| FsImageModel.FsImageModel.FileChanged | examples/qxtflowview/fsimagemodel.cpp:133-157 | Removes exactly the entry whose file is gone, stays in step with the watcher, and emits exactly one signal, Changed or Removed, at the row of the path, or none when there is no such row |
| FsImageModel.FsImageModel.AddNew | examples/qxtflowview/fsimagemodel.cpp:93-124 | The loop over the listing appends the unknown entries, announces exactly these as new rows, and leaves the watched paths that are not listed |
| FsImageModel.FsImageModel.DirectoryChanged | examples/qxtflowview/fsimagemodel.cpp:88-131 | The list becomes the surviving entries in their old order and the new ones in listing order, the watched paths are those of the list, nothing occurs twice; every row signal is in range for a view that applies them, and leaves it with the rows of the new list, the old entries where they now are and exactly the new ones unread |
| FsImageModel.HistoryIsLastListing | examples/qxtflowview/fsimagemodel.cpp:88-131 | After any sequence of listings the list is a permutation of the last one |
| FsImageModel.SyncHolds | examples/qxtflowview/fsimagemodel.cpp:88-131 | The list afterwards holds what is listed and the old entries that exist |
| FsImageModel.SyncOrder | examples/qxtflowview/fsimagemodel.cpp:88-131 | Old entries come first in their old order, then the new ones in the order of the listing |
| FsImageModel.SyncSettles | examples/qxtflowview/fsimagemodel.cpp:88-131 | A second report of the same listing changes nothing |
| FsImageModel.TracksThen | examples/qxtflowview/fsimagemodel.cpp:106-150 | Following the signals of two steps one after the other is following both, when no name that is gone comes back |

## Left out

- Text encodings: strings are bytes; conversions between QString and QByteArray, which stop at a zero byte, are taken to be the identity.
- NOTICE with a null sender (examples/ircpeer/ircpeer.cpp:123-125): the first parameter always holds an IRCName, which is not null, so the branch is not taken.
- IrcSerializer.Deserialize: what happens after an index past the end of a list is not modelled; the outcome is OutOfRange, and the receive loop stops there.
- RpcService.RpcPeer.ServerData: requires the condition under which the loop ends (Settles), since a method that does not return cannot be stated; LoopEndsExactlyWhen shows that the condition is exact. Dispatching to slots, and the per-client form of the loop, are not part of this model.
- BdbHash.HashIterator.PlusAssign: the least 32-bit integer is excluded, because the operators do not end on it; DelegationEndsExactlyWhen shows that the condition is exact.
- BdbHash.HashIterator.MinusAssign: the same.
- Iterator copies, postfix operators and + and - on iterators: their meaning is that of QSharedDataPointer, which is not part of this model.
- Berkeley DB itself: BdbStore is the contract it is taken to keep. Opening, flushing, verifying, memory and threads are left out.
- BdbGet.QxtBdb.Get: a cursor is given; the call without one is GetWithoutCursor. The key and value variables are taken to be distinct objects.
- BdbGet.QxtBdb.GetWithoutCursor: what is left in newly allocated memory is a parameter.
- The widgets: icons, scrolling, alerts, dialogs, clearing the input line. Closing a tab shows the tab to its right or the last one, as QTabBar does by default.
- The answer to PING, and the calls and messages on connecting and on socket errors: fixed, with nothing to prove.
- Formatting of shown lines: a line is its format and its two arguments.
- FsImageModel.FsImageModel.DirectoryChanged: a listing without duplicates is assumed, as QDir gives it; image loading and its retry loop are left out, and which files exist is a parameter.
- POP3, zeroconf, web, and the remaining widgets and examples: no part of this model.
