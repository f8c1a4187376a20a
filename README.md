# A verified model of the messenger's core

This project models, in Dafny, the logic of a small ZeroMQ messenger written in C
and of the lab exercises kept beside it. Every operation below is stated against
a specification and proved.

**Server: session directory** (`user_manager.c`). One session per login, with a
user counter and an online counter kept equal to the number of sessions and of
non-offline sessions. The directory covers register, unregister, login, logout,
status change, the online list and the inactivity sweep.

**Server: offline store** (`message_store.c`). A bounded list of messages waiting
for an offline receiver. It supports add, removal by id, drain by receiver and the
age sweep. It is saved to and loaded from a count-prefixed file.

**Server: router** (`server_core.c`). Each handler validates a request, changes
the directory or the store, and publishes colon-delimited frames. Frames look like
`MSG:sender:receiver:text:time`. The router also covers what goes back on the
request-reply socket and the periodic maintenance of the main loop. A text
message goes straight out as a frame when its receiver is online. Otherwise it is
stored, and it is handed over when the receiver registers or logs in.

**Protocol helpers** (`utils.c`, `message_types.h`). These are the login and
message validators, the status names, and the bounded string copies. They also
cover the command-line tokenizer, the message id generator and the user-list
encoding.

**Client** (`network_handler.c`, `ui_handler.c`, `client_core.c`). The client
side models:
- the frame parser that reads the router's frames back;
- the command parser and the bounded history;
- the connection and login state machine and the growable receive queue.

**Lab exercises**:
- the sequential merge sort on an array (`lab2`);
- the two interchangeable GCF libraries, Euclid and countdown (`lab4`);
- two earlier server prototypes: a client table with delayed messages (`cp_try_2`) and an identity-keyed client table (`cp3`).

## How the model is built

- One Dafny module per C file: `UserManager`, `MessageStore`, `Router`, `Utils`, `NetworkHandler`, `UiHandler`, `ClientCore`, `MergeSort`, `Gcf`, `DelayedServer`, `IdentityServer`.
- Two modules are shared: `Protocol` holds the wire vocabulary and `CString` the C library functions the code relies on.
- Objects the C code updates in place are classes whose methods are proved against specification functions. Lemmas prove the properties of those functions.
- The session directory's 101-bucket chained hash table is a `map` from login to session. The bucket function is modelled on its own.
- The store's linked list is a sequence in list order, head first.
- The prototypes' fixed tables and the merge sort keep their arrays.
- The clock is a parameter `now`.
- The publishing socket is a log of frames, and the request-reply socket a log of replies.
- Whether a socket operation or a file open succeeds is also a parameter.
- A session's last activity is written only when the session is created by register (user_manager.c:33), on login (151), on logout (180) and on a status change (211). `user_manager_update_activity` (user_manager.c:314-323) would also refresh it, but nothing in the server calls it. The model follows the code, so the inactivity sweep can drop a user who only sends text messages.

## Model

| member | source | states |
|---|---|---|
| UserManager.Survivors | labs/cp/messenger_system/src/server/user_manager.c:325-359 | the sessions left by an inactivity sweep are exactly those whose idle time is not above the timeout, unchanged |
| UserManager.Stale | labs/cp/messenger_system/src/server/user_manager.c:336-337 | a session is removed by cleanup_inactive when its idle time is strictly above the timeout |
| UserManager.OnlineSetAfterUpdate | labs/cp/messenger_system/src/server/user_manager.c:137-214 | writing a session adds its login to, or removes it from, the set counted by online_count according to its new status |
| UserManager.OnlineSetSameStatus | labs/cp/messenger_system/src/server/user_manager.c:137-160 | rebinding a session without changing its status leaves the online set as it was |
| UserManager.OnlineSetAfterRemove | labs/cp/messenger_system/src/server/user_manager.c:106-135 | removing a session removes only its login from the online set |
| UserManager.LoginHash | labs/cp/messenger_system/src/server/user_manager.c:14-21 | the per-character h * 31 + c hash stays a 32-bit unsigned value |
| UserManager.HashLogin | labs/cp/messenger_system/src/server/user_manager.c:14-21 | the bucket is the 32-bit hash modulo 101, so always a valid bucket index |
| UserManager.SessionDirectory.constructor | labs/cp/messenger_system/src/server/user_manager.c:44-57 | a new directory is empty with both counters at zero |
| UserManager.SessionDirectory.Exists | labs/cp/messenger_system/src/server/user_manager.c:241-250 | true exactly when a session exists for the login |
| UserManager.SessionDirectory.IsOnline | labs/cp/messenger_system/src/server/user_manager.c:230-239 | true exactly when the login has a session whose status is not OFFLINE |
| UserManager.SessionDirectory.Find | labs/cp/messenger_system/src/server/user_manager.c:216-228 | finds the session of a known login and nothing for an unknown one |
| UserManager.SessionDirectory.Register | labs/cp/messenger_system/src/server/user_manager.c:78-104 | a NULL address gives INVALID_MESSAGE and a known login gives LOGIN_EXISTS, both changing nothing; otherwise adds one ONLINE session and bumps both counters; the counters keep matching the table |
| UserManager.SessionDirectory.Unregister | labs/cp/messenger_system/src/server/user_manager.c:106-135 | an unknown login gives LOGIN_NOT_FOUND and changes nothing; otherwise removes that session and decrements user_count, and online_count only if the session was not OFFLINE |
| UserManager.SessionDirectory.Login | labs/cp/messenger_system/src/server/user_manager.c:137-160 | an unknown login is registered; a known one is rebound with its activity refreshed, and only an OFFLINE session turns ONLINE and bumps online_count (AWAY and BUSY are kept) |
| UserManager.SessionDirectory.Logout | labs/cp/messenger_system/src/server/user_manager.c:162-183 | an unknown login gives LOGIN_NOT_FOUND; otherwise the session turns OFFLINE with no address, and online_count drops only if it was not OFFLINE already, so a second logout changes no counter |
| UserManager.SessionDirectory.UpdateStatus | labs/cp/messenger_system/src/server/user_manager.c:185-214 | an out-of-range status gives INVALID_MESSAGE before any lookup and an unknown login LOGIN_NOT_FOUND, both changing nothing; otherwise sets the status and moves online_count only when OFFLINE is entered or left |
| UserManager.SessionDirectory.UpdateActivity | labs/cp/messenger_system/src/server/user_manager.c:314-323 | refreshes only the activity time of a known login; counters unchanged |
| UserManager.SessionDirectory.OnlineLogins | labs/cp/messenger_system/src/server/user_manager.c:278-312 | returns every login whose status is not OFFLINE, each once, and as many as online_count |
| UserManager.SessionDirectory.CleanupInactive | labs/cp/messenger_system/src/server/user_manager.c:325-359 | a timeout of zero or less (or a failed clock) is a no-op; otherwise removes exactly the sessions idle longer than the timeout, with both counters kept consistent |
| UserManager.SessionDirectory.DropIfStale | labs/cp/messenger_system/src/server/user_manager.c:335-356 | one step of the cleanup chain walk: unlinks the session only if it is stale, keeping the counters consistent |
| UserManager.DistinctCardinality | labs/cp/messenger_system/src/server/user_manager.c:278-312 | a repeat-free list holding exactly the online logins has as many entries as the online set |
| MessageStore.NewNode | labs/cp/messenger_system/src/server/message_store.c:12-22 | a new node holds the message, the current time and zero delivery attempts |
| MessageStore.ForReceiver | labs/cp/messenger_system/src/server/message_store.c:157-217 | the nodes a drain hands over are exactly those addressed to the login, in list order |
| MessageStore.NotForReceiver | labs/cp/messenger_system/src/server/message_store.c:157-217 | the nodes a drain keeps are exactly those addressed to anyone else, in list order |
| MessageStore.YoungEnough | labs/cp/messenger_system/src/server/message_store.c:288-318 | the nodes an age sweep keeps are exactly those not older than the limit, in order |
| MessageStore.TooOld | labs/cp/messenger_system/src/server/message_store.c:299-300 | a node is removed by cleanup_old when its age is strictly above the limit |
| MessageStore.DrainPartitions | labs/cp/messenger_system/src/server/message_store.c:157-217 | drained and kept nodes together are a permutation of the list: nothing lost, nothing duplicated |
| MessageStore.DrainIdempotent | labs/cp/messenger_system/src/server/message_store.c:157-217 | after a drain nothing is left for that receiver, so a second drain returns nothing and keeps the list |
| MessageStore.SweepIdempotent | labs/cp/messenger_system/src/server/message_store.c:288-318 | sweeping twice with the same clock removes nothing more than sweeping once |
| MessageStore.FirstWithId | labs/cp/messenger_system/src/server/message_store.c:108-136 | the index of the first node carrying the id, or -1 when there is none |
| MessageStore.RecordsLoaded | labs/cp/messenger_system/src/server/message_store.c:256-279 | loading takes min(count, records present) records, and none for a count below one |
| MessageStore.LoadOutcome | labs/cp/messenger_system/src/server/message_store.c:238-282 | a missing file succeeds with no change, a missing count gives -1, and otherwise the records read are appended in file order and counted, with -1 when the file is cut short |
| MessageStore.SaveLoadRoundTrip | labs/cp/messenger_system/src/server/message_store.c:219-282 | saving a list and loading the file into an empty store gives back the same list and count |
| MessageStore.SaveImage | labs/cp/messenger_system/src/server/message_store.c:219-236 | save_to_file writes the count, then every node in list order (the round trip is stated by SaveLoadRoundTrip) |
| MessageStore.TruncatedLoadKeepsPrefix | labs/cp/messenger_system/src/server/message_store.c:263-278 | a file cut inside a record gives -1 but keeps the records read before the cut, in list and count |
| MessageStore.LoadAsWritten | labs/cp/messenger_system/src/server/message_store.c:271-278 | the loader as written makes the first record the head of the list while still adding to the count |
| MessageStore.LoadAsWrittenLosesNodes | labs/cp/messenger_system/src/server/message_store.c:271-278 | loading one record into a store holding one node leaves one node with a count of two, where the appending loader keeps both |
| MessageStore.LoadAsWrittenAgreesWhenEmpty | labs/cp/messenger_system/src/server/message_store.c:238-282 | loading into an empty store, the loader as written and the appending loader agree |
| MessageStore.Store.constructor | labs/cp/messenger_system/src/server/message_store.c:28-60 | a new store is empty with a zero count |
| MessageStore.Store.Add | labs/cp/messenger_system/src/server/message_store.c:82-106 | at 10000 messages gives SERVER_FULL and changes nothing; otherwise prepends one fresh node and the count grows by one |
| MessageStore.Store.Remove | labs/cp/messenger_system/src/server/message_store.c:108-136 | unlinks only the first node with the id and decrements the count; an unknown id gives LOGIN_NOT_FOUND with no change |
| MessageStore.Store.GetForUser | labs/cp/messenger_system/src/server/message_store.c:138-155 | returns the first node addressed to the login, and nothing exactly when there is none |
| MessageStore.Store.DeliverForUser | labs/cp/messenger_system/src/server/message_store.c:157-217 | hands over exactly the messages for the login in list order and keeps the other nodes in order; with no match the list is unchanged |
| MessageStore.Store.CleanupOld | labs/cp/messenger_system/src/server/message_store.c:288-318 | a limit of zero or less is a no-op; otherwise removes exactly the nodes stored too long ago and keeps the rest in order |
| MessageStore.Store.Save | labs/cp/messenger_system/src/server/message_store.c:219-236 | an unwritable file gives -1; otherwise writes the count followed by the nodes in list order |
| MessageStore.Store.Load | labs/cp/messenger_system/src/server/message_store.c:238-282 | the store ends as the appending loader describes, with the count still equal to the list length |
| MessageStore.CountForReceiver | labs/cp/messenger_system/src/server/message_store.c:162-170 | the counting pass finds as many nodes as are addressed to the login |
| MessageStore.DrainStep | labs/cp/messenger_system/src/server/message_store.c:191-211 | one step of the collecting pass extends the drained or the kept prefix by the next node |
| MessageStore.NoneForReceiver | labs/cp/messenger_system/src/server/message_store.c:157-217 | a list with no node for the login has nothing to drain |
| MessageStore.NothingToDrain | labs/cp/messenger_system/src/server/message_store.c:157-217 | a receiver with nothing pending leaves the list as it is |
| Utils.ValidateLogin | labs/cp/messenger_system/src/common/utils.c:20-34 | a login is valid exactly when it has 1 to 31 characters, each a letter, a digit, '_' or '-' |
| Utils.IsValidMessage | labs/cp/messenger_system/src/common/utils.c:36-51 | a message is valid exactly when its type is 1..14, its text is shorter than 512 and, for text, broadcast and chat messages, its sender is a valid login |
| Utils.StatusToString | labs/cp/messenger_system/src/common/utils.c:268-277 | each of the five statuses has its own name and anything else is "unknown" |
| Utils.StringToStatus | labs/cp/messenger_system/src/common/utils.c:279-295 | the status whose name equals the lower-cased first 31 characters, and OFFLINE for any other text |
| Utils.StatusNameRoundTrip | labs/cp/messenger_system/src/common/utils.c:268-295 | reading back the name of any of the five statuses gives that status |
| Utils.LowerAllIdempotent | labs/cp/messenger_system/src/common/utils.c:279-295 | lower-casing twice is lower-casing once |
| Utils.LowerAllTake | labs/cp/messenger_system/src/common/utils.c:279-295 | lower-casing commutes with keeping the first n characters |
| Utils.StringToStatusIgnoresCase | labs/cp/messenger_system/src/common/utils.c:279-295 | status names are read case-insensitively |
| Utils.StringToStatusFirst31 | labs/cp/messenger_system/src/common/utils.c:279-295 | only the first 31 characters of a status name matter |
| Utils.StrCaseCmp | labs/cp/messenger_system/src/common/utils.c:344-353 | a zero result means the first characters agree ignoring case |
| Utils.StrCaseCmpZero | labs/cp/messenger_system/src/common/utils.c:344-353 | two strings compare equal exactly when they are equal ignoring case |
| Utils.StrCaseCmpAntisymmetric | labs/cp/messenger_system/src/common/utils.c:344-353 | swapping the operands negates the result |
| Utils.CopyBounded | labs/cp/messenger_system/src/common/utils.c:310-315 | copies at most size - 1 characters of the C string, terminates it, and touches nothing before the offset or after the terminator |
| Utils.CopyChars | labs/cp/messenger_system/src/common/utils.c:310-313 | the copy loop stops at the source terminator or after size - 1 characters, having written just those characters |
| Utils.CStrOfPrefix | labs/cp/messenger_system/src/common/utils.c:310-315 | a terminator after a NUL-free prefix makes that prefix the C string |
| Utils.SafeStrcpy | labs/cp/messenger_system/src/common/utils.c:300-316 | a zero size writes nothing; a missing source gives the empty string; otherwise the result is the source cut to size - 1 characters, always terminated, with the rest of the buffer untouched |
| Utils.SafeStrcat | labs/cp/messenger_system/src/common/utils.c:318-329 | when the string in dest is not shorter than the size nothing changes; otherwise the source, cut to fit the size, is appended and terminated, and the result string is the concatenation |
| Utils.AppendAt | labs/cp/messenger_system/src/common/utils.c:323-328 | copying at the end of the existing string keeps that string and appends the cut source after it |
| Utils.AppendedString | labs/cp/messenger_system/src/common/utils.c:318-329 | a buffer holding s, then t, then a terminator holds the C string s + t |
| Utils.TrimEnd | labs/cp/messenger_system/src/common/utils.c:355-362 | the trimmed string is a prefix of the input |
| Utils.TrimEndRemovesLineEnds | labs/cp/messenger_system/src/common/utils.c:355-362 | only trailing '\n' and '\r' characters are removed, and the result ends in neither |
| Utils.TrimEndIdempotent | labs/cp/messenger_system/src/common/utils.c:355-362 | trimming twice is trimming once |
| Utils.TrimNewline | labs/cp/messenger_system/src/common/utils.c:355-362 | the buffer's string becomes its trimmed form; the removed line ends become terminators and nothing after the old string changes |
| Utils.StripLineEnds | labs/cp/messenger_system/src/common/utils.c:358-361 | the loop overwrites exactly the trailing line ends with terminators |
| Utils.SkipWs | labs/cp/messenger_system/src/common/utils.c:166-168 | the first non-space position from i on |
| Utils.WordEnd | labs/cp/messenger_system/src/common/utils.c:181-183 | the first space position from i on |
| Utils.FindFrom | labs/cp/messenger_system/src/common/utils.c:238 | the first position of the character from i on, or the end |
| Utils.SkipSpacesAt | labs/cp/messenger_system/src/common/utils.c:166-168 | the skipping loop stops where SkipWs says |
| Utils.ScanWord | labs/cp/messenger_system/src/common/utils.c:202-204 | the scanning loop stops where WordEnd says |
| Utils.ScanFor | labs/cp/messenger_system/src/common/utils.c:238 | the strchr search stops where FindFrom says |
| Utils.ParseUserInput | labs/cp/messenger_system/src/common/utils.c:155-266 | the four outputs of the tokenizer equal the parse function's |
| Utils.ParseInput | labs/cp/messenger_system/src/common/utils.c:155-266 | what parse_user_input fills in: 0 for a blank line, 1 for "/command arg1 rest", 2 for a lone recipient and 3 for "recipient text" (stated by ParseBlank, ParseFieldsFit, ParseSlashCommand and ParseRecipientText) |
| Utils.ParseSlashLine | labs/cp/messenger_system/src/common/utils.c:175-235 | the slash branch fills command, arg1 and arg2 as the parse function's slash case |
| Utils.ParsePlainLine | labs/cp/messenger_system/src/common/utils.c:236-265 | the recipient branch fills command and arg1 as the parse function's plain case |
| Utils.ParseBlank | labs/cp/messenger_system/src/common/utils.c:166-172 | code 0 exactly for empty or whitespace-only input |
| Utils.ParseFieldsFit | labs/cp/messenger_system/src/common/utils.c:185-262 | the code is 0..3, the command fits 31 characters, arg1 of a slash command 31, the texts 511, and only code 1 fills arg2 |
| Utils.ParseSlashWords | labs/cp/messenger_system/src/common/utils.c:175-235 | a slash command and its first argument contain no space, and the rest starts with a non-space |
| Utils.SlashInputWords | labs/cp/messenger_system/src/common/utils.c:175-235 | the same facts for the slash case at any start position |
| Utils.ParseRecipientWords | labs/cp/messenger_system/src/common/utils.c:236-265 | for codes 2 and 3 the recipient contains no ' ' and the text starts with a non-space |
| Utils.PlainInputWords | labs/cp/messenger_system/src/common/utils.c:236-265 | the same facts for the recipient case at any start position |
| Utils.ParseRecipientText | labs/cp/messenger_system/src/common/utils.c:245-264 | "w t" for a short word w not starting with '/' gives code 3 with recipient w and text t |
| Utils.ParseSlashCommand | labs/cp/messenger_system/src/common/utils.c:175-235 | "/c a r" for short words c and a and a text r gives code 1 with exactly c, a and r |
| Utils.SlashInputParts | labs/cp/messenger_system/src/common/utils.c:175-235 | the slash case itself splits "/c a r" into c, a and r |
| Utils.MessageId | labs/cp/messenger_system/src/common/utils.c:57-60 | an id is a 32-bit value |
| Utils.MessageIdInjective | labs/cp/messenger_system/src/common/utils.c:57-60 | within one second two ids are equal exactly when the counters agree modulo 2^16 |
| Utils.MessageIdSeparatesSeconds | labs/cp/messenger_system/src/common/utils.c:57-60 | ids from seconds that differ modulo 2^16 always differ |
| Utils.MessageIdsDistinctBeforeWrap | labs/cp/messenger_system/src/common/utils.c:57-60 | fewer than 2^16 ids generated within one second are pairwise distinct |
| Utils.IdGenerator.constructor | labs/cp/messenger_system/src/common/utils.c:57-60 | the static counter starts at zero |
| Utils.IdGenerator.Next | labs/cp/messenger_system/src/common/utils.c:57-60 | the counter advances by one with 32-bit wrap-around and the id's low 16 bits are the new counter |
| Utils.SerializeUserList | labs/cp/messenger_system/src/common/utils.c:86-98 | encoding succeeds exactly when the buffer holds the count and all records, and then carries the count and that many records |
| Utils.DeserializeUserList | labs/cp/messenger_system/src/common/utils.c:100-123 | decoding succeeds exactly when the buffer is long enough and the count is at most MAX_USERS, copying the records; a failure after the count is read sets the count to 0 |
| Utils.UserListRoundTrip | labs/cp/messenger_system/src/common/utils.c:86-123 | decoding an encoded list of at most MAX_USERS users gives back its count and users |
| Utils.UserListRejectsOversizedCount | labs/cp/messenger_system/src/common/utils.c:106-110 | a count above MAX_USERS is refused with -1 and the count set to 0 |
| Protocol.ErrorCodeValue | labs/cp/messenger_system/src/common/message_types.h:48-60 | the eleven error codes travel as 0..10, with 0 exactly for success |
| Protocol.ErrorCodeOf | labs/cp/messenger_system/src/common/message_types.h:48-60 | a number names an error code exactly when it is 0..10, and then the code it names travels as that number |
| Protocol.ErrorCodeRoundTrip | labs/cp/messenger_system/src/common/message_types.h:48-60 | every error code is read back from its number |
| CString.Take | labs/cp3/server.c:40 | keeping at most n characters gives a prefix of length min(length, n) |
| CString.CStr | labs/cp/messenger_system/src/common/utils.c:323 | the C string in a buffer is its NUL-free prefix up to the first terminator |
| CString.LowerAll | labs/cp/messenger_system/src/common/utils.c:285-289 | lower-casing maps every character through tolower and keeps the length |
| CString.IndexOf | labs/cp3/server.c:114 | strchr finds the first occurrence of the character, or nothing when it is absent |
| CString.Strtol | labs/cp/messenger_system/src/client/network_handler.c:325 | the number read from a string stays within the range of a long |
| CString.Atoi | labs/cp_try_2/server.c:251 | the int read from a string is the long value whenever that fits 32 bits |
| CString.NatToStringStrtol | labs/cp/messenger_system/src/client/network_handler.c:325 | reading back a printed non-negative number gives that number |
| CString.NatToStringStrtolThen | labs/cp_try_2/server.c:251 | reading a printed number followed by a non-digit stops at the number and gives its value |
| NetworkHandler.FieldLength | labs/cp/messenger_system/src/client/network_handler.c:301-306 | the length of the field before the next ':' |
| NetworkHandler.NextToken | labs/cp/messenger_system/src/client/network_handler.c:301-306 | one strtok step skips leading colons and yields a non-empty colon-free token and a shorter rest |
| NetworkHandler.Tokens | labs/cp/messenger_system/src/client/network_handler.c:301-306 | strtok on ':' yields only non-empty, colon-free tokens, so runs of colons give no empty fields |
| NetworkHandler.FirstParts | labs/cp/messenger_system/src/client/network_handler.c:300-307 | at most five tokens are kept, none holding a colon |
| NetworkHandler.SplitParts | labs/cp/messenger_system/src/client/network_handler.c:300-307 | the tokenizing loop collects exactly the first five tokens |
| NetworkHandler.KindType | labs/cp/messenger_system/src/client/network_handler.c:309-319 | SYS gives SYSTEM_MESSAGE with FLAG_SYSTEM, MSG a chat message, OFFLINE a chat message with FLAG_OFFLINE_STORE, and any other kind type 0 and no flags |
| NetworkHandler.Received | labs/cp/messenger_system/src/client/network_handler.c:284 | the received text is terminated inside the receive buffer and holds no NUL |
| NetworkHandler.ParseFrame | labs/cp/messenger_system/src/client/network_handler.c:288-330 | the parsed message keeps the fresh id; with fewer than five tokens sender and receiver stay empty, the type 0, and the text is a prefix of the raw buffer |
| NetworkHandler.ParseFrameFields | labs/cp/messenger_system/src/client/network_handler.c:321-326 | sender and receiver fit 31 characters and the text 511, the timestamp is 32-bit, and a typed frame's fields hold no colon |
| NetworkHandler.ReceiveFrame | labs/cp/messenger_system/src/client/network_handler.c:288-330 | the receive path's message equals the parse function's |
| NetworkHandler.TokensOfJoin | labs/cp/messenger_system/src/client/network_handler.c:301-306 | joining non-empty colon-free fields with ':' and tokenizing gives the fields back |
| NetworkHandler.ParseJoined | labs/cp/messenger_system/src/client/network_handler.c:309-326 | a frame of five or more plain fields parses to the kind's type and flags, the three truncated fields and the numeric value of the fifth |
| NetworkHandler.TimestampRoundTrip | labs/cp/messenger_system/src/client/network_handler.c:325 | atol of a printed 32-bit timestamp gives that timestamp |
| NetworkHandler.FormatRoundTrip | labs/cp/messenger_system/src/client/network_handler.c:309-326 | parsing a frame in the router's format recovers the sender, receiver, text and timestamp exactly, with the kind's type and flags |
| NetworkHandler.ChatFrameRoundTrip | labs/cp/messenger_system/src/client/network_handler.c:314-326 | a MSG or OFFLINE frame of a chat message parses back to a chat message with the same fields, flagged FLAG_OFFLINE_STORE only for OFFLINE |
| NetworkHandler.BroadcastFrameUntyped | labs/cp/messenger_system/src/client/network_handler.c:309-319 | a BROADCAST frame keeps its fields but is left with type 0 and no flags |
| NetworkHandler.ColonCutsText | labs/cp/messenger_system/src/client/network_handler.c:321-325 | a text containing ':' is cut at its first colon and the part after it is read as the timestamp |
| NetworkHandler.EmptyFieldKeepsRawText | labs/cp/messenger_system/src/client/network_handler.c:327-330 | an empty sender leaves only four tokens, so the whole raw frame becomes the text and sender and receiver stay empty |
| NetworkHandler.WelcomeRoundTrip | labs/cp/messenger_system/src/client/network_handler.c:311-313 | the server's welcome frame parses as a system message from "system" to "*" with the welcome text and its timestamp |
| NetworkHandler.StampOutgoing | labs/cp/messenger_system/src/client/network_handler.c:159-165 | a zero id is replaced by a fresh generated id and a zero timestamp by the clock; non-zero values are kept, and nothing else changes |
| UiHandler.StringToCommand | labs/cp/messenger_system/src/client/ui_handler.c:37-57 | after dropping one leading '/', a known name or alias selects its command and anything else is CMD_UNKNOWN |
| UiHandler.NameSelectsCommand | labs/cp/messenger_system/src/client/ui_handler.c:37-57 | every name and alias, with or without the leading '/', selects its own command |
| UiHandler.SameCommandName | labs/cp/messenger_system/src/client/ui_handler.c:37-57 | only the text after an optional leading '/' decides the command |
| UiHandler.WordLength | labs/cp/messenger_system/src/client/ui_handler.c:203 | the length of the leading run of non-space characters |
| UiHandler.LineLength | labs/cp/messenger_system/src/client/ui_handler.c:203 | the length of the text before the first newline |
| UiHandler.ScanWord | labs/cp/messenger_system/src/client/ui_handler.c:203 | a %Ns conversion yields a non-empty word of at most N non-space characters |
| UiHandler.ScanLine | labs/cp/messenger_system/src/client/ui_handler.c:203 | a %N[^\n] conversion yields a non-empty prefix of at most N characters |
| UiHandler.SlashArguments | labs/cp/messenger_system/src/client/ui_handler.c:208-233 | the arguments of a slash command keep its kind and raw input and fit their buffers |
| UiHandler.ParseCommand | labs/cp/messenger_system/src/client/ui_handler.c:187-261 | empty input gives the all-zero command; otherwise the raw input is kept (cut to fit), the arguments fit their buffers, and input without '/' gives CMD_SEND or CMD_UNKNOWN |
| UiHandler.ScanWordOf | labs/cp/messenger_system/src/client/ui_handler.c:203 | scanning a word followed by a space or the end yields that word and the rest |
| UiHandler.ScanLineOf | labs/cp/messenger_system/src/client/ui_handler.c:203 | scanning a newline-free line that starts with a non-space yields the whole line |
| UiHandler.SlashLine | labs/cp/messenger_system/src/client/ui_handler.c:197-233 | "/name rest" is parsed as the arguments of name's command applied to rest |
| UiHandler.ParseSlash | labs/cp/messenger_system/src/client/ui_handler.c:197-233 | when both conversions succeed the command comes from the name and the arguments from the rest |
| UiHandler.SlashFirstWordOnly | labs/cp/messenger_system/src/client/ui_handler.c:228-230 | for any slash command other than send, login, status, broadcast and me, "/name w t" keeps only the first word w of the rest in arg1 and leaves arg2 empty |
| UiHandler.WordThenAnyLine | labs/cp/messenger_system/src/client/ui_handler.c:203 | a word, a blank and any text without a newline are taken whole by the %511[^\n] conversion |
| UiHandler.FirstWordArgument | labs/cp/messenger_system/src/client/ui_handler.c:228-230 | the one-word conversion of a rest "w t" stores just w in arg1 and leaves arg2 empty |
| UiHandler.SlashSendSplits | labs/cp/messenger_system/src/client/ui_handler.c:211-214 | "/send user text" puts the user in arg1 and the text in arg2 |
| UiHandler.SendArguments | labs/cp/messenger_system/src/client/ui_handler.c:211-214 | the /send arguments split into first word and remaining line |
| UiHandler.SlashWholeRest | labs/cp/messenger_system/src/client/ui_handler.c:216-226 | /login and /status put the whole rest in arg1, /broadcast and /me put it in arg2 |
| UiHandler.PlainLineSplits | labs/cp/messenger_system/src/client/ui_handler.c:239-252 | "user text" gives CMD_SEND with the user in arg1 and the text in arg2 when the user is shorter than 256, and otherwise CMD_UNKNOWN with empty arguments |
| UiHandler.PlainLineRecipient | labs/cp/messenger_system/src/client/ui_handler.c:253-257 | input without a space gives CMD_SEND with the whole input, cut to fit, in arg1 |
| UiHandler.AddEntry | labs/cp/messenger_system/src/client/ui_handler.c:589-601 | the history never holds more than 100 entries |
| UiHandler.LastN | labs/cp/messenger_system/src/client/ui_handler.c:609-616 | the last n entries, or all of them when there are fewer |
| UiHandler.AddEntryKeepsLast | labs/cp/messenger_system/src/client/ui_handler.c:589-601 | adding a message keeps the last 100 of the old entries followed by the message |
| UiHandler.AddAll | labs/cp/messenger_system/src/client/ui_handler.c:589-601 | any sequence of additions leaves at most 100 entries |
| UiHandler.HistoryIsLastHundred | labs/cp/messenger_system/src/client/ui_handler.c:589-601 | after any sequence of additions the history is exactly the last 100 messages added |
| UiHandler.ShowFrom | labs/cp/messenger_system/src/client/ui_handler.c:616-618 | the loop as written prints slot i, then adds that slot to the history again through AddFromSlot (on a full history, the slot's contents after the shift), and re-reads the size; the history never holds more than 100 entries |
| UiHandler.AddFromSlot | labs/cp/messenger_system/src/client/ui_handler.c:589-601 | ui_add_to_history given a pointer to its own slot i: with room, that slot's message is appended; on a full history the memmove runs first, so the oldest entry goes and the new last entry is the message that followed slot i (for slot 99, the last entry again) |
| UiHandler.ShowFromLength | labs/cp/messenger_system/src/client/ui_handler.c:616-618 | the loop as written runs until the history is full, printing 100 - i entries and leaving 100 in the history |
| UiHandler.ShowStart | labs/cp/messenger_system/src/client/ui_handler.c:609-615 | the first index shown is size - min(count, size) for a count of zero or more, and lies within 0..size; a negative count starts past the end, so nothing is shown |
| UiHandler.ShowHistoryAsWritten | labs/cp/messenger_system/src/client/ui_handler.c:603-619 | ui_show_history as written on a non-empty history: a positive count always leaves the history full (100 entries); a count of zero or less prints nothing and leaves the history as it was |
| UiHandler.ShowHistoryPrintsTooMany | labs/cp/messenger_system/src/client/ui_handler.c:603-619 | as written, a history of n entries prints min(count, n) + 100 - n messages |
| UiHandler.FullHistoryShownOutOfOrder | labs/cp/messenger_system/src/client/ui_handler.c:589-618 | on a full history, asking for the last two entries prints them in order, but asking for the last three prints the third last, the last, then the second last |
| UiHandler.ShownHistory | labs/cp/messenger_system/src/client/ui_handler.c:609-618 | the intended display: the last count entries, clamped to the history size |
| UiHandler.UiState.Entries | labs/cp/messenger_system/src/client/ui_handler.c:589-601 | the stored entries are the first history_size slots |
| UiHandler.UiState.constructor | labs/cp/messenger_system/src/client/ui_handler.c:63-78 | a new UI state runs with an empty history |
| UiHandler.UiState.AddToHistory | labs/cp/messenger_system/src/client/ui_handler.c:589-601 | the history becomes the pure AddEntry of the old one: append below 100, else drop the oldest and store last |
| UiHandler.UiState.ShiftDown | labs/cp/messenger_system/src/client/ui_handler.c:597-598 | the memmove moves every entry but the first down by one slot |
| UiHandler.UiState.ShowHistory | labs/cp/messenger_system/src/client/ui_handler.c:603-619 | the intended display (the C as written is ShowHistoryAsWritten, see Findings): the entries shown are the last count entries, clamped to the history size, and the history is not changed |
| UiHandler.UiState.ExecuteExit | labs/cp/messenger_system/src/client/ui_handler.c:328-331 | CMD_EXIT clears the running flag and leaves the history alone |
| UiHandler.ExitThenShouldExit | labs/cp/messenger_system/src/client/ui_handler.c:625-627 | after exit, ui_should_exit answers true |
| ClientCore.Ordinal | labs/cp/messenger_system/src/client/client_core.h:22-29 | the six client states in their declared order, DISCONNECTED first and LOGGED_IN fourth |
| ClientCore.ConnectedStates | labs/cp/messenger_system/src/client/client_core.c:515-517 | client_is_connected holds exactly for CONNECTED, LOGGED_IN, ERROR and SHUTTING_DOWN |
| ClientCore.LoggedInIsConnected | labs/cp/messenger_system/src/client/client_core.c:515-521 | a logged-in client counts as connected |
| ClientCore.GrownCapacity | labs/cp/messenger_system/src/client/client_core.c:56-58 | a full queue grows to twice its capacity, at least 10, so always above the old capacity |
| ClientCore.LoginCode | labs/cp/messenger_system/src/client/client_core.c:302-437 | an invalid login gives INVALID_LOGIN before the connection check gives NOT_AUTHORIZED; a failed request gives INTERNAL_SERVER; success needs the server's success and the subscription |
| ClientCore.LoginAcceptedButUnsubscribed | labs/cp/messenger_system/src/client/client_core.c:352-437 | once the server accepts, a failed subscription still reports INTERNAL_SERVER although the client is already logged in |
| ClientCore.LoginPassesServerCode | labs/cp/messenger_system/src/client/client_core.c:344-350 | a server error code is passed back unchanged and the client does not log in |
| ClientCore.LoginRequest | labs/cp/messenger_system/src/client/client_core.c:323-328 | the login request is a REGISTER message with the given id, the clock reading stored in the 32-bit timestamp field (so taken modulo 2^32), the login cut to 31 characters as sender, and nothing else set |
| ClientCore.SendCode | labs/cp/messenger_system/src/client/client_core.c:460-479 | sending needs a logged-in client (else NOT_AUTHORIZED) and then a valid receiver (else INVALID_LOGIN) |
| ClientCore.Client.constructor | labs/cp/messenger_system/src/client/client_core.c:86-151 | a new client keeps the host cut to 255 characters and the request port, with ports req+1 and req+2; it is DISCONNECTED, logged out and OFFLINE, with no messages sent, no callback and an empty queue of capacity 10 |
| ClientCore.Client.SetStatusCallback | labs/cp/messenger_system/src/client/client_core.c:491-495 | installs or removes the status callback and changes nothing else |
| ClientCore.Client.ChangeState | labs/cp/messenger_system/src/client/client_core.c:27-48 | a change to the current state does nothing; otherwise sets the state and calls the installed callback exactly once with (old, new); every other field is unchanged (the host and ports are constants) |
| ClientCore.Client.QueueMessage | labs/cp/messenger_system/src/client/client_core.c:50-80 | the queue's contents become the old contents followed by the message; a full queue grows to the grown capacity first, and size never exceeds capacity; state, login, status, counter and callback are unchanged |
| ClientCore.Client.Connect | labs/cp/messenger_system/src/client/client_core.c:267-286 | an already connected client gets 0 with no change; otherwise passes through CONNECTING to CONNECTED, or to ERROR with -1 when initialisation fails, reporting each change to an installed callback and none without one; login, status, counter, callback and queue are unchanged |
| ClientCore.Client.Login | labs/cp/messenger_system/src/client/client_core.c:302-437 | returns the login code; the request is sent only for a valid login on a connected client, and only then is a message id drawn (the counter advances by one modulo 2^32 and the request carries the id built from it and the clock); on the server's acceptance the login, ONLINE status and LOGGED_IN state are set and an installed callback gets one (old, LOGGED_IN) call when the state changed; otherwise nothing changes |
| ClientCore.Client.Logout | labs/cp/messenger_system/src/client/client_core.c:439-454 | a client that is not logged in gets 0 with no change; otherwise the login is cleared, the status is OFFLINE and the state CONNECTED, with one (LOGGED_IN, CONNECTED) call to an installed callback; counter, callback and queue are unchanged |
| ClientCore.Client.SendMessage | labs/cp/messenger_system/src/client/client_core.c:460-479 | returns the send code and counts exactly one more sent message (modulo 2^32) on success; nothing else changes |
| ClientCore.Create | labs/cp/messenger_system/src/client/client_core.c:86-151 | a missing host or a port of zero or less gives no client; otherwise a fresh DISCONNECTED client with the host cut to 255 characters, the request port and the derived ports, logged out and OFFLINE, no messages sent, no callback and an empty queue of capacity 10 |
| ClientCore.Grow | labs/cp/messenger_system/src/client/client_core.c:60-72 | the grown queue has the new capacity and keeps the queued messages |
| Router.StatusNoticeUncut | labs/cp/messenger_system/src/server/server_core.c:870-901 | the status notice frame always fits its 2048-byte buffer, so it is published whole |
| Router.Format | labs/cp/messenger_system/src/server/server_core.c:750-753 | a frame printed with snprintf into a buffer of a given size is a prefix of the full "kind:sender:receiver:text:timestamp" text, shorter than the buffer, and the whole text when it fits |
| Router.NoticeText | labs/cp/messenger_system/src/server/server_core.c:870-873 | the "User <login> is now <status>" text, cut to the 256-byte buffer |
| Router.Wire | labs/cp/messenger_system/src/server/server_core.c:888-901 | MSG, OFFLINE and BROADCAST frames are printed into 1024-byte buffers and the greeting into 256 bytes; the status notice is assembled whole from the timestamp kept in a 32-bit field |
| Router.OfflineFrames | labs/cp/messenger_system/src/server/server_core.c:938-948 | one OFFLINE frame per delivered message, in delivery order |
| Router.OkOrError | labs/cp/messenger_system/src/server/server_core.c:524-529 | the generic reply text is "OK" exactly for success and "Error" for every other code |
| Router.OfflineFramesSnoc | labs/cp/messenger_system/src/server/server_core.c:939-952 | the OFFLINE frames of a longer prefix of drained messages extend those of the shorter one by one frame |
| Router.BuildUserList | labs/cp/messenger_system/src/server/server_core.c:803-818 | the user-list text is "Online users: " followed by the logins joined with ", ", cut to fit the 2048-byte buffer |
| Router.JoinLoginsPrefix | labs/cp/messenger_system/src/server/server_core.c:807-818 | the joined list is the join of the logins placed so far followed by the rest of the logins |
| Router.JoinLoginsLength | labs/cp/messenger_system/src/server/server_core.c:807-818 | each login adds at most 33 characters to the joined list |
| Router.UserListComplete | labs/cp/messenger_system/src/server/server_core.c:803-828 | up to 14 online users fit the 511-character reply whole |
| Router.JoinLoginsMentions | labs/cp/messenger_system/src/server/server_core.c:807-818 | every online login appears in the joined list, after a ", " separator unless it comes first |
| Router.ResponseInfo | labs/cp/messenger_system/src/server/server_core.c:561-605 | a given info text is copied, cut to 511 characters; without one, SUCCESS gives "Success", the three lookup errors their own texts, and every other code "Unknown error" |
| Router.RegisterOutcome | labs/cp/messenger_system/src/server/server_core.c:636-671 | a refused registration changes nothing, and INVALID_LOGIN is returned exactly for an invalid login |
| Router.LoginOutcome | labs/cp/messenger_system/src/server/server_core.c:676-701 | a refused login changes nothing, and it succeeds exactly when there is a reply socket and the login is valid |
| Router.LogoutOutcome | labs/cp/messenger_system/src/server/server_core.c:706-722 | logout succeeds exactly for a known sender; otherwise LOGIN_NOT_FOUND with no change |
| Router.TextOutcome | labs/cp/messenger_system/src/server/server_core.c:727-779 | a refused text message changes nothing, and no text message changes the directory |
| Router.BroadcastOutcome | labs/cp/messenger_system/src/server/server_core.c:534-558 | a broadcast succeeds exactly for a known sender; otherwise NOT_AUTHORIZED with no change |
| Router.GetUsersOutcome | labs/cp/messenger_system/src/server/server_core.c:784-840 | the user list changes no server state and is sent exactly when there is a reply socket and the sender is known |
| Router.RequestedStatus | labs/cp/messenger_system/src/server/server_core.c:853-859 | a status name is read case-insensitively, but a text that reads as OFFLINE is accepted only when it is exactly "offline" |
| Router.SetStatusOutcome | labs/cp/messenger_system/src/server/server_core.c:845-912 | a refused status change changes nothing, and a status change never touches the pending messages |
| Router.StatusOutcome | labs/cp/messenger_system/src/server/server_core.c:861-901 | once the status is known, an unknown login is refused with no change, and the pending messages are never touched |
| Router.Dispatch | labs/cp/messenger_system/src/server/server_core.c:469-532 | a refused message changes nothing and an unknown type gives INVALID_MESSAGE |
| Router.DispatchKeepsSessionsValid | labs/cp/messenger_system/src/server/server_core.c:469-532 | no handler stores a login of 32 characters or more or a status outside the enumeration |
| Router.DrainedAccountsForEveryMessage | labs/cp/messenger_system/src/server/server_core.c:917-958 | delivering offline messages publishes one frame per drained message, keeps every other pending message, leaves nothing for the login and does not touch the directory |
| Router.LoginDeliversPending | labs/cp/messenger_system/src/server/server_core.c:676-701 | after a successful login every message that was pending for the user has been published as an OFFLINE frame and none remains pending |
| Router.StoreAndForward | labs/cp/messenger_system/src/server/server_core.c:727-779 | text to a known but offline receiver is stored without any frame, and the receiver's next login publishes it as an OFFLINE frame |
| Router.TextRoutedByPresence | labs/cp/messenger_system/src/server/server_core.c:736-778 | text between known users reaches an online receiver as exactly one MSG frame with no store entry, and an offline one as exactly one stored node with no frame, or SERVER_FULL with no change |
| Router.TextRefusedForUnknownUsers | labs/cp/messenger_system/src/server/server_core.c:736-748 | an unknown sender gives NOT_AUTHORIZED and an unknown receiver LOGIN_NOT_FOUND, both before any change |
| Router.LoggedOutReceiverGetsStored | labs/cp/messenger_system/src/server/server_core.c:706-779 | after its receiver logs out, a text message is stored rather than published |
| Router.RegisterPublishesWelcomeThenOffline | labs/cp/messenger_system/src/server/server_core.c:643-667 | a successful registration adds an ONLINE session, publishes the welcome frame and then one OFFLINE frame per waiting message, and leaves nothing pending for the user |
| Router.RegisterTwiceRefused | labs/cp/messenger_system/src/server/server_core.c:643-667 | registering a login twice gives LOGIN_EXISTS the second time with no change |
| Router.SetStatusByName | labs/cp/messenger_system/src/server/server_core.c:845-912 | a known user sending a status name gets that status and exactly one "User ... is now ..." notice frame |
| Router.OfflineIsCaseSensitive | labs/cp/messenger_system/src/server/server_core.c:855-856 | "Offline" is refused although the name lookup ignores case |
| Router.AwayIsCaseInsensitive | labs/cp/messenger_system/src/server/server_core.c:854 | "Away" is read as AWAY |
| Router.HeartbeatIsNoStatus | labs/cp/messenger_system/src/server/server_core.c:853-859 | the client's "heartbeat" text is refused as a status with no change |
| Router.Server.constructor | labs/cp/messenger_system/src/server/server_core.c:82-195 | a new server has an empty directory, store, frame log and reply log |
| Router.Server.SendReply | labs/cp/messenger_system/src/server/server_core.c:598-604 | a reply goes out only while a request awaits one; otherwise -1 with nothing sent |
| Router.Server.SendResponse | labs/cp/messenger_system/src/server/server_core.c:561-605 | the reply carries the original type and id, the code and the chosen info text |
| Router.Server.PublishOffline | labs/cp/messenger_system/src/server/server_core.c:938-952 | the loop publishes one OFFLINE frame per drained message, in order |
| Router.Server.DeliverOffline | labs/cp/messenger_system/src/server/server_core.c:917-958 | the server ends in the drained state: the login's messages are published as OFFLINE frames and removed from the store |
| Router.Server.HandleRegister | labs/cp/messenger_system/src/server/server_core.c:636-671 | the directory, store and frame log end as the register outcome says, with no reply sent |
| Router.Server.Greet | labs/cp/messenger_system/src/server/server_core.c:656-667 | the welcome frame is published before the login's offline messages are delivered |
| Router.Server.HandleLogin | labs/cp/messenger_system/src/server/server_core.c:676-701 | the server ends as the login outcome says, with no reply sent |
| Router.Server.HandleLogout | labs/cp/messenger_system/src/server/server_core.c:706-722 | the server ends as the logout outcome says |
| Router.Server.HandleText | labs/cp/messenger_system/src/server/server_core.c:727-779 | the server ends as the text outcome says |
| Router.Server.HandleBroadcast | labs/cp/messenger_system/src/server/server_core.c:534-558 | the server ends as the broadcast outcome says |
| Router.Server.HandleGetUsers | labs/cp/messenger_system/src/server/server_core.c:784-840 | on success exactly one reply is sent, holding "Online users: " and every online login once, cut to 511 characters; otherwise nothing is sent |
| Router.Server.HandleSetStatus | labs/cp/messenger_system/src/server/server_core.c:845-912 | the server ends as the set-status outcome says |
| Router.Server.ApplyStatus | labs/cp/messenger_system/src/server/server_core.c:861-901 | the directory, message counter and frame log end as the status outcome says |
| Router.Server.NextMessageId | labs/cp/messenger_system/src/server/server_core.c:879 | the notice's message id advances the 32-bit counter by one |
| Router.Server.RunHandler | labs/cp/messenger_system/src/server/server_core.c:482-521 | the server ends as the dispatch says; only a user-list request on the reply socket sends a reply of its own |
| Router.Server.RunRequestHandler | labs/cp/messenger_system/src/server/server_core.c:483-496 | register, login and user-list requests end as the dispatch says |
| Router.Server.RunOneWayHandler | labs/cp/messenger_system/src/server/server_core.c:498-520 | the other types end as the dispatch says and send no reply of their own |
| Router.Server.ProcessMessage | labs/cp/messenger_system/src/server/server_core.c:469-532 | the server ends as the dispatch says; register and login send no generic reply, and other types on the reply socket get one generic reply with "OK" or "Error" |
| Router.Server.ServeRequest | labs/cp/messenger_system/src/server/server_core.c:353-370 | a full-size request is counted and processed, and the requester then always gets SUCCESS/"OK" unless a reply went out already |
| Router.Server.ServePush | labs/cp/messenger_system/src/server/server_core.c:373-382 | a pushed message is counted and processed with no reply |
| Router.Server.Maintenance | labs/cp/messenger_system/src/server/server_core.c:384-393 | once 60 seconds have passed since the last run, sessions idle over 300 s and messages older than 604800 s are removed; otherwise nothing changes |
| Gcf.Abs | labs/lab4/src/lib1/gcf.c:5-6 | abs returns the argument or its negation and is never negative |
| Gcf.GcdDivides | labs/lab4/src/lib1/gcf.c:9-19 | Euclid's result is zero exactly when both operands are, and otherwise divides both operands |
| Gcf.GcdGreatest | labs/lab4/src/lib1/gcf.c:13-19 | every common divisor of the operands divides Euclid's result |
| Gcf.GcdLargest | labs/lab4/src/lib1/gcf.c:13-19 | no common divisor of two operands that are not both zero exceeds Euclid's result |
| Gcf.LargestIsGcd | labs/lab4/src/lib2/gcf.c:13-24 | the largest common divisor at or below a bound equal to one operand is the Euclidean gcd, so both libraries agree |
| Gcf.GcdZeroLeft | labs/lab4/src/lib1/gcf.c:9 | a zero first operand yields the second operand |
| Gcf.GcfEdges | labs/lab4/src/lib1/gcf.c:5-10 | GCF(A, 0) = abs(A), GCF(0, B) = abs(B), and the result ignores the signs of A and B |
| Gcf.GcfCommutes | labs/lab4/src/lib1/gcf.c:3-20 | GCF(A, B) = GCF(B, A) |
| Gcf.GcfIsGreatestCommonDivisor | labs/lab4/src/lib1/gcf.c:3-20 | GCF is zero only for (0, 0), otherwise a common divisor of abs(A) and abs(B) that every common divisor divides |
| Gcf.EuclidGcf | labs/lab4/src/lib1/gcf.c:3-20 | the iterative Euclid loop with its early returns computes the greatest common divisor of abs(A) and abs(B) |
| Gcf.CountdownGcf | labs/lab4/src/lib2/gcf.c:3-24 | the countdown from min(abs(A), abs(B)) returns a common divisor with no common divisor above it, which equals the Euclidean result |
| Gcf.NoneAboveBound | labs/lab4/src/lib2/gcf.c:13-20 | a common divisor of both operands never exceeds the smaller one, so the countdown's start loses no candidate |
| MergeSort.NeighboursSorted | labs/lab2/src/merge_sort.c:10-17 | checking only adjacent pairs is the same as the whole prefix being in non-decreasing order |
| MergeSort.Prefix | labs/lab2/src/merge_sort.c:10-11 | the first size elements of the array, none when size is negative |
| MergeSort.IsSorted | labs/lab2/src/merge_sort.c:10-17 | returns 1 exactly when the first size elements are in non-decreasing order, 0 otherwise |
| MergeSort.ArraysEqual | labs/lab2/src/merge_sort.c:19-26 | returns 1 exactly when the first size elements of both arrays agree, 0 otherwise |
| MergeSort.Merged | labs/lab2/src/merge_sort.c:57-70 | merging two runs yields as many elements as the two runs hold |
| MergeSort.MergedPermutes | labs/lab2/src/merge_sort.c:57-70 | merging keeps exactly the elements of both runs |
| MergeSort.MergedAtLeast | labs/lab2/src/merge_sort.c:57-70 | a lower bound of both runs bounds the merge |
| MergeSort.MergedSorted | labs/lab2/src/merge_sort.c:57-70 | merging two sorted runs gives a sorted run |
| MergeSort.MergedKeepsOrderedRuns | labs/lab2/src/merge_sort.c:57-70 | when every left element is at most every right element the merge is the left run followed by the right run |
| MergeSort.MergeFromIsMerged | labs/lab2/src/merge_sort.c:57-70 | the merge resumed from cursors i and j is the merge of the remaining suffixes |
| MergeSort.MergeFromStep | labs/lab2/src/merge_sort.c:58-67 | one step takes the left head on ties and the right head otherwise |
| MergeSort.Merge | labs/lab2/src/merge_sort.c:28-76 | arr[left..right] becomes the merge of the two old halves, returns 0, and nothing outside the range changes |
| MergeSort.MergeRuns | labs/lab2/src/merge_sort.c:50-71 | copying the halves out and merging them back writes the merged run at left |
| MergeSort.MergeHeads | labs/lab2/src/merge_sort.c:57-67 | the main loop stops with one run exhausted and the merged prefix written |
| MergeSort.PlaceHead | labs/lab2/src/merge_sort.c:58-66 | one iteration writes the smaller head and advances its cursor |
| MergeSort.PutNext | labs/lab2/src/merge_sort.c:60-66 | the write arr[k] of the merge loop extends the placed prefix by the next element of the merge and changes no other slot |
| MergeSort.DrainRests | labs/lab2/src/merge_sort.c:69-70 | the two tail loops copy what remains of the unexhausted run |
| MergeSort.MergedRests | labs/lab2/src/merge_sort.c:69-70 | once one run is exhausted the rest of the merge is the other run's remainder |
| MergeSort.Drain | labs/lab2/src/merge_sort.c:69-70 | one tail loop copies the remainder of a run in order |
| MergeSort.Inserted | labs/lab2/src/merge_sort.c:83-87 | inserting one key lengthens the run by one |
| MergeSort.InsertionSorted | labs/lab2/src/merge_sort.c:78-89 | insertion sort keeps the length |
| MergeSort.InsertedPermutes | labs/lab2/src/merge_sort.c:83-87 | inserting a key adds exactly that key |
| MergeSort.InsertedSorted | labs/lab2/src/merge_sort.c:83-87 | inserting into a sorted run keeps it sorted |
| MergeSort.InsertionSortedSorts | labs/lab2/src/merge_sort.c:78-89 | insertion sort's result is sorted and a permutation of its input |
| MergeSort.SortedUnique | labs/lab2/src/merge_sort.c:78-105 | two sorted permutations of the same elements are equal, so any correct sort gives the same result |
| MergeSort.SortedIsInsertionSorted | labs/lab2/src/merge_sort.c:91-105 | any sorted permutation of the input is the insertion-sorted input |
| MergeSort.InsertedAt | labs/lab2/src/merge_sort.c:83-87 | placing the key after the last element not above it and before the larger ones is insertion |
| MergeSort.InsertLast | labs/lab2/src/merge_sort.c:80-87 | one pass of the outer loop inserts arr[i] into the sorted run before it |
| MergeSort.ShiftLarger | labs/lab2/src/merge_sort.c:83-86 | the inner loop shifts the elements greater than the key one place right and stops at the first that is not |
| MergeSort.InsertSort | labs/lab2/src/merge_sort.c:78-89 | arr[left..right] becomes its own insertion-sorted contents and nothing outside it changes |
| MergeSort.InsertRounds | labs/lab2/src/merge_sort.c:79-88 | after the outer loop the range holds the sorted prefix of its original contents |
| MergeSort.InsertNext | labs/lab2/src/merge_sort.c:79-88 | each outer iteration extends the sorted prefix by one and leaves the rest untouched |
| MergeSort.SortedPrefixIsInsertionSorted | labs/lab2/src/merge_sort.c:79-88 | the loop's sorted prefix is the insertion sort of the original prefix |
| MergeSort.SequentialMergeSort | labs/lab2/src/merge_sort.c:91-105 | returns 0 and leaves arr[left..right] sorted and a permutation of its old contents, for every threshold, and nothing outside it changes |
| MergeSort.SortHalves | labs/lab2/src/merge_sort.c:99-104 | sorting both halves and merging sorts the range |
| MergeSort.SortRightAndMerge | labs/lab2/src/merge_sort.c:101-103 | sorting the right half and merging gives the merge of the sorted halves |
| MergeSort.SortHalvesSorts | labs/lab2/src/merge_sort.c:99-104 | the merge of the insertion-sorted halves is the insertion-sorted whole |
| MergeSort.MergedHalves | labs/lab2/src/merge_sort.c:99-104 | merging the sorted halves of any split is sorting the whole |
| MergeSort.ThresholdIrrelevant | labs/lab2/src/merge_sort.c:94-104 | any two sorted permutations of the same input coincide, so the threshold choice does not change the result |
| DelayedServer.FindLogin | labs/cp_try_2/server.c:29-35 | the index of the first client with this login, or -1 when there is none |
| DelayedServer.FindLoginIs | labs/cp_try_2/server.c:29-35 | any index with the first-match property is the one the scan returns |
| DelayedServer.Updated | labs/cp_try_2/server.c:25-47 | update_client on the table's contents: a known login gets the new address and time in place, a new one is appended while there is room, and a full table is left alone (its properties are the UpdatedKeepsDistinct, UpdatedHoldsLogin and UpdatedKeepsOthers rows) |
| DelayedServer.Removed | labs/cp_try_2/server.c:49-64 | remove_client on the table's contents: the first entry with the login is taken out and the later ones close up (its properties are the RemovedKeepsDistinct, RemovedDropsLogin and RemovedKeepsOthers rows) |
| DelayedServer.UpdatedKeepsDistinct | labs/cp_try_2/server.c:25-47 | update_client never creates a second entry for a login and never exceeds MAX_CLIENTS |
| DelayedServer.UpdatedHoldsLogin | labs/cp_try_2/server.c:28-44 | after update_client the login is present exactly when it was already there or the table had room, with the new address and time; the table grows only for a new login with room |
| DelayedServer.UpdatedKeepsOthers | labs/cp_try_2/server.c:28-44 | update_client leaves every other client's entry and position unchanged |
| DelayedServer.RemovedKeepsDistinct | labs/cp_try_2/server.c:49-64 | remove_client keeps logins distinct |
| DelayedServer.RemovedDropsLogin | labs/cp_try_2/server.c:52-60 | after remove_client the login is absent, the count drops by one exactly when it was present, and later entries shift down one place in order |
| DelayedServer.RemovedKeepsOthers | labs/cp_try_2/server.c:52-60 | remove_client keeps every other client and its data |
| DelayedServer.FindAfterRemoval | labs/cp_try_2/server.c:52-60 | another login's index drops by one when it followed the removed entry and is unchanged otherwise |
| DelayedServer.ShiftedIsRemoved | labs/cp_try_2/server.c:54-57 | the shifting loop leaves the table minus the removed entry |
| DelayedServer.Added | labs/cp_try_2/server.c:66-92 | a message is queued active with its send time as the original time when fewer than MAX_DELAYED_MSGS are queued, and dropped otherwise |
| DelayedServer.Sent | labs/cp_try_2/server.c:110-111 | the message a due entry publishes is the queued one retyped as TEXT and stamped with the tick time |
| DelayedServer.Fired | labs/cp_try_2/server.c:105-131 | one slot after a tick: an active entry whose original time has passed is sent and made inactive, any other is left as it was |
| DelayedServer.Due | labs/cp_try_2/server.c:105-132 | one tick sends at most one message per queued entry |
| DelayedServer.Ticked | labs/cp_try_2/server.c:105-132 | each entry is fired or kept independently, in place |
| DelayedServer.DuePrefixIsDue | labs/cp_try_2/server.c:105-133 | the messages sent by the first n slots are those due among the first n entries |
| DelayedServer.DueSendsDueEntries | labs/cp_try_2/server.c:105-132 | a tick sends exactly the active entries whose original time has passed, each retyped as text and stamped with the tick time |
| DelayedServer.TickSendsOnce | labs/cp_try_2/server.c:105-132 | a second tick at the same time sends nothing and changes nothing |
| DelayedServer.NoneDue | labs/cp_try_2/server.c:105-107 | with no active entry due, a tick sends nothing |
| DelayedServer.LaterTickSendsOnlyPending | labs/cp_try_2/server.c:131 | an entry sent once is never sent again at any later tick |
| DelayedServer.DelayOfWritten | labs/cp_try_2/server.c:250-257 | text "DELAY:n:rest" yields the delay n and the text rest; "DELAY:n" with no colon yields no delay |
| DelayedServer.DelayOf | labs/cp_try_2/server.c:250-257 | the delay read by atoi after "DELAY:" and the text after the next colon, or nothing when the prefix or that colon is missing (stated by DelayOfWritten) |
| DelayedServer.ColonAfterDigits | labs/cp_try_2/server.c:252 | the colon searched for after the delay's digits is the one that ends them |
| DelayedServer.WithParsedDelay | labs/cp_try_2/server.c:250-256 | a parsed delay sets the send time to now plus the delay and the text to what follows the colon |
| DelayedServer.WithDelay | labs/cp_try_2/server.c:250-257 | the DELAYED case before queueing: a parsed delay reschedules the message to now plus the delay with the text after the colon, otherwise the message is unchanged (stated by WithParsedDelay and WithUnparsedDelay) |
| DelayedServer.WithDelayReadsPrefix | labs/cp_try_2/server.c:250-256 | a message written as "DELAY:n:rest" is rescheduled n seconds after now with text rest |
| DelayedServer.WithUnparsedDelay | labs/cp_try_2/server.c:250-257 | text without the "DELAY:" prefix and a colon leaves the message unchanged |
| DelayedServer.WithDelayKeepsUnparsed | labs/cp_try_2/server.c:253 | "DELAY:n" without a colon is queued unchanged |
| DelayedServer.Server.constructor | labs/cp_try_2/server.c:18-21 | the server starts with no clients, no delayed messages and nothing published |
| DelayedServer.Server.IndexOfLogin | labs/cp_try_2/server.c:29-35 | the array scan returns the first index holding the login, or -1 |
| DelayedServer.Server.UpdateClient | labs/cp_try_2/server.c:25-47 | the client array becomes the updated table and the delayed queue and published messages do not change |
| DelayedServer.Server.RemoveClient | labs/cp_try_2/server.c:49-64 | the client array becomes the table without the login and nothing else changes |
| DelayedServer.Server.ShiftDown | labs/cp_try_2/server.c:54-57 | the shift loop removes slot i and decrements the count |
| DelayedServer.Server.AddDelayed | labs/cp_try_2/server.c:66-92 | the delayed queue becomes the queue with the message added and nothing else changes |
| DelayedServer.Server.Tick | labs/cp_try_2/server.c:100-135 | one pass of the delayed thread fires every due entry in place and publishes exactly the due messages, in slot order |
| DelayedServer.Server.FireAll | labs/cp_try_2/server.c:105-133 | the loop over all slots fires each and publishes the due ones in order |
| DelayedServer.Server.FireSlot | labs/cp_try_2/server.c:106-131 | one slot is fired and published when due and left alone otherwise |
| DelayedServer.Server.Handle | labs/cp_try_2/server.c:193-271 | JOIN updates the client, LEAVE removes it, TEXT is published unchanged, DELAYED is parsed and queued, and any other type changes nothing |
| IdentityServer.FindByName | labs/cp3/server.c:16-23 | the index of the first client with this name, or -1 |
| IdentityServer.FindByIdentity | labs/cp3/server.c:25-33 | the index of the first client with this identity (same size and bytes), or -1 |
| IdentityServer.FindByIdentityIs | labs/cp3/server.c:25-33 | any index with the first-match property is the one the identity scan returns |
| IdentityServer.FindByNameIs | labs/cp3/server.c:16-23 | any index with the first-match property is the one the name scan returns |
| IdentityServer.RegisteredKeepsDistinct | labs/cp3/server.c:35-60 | registration never gives two clients the same identity and never exceeds 10 clients |
| IdentityServer.Registered | labs/cp3/server.c:35-60 | register_client on the table's contents: a known identity has its name replaced, a new one is appended while there is room, a full table is left alone (stated by RegisteredOutcome) |
| IdentityServer.RegisterResult | labs/cp3/server.c:35-60 | register_client returns 1 unless a new identity meets a full table, where it returns 0 (stated by RegisteredOutcome) |
| IdentityServer.RegisteredOutcome | labs/cp3/server.c:35-60 | a known identity gets its name replaced by the first 31 characters and returns 1; a new identity is appended and returns 1 when there is room; with a full table nothing changes and 0 is returned |
| IdentityServer.RegisteredFindsIdentity | labs/cp3/server.c:35-60 | after a successful registration the identity is found with the new name and every other client is unchanged |
| IdentityServer.LongNameUnreachable | labs/cp3/server.c:40-41 | a name longer than 31 characters is stored truncated, so that client cannot be reached by the name it registered |
| IdentityServer.SharedNameFindsFirst | labs/cp3/server.c:16-23 | two identities may register the same name, and messages for that name go to the first of them |
| IdentityServer.MessageText | labs/cp3/server.c:102-106 | the received frame is cut to 255 bytes and read up to its first NUL |
| IdentityServer.Route | labs/cp3/server.c:112-178 | text starting with '@' is a direct message when it holds a space and is malformed otherwise; any other text is a registration |
| IdentityServer.RouteDirect | labs/cp3/server.c:112-118 | "@target text" with no space in target routes to target with text |
| IdentityServer.RouteRegister | labs/cp3/server.c:175-177 | text not starting with '@' registers the sender under that name |
| IdentityServer.Server.constructor | labs/cp3/server.c:13-14 | the server starts with no clients and no replies |
| IdentityServer.Server.IndexByName | labs/cp3/server.c:16-23 | the array scan returns the first index holding the name, or -1 |
| IdentityServer.Server.IndexByIdentity | labs/cp3/server.c:25-33 | the array scan returns the first index holding the identity, or -1 |
| IdentityServer.Server.RegisterClient | labs/cp3/server.c:35-60 | the client array becomes the registered table and the result is 1 unless the table is full for a new identity |
| IdentityServer.Server.Handle | labs/cp3/server.c:99-178 | a registration updates the table; a direct message is forwarded to the first client with the target name, or the sender gets a not-found reply; a malformed message changes nothing |

## Left out

- ZeroMQ itself is not modelled: contexts, socket set-up and tear-down, `zmq_poll`, and the subscription set-up in `client_login`. The model keeps only what is sent and what the set-up's success decides.
- A failed publish (`ERROR_INTERNAL_SERVER` after a failed send on the publishing socket) is not modelled. Every publish succeeds.
- Threads, mutexes and atomics are not modelled: the client's receive and heartbeat threads, the parallel merge sort, and the thread around the delayed queue. Each store is a sequential object; the single `Tick` of `DelayedServer` is one pass of that thread.
- Wall-clock time, logging, `printf` and the terminal UI are not modelled (`ui_main_loop`, `ui_print_*`, `ui_format_*`, `server_log`). Time enters as a parameter.
- Allocation failure is not modelled. `malloc` and `realloc` always succeed, so `merge` never returns -1 and `queue_message` always grows.
- NULL-pointer guards on arguments (`if (!client) return ...`) are not modelled. Dafny references and strings are never null. The NULL address of `user_manager_register` and the NULL source of `safe_strcpy` are modelled, because they are ordinary inputs.
- Byte layouts are not modelled: the packed `Message` struct sent as raw bytes, `serialize_message`/`deserialize_message`, and the `sizeof(time_t)` record layout of the store file. The store file is a count followed by whole records, and a record cut short counts as missing.
- Floating point (`sin_integral.c`, the benchmarks), the lab1 and lab3 pipe and shared-memory demos, the `main` functions and the superseded prototypes (`labs/cp/server.c`, `labs/cp4`, the clients) are not part of this model.
- UserManager.SessionDirectory.Register and UserManager.SessionDirectory.Login require a login shorter than 32 characters. For a longer login, C stores a 31-character copy but looks it up by the full string, and a map keyed by the login cannot represent that. The router calls them only with logins that passed validation, which are shorter.
- Gcf.EuclidGcf and Gcf.CountdownGcf exclude `INT_MIN`, whose `abs` is undefined in C.
- MergeSort.SequentialMergeSort takes `SEQUENTIAL_THRESHOLD` as a parameter. The program sets this global from its command line (default 50), and the result is proved the same for every threshold.
- DelayedServer.Server.Tick is one pass over the slots. The `sleep(1)` loop around it is not modelled.

## Findings

| source | as written | input that shows it | evidently intended | confidence | as-written member | corrected member |
|---|---|---|---|---|---|---|
| labs/cp/messenger_system/src/client/ui_handler.c:603-619 | `ui_show_history` prints each entry with `ui_print_message`, which adds it to the history again (line 372) from a pointer into the history itself, so the loop runs until the history is full and, once it is full, the memmove shifts the slots under the loop | a history holding one entry, shown with count 1, prints 100 lines (UiHandler.ShowHistoryPrintsTooMany); a full history shown with count 3 prints the third last, the last, then the second last (UiHandler.FullHistoryShownOutOfOrder) | print exactly the last `count` entries once each, in order | not executed | UiHandler.ShowHistoryAsWritten | UiHandler.ShownHistory |
| labs/cp/messenger_system/src/server/message_store.c:271-278 | the loader makes the first record it reads the head of the list (line 275) while still adding to the count, so loading into a non-empty store loses the existing nodes | a store holding one node, loading a file with one record, ends with one node and a count of 2 (MessageStore.LoadAsWrittenLosesNodes) | append the loaded records after the existing ones and keep the count equal to the list length | not executed | MessageStore.LoadAsWritten | MessageStore.LoadOutcome |
