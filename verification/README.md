# kvdb: a verified model

kvdb is a key-value property service. A single-threaded server owns two databases, one that
survives a reboot (keys starting with "persist.") and one that does not; clients talk to it over
stream sockets with a small length-prefixed protocol; writes are committed after a delay; clients
can monitor keys by pattern; default values are loaded from property files; and the same API can
also run directly on the databases, without a server.

The project models that service and proves what it promises over all inputs, all fragmentations of
its streams in both directions, all interleavings and all runs:

| file | what it holds |
|---|---|
| ByteStrings.dfy | bytes, C strings, limits, error codes, the four-byte reply word |
| Store.dfy | the two databases with their committed copies, and that they act as one map |
| Loader.dfy | property files: `fgets`, `strtok_r`, boot load and forced reload |
| Streams.dfy | a socket as a sequence of arbitrary non-empty pieces; the receive loop |
| Protocol.dfy | request encoders against the server's decoder |
| ServerModel.dfy | server state, one connection, one event of the loop, runs, as functions |
| Server.dfy | the server process as a class, each method proved equal to its function |
| Descriptors.dfy, StoreRuns.dfy, Durability.dfy, MonitorStreams.dfy, Startup.dfy | what every run keeps |
| Readers.dfy | the client's list and monitor readers, and end-to-end monitor streams |
| Api.dfy, Refinement.dfy | the string API in server mode, in direct mode and as a reference map |
| Clients.dfy | both client implementations as classes |
| Linearizability.dfy | any number of concurrent clients |
| Codecs.dfy | hex buffers and integers |
| Nvs.dfy | the prefix-stripping backend over two name-keyed devices |

Reading the code, several claims turned out to hold only under a condition, and are stated with it:

- A request is understood exactly when its two or three header bytes arrive in the first piece. A set
  split after two bytes of it stores the empty value and still answers as the whole one would; one split after the
  first byte is refused with -E2BIG, because its key is taken to be empty (`SetMisread`,
  `SplitSetStoresNothing`).
- No descriptor leaks exactly when every monitor registration succeeds (`DescriptorConservation`).
- A write stays unsaved without a deadline exactly when a deadline commit, a commit request, a reload
  or a start-up load failed on a changed database while no other deadline was pending, and nothing
  committed on request, wrote or restarted since (`StrandedAfter`, `StrandedExactly`).
- Direct mode agrees with server mode exactly when the temporary database is absent or kept in a
  file (`DirectAgreesIff`).
- The length test of `property_set_buffer` sees the size modulo half the range of `size_t`: a buffer
  is refused exactly when that is 128 or more, and stored whole exactly when the doubled size does not
  wrap (`BufferTextExactly`).
- The room made for a monitor's pattern holds the copied string with its NUL exactly when the announced
  length is not zero. The byte tested first is the last one announced; for a zero length it is the
  length byte itself, which is zero and inside the buffer, so the test passes and a string of at least
  one byte is copied into no room (`UnsizedExactly`, `PatternFits`). Runs leave that frame out.
- A call through the server has the effect that was meant exactly when its request arrives: its header
  is not split, or the split makes no difference (`RequestArrives`). Its answer is the one that was
  meant exactly when the first piece of the reply holds the four bytes of the code or the whole text of
  the value, or a wrong answer is the same by chance (`AnswerArrives`).
- The answer of `property_commit` is the server's code exactly when its four bytes come in the first
  piece, or what it returns instead is that code by chance. At kvdb/client.c:746-750 an `int` is compared with an unsigned size: a failed `recv` passes the
  test and an unset variable is returned, and a short reply returns the thread's old `errno`
  (`CommitAnswered`).
- "ro." keys are write-once over UnQLite only: the NVS backend overwrites and deletes them
  (`ReadOnlyKeysChange`).
- A monitoring client reads exactly the matching changes if and only if no frame header is split
  (`MonitorSeesMatchingChanges`).
- `property_get_int32` wraps a stored number that only a wider `long` can hold
  (`Int32OfWideNumber`).
- Listing over the NVS backend shows whole keys exactly when the name field is no larger than
  CONFIG_NAME_MAX (`KeysListedWhole`).

Where comments and code disagree the model follows the code: values may be up to 254 bytes with
their NUL although kvdb/common.c:155-156 speaks of PROP_NAME_MAX; a truncated list reply is reported
with the thread's old `errno` (kvdb/client.c:448-453), which may be 0; and the one-way buffer setter
is in fact two-way (kvdb/common.c:464-467).

## Model

| member | source | states |
|---|---|---|
| Store.Kvdb.Set | kvdb/unqlite.c:53-73 | size, terminator, database choice and write-once checks in order, then one store; refused sets change nothing |
| Store.Kvdb.Get | kvdb/unqlite.c:75-97 | the fetched length and bytes, cut to the caller's room; absent and empty values are errors |
| Store.Kvdb.Delete | kvdb/unqlite.c:99-116 | "ro." keys are refused, missing keys are reported, otherwise one key goes |
| Store.Kvdb.Commit | kvdb/unqlite.c:160-175 | every database is tried, the first failure is returned, only successful ones become saved |
| Store.Kvdb.List | kvdb/unqlite.c:133-158 | the consumer is called with each cursor's entries, database by database |
| Store.SetExactly | kvdb/unqlite.c:27-73 | in bytes and numbers: key of 1 to 127 bytes with its NUL, value of at most 254, the database chosen by "persist.", only a present "ro." key refused; all codes; what changes |
| Store.DeleteExactly | kvdb/unqlite.c:27-116 | the same for delete: every present key that is not "ro." goes |
| Store.GetExactly | kvdb/unqlite.c:75-97 | the same for get, with and without a buffer |
| Store.CommitExactly | kvdb/unqlite.c:160-175 | which database is saved, and the code of the first failure |
| Store.SetOnView | kvdb/unqlite.c:53-73 | the two databases act as one flat map under set: exact refusal codes, one key changed, saved copies untouched |
| Store.DeleteOnView | kvdb/unqlite.c:99-116 | the same for delete |
| Store.GetOnView | kvdb/unqlite.c:75-97 | a get succeeds exactly when the flat map holds a non-empty value, and returns it |
| Loader.LoadFile | kvdb/server.c:203-218 | the read loop applies exactly the definitions of the file, in order |
| Loader.LoadAll | kvdb/server.c:162-228 | every readable path of the ';' list is applied, then the databases are committed |
| Loader.LoadMeaning | kvdb/server.c:183-223 | boot keeps existing values and takes the first valid definition of a missing key; reload takes the last one, also for "ro." keys |
| Loader.LoadIdempotent | kvdb/server.c:203-218 | loading the same files again changes nothing, at boot and at reload |
| Loader.LoadCommits | kvdb/server.c:223 | with successful commits nothing is left unsaved |
| Loader.ParseUndoesPrint | kvdb/server.c:152-217 | the line key=value is one read that defines exactly that pair, if and only if the pair is printable; '=' in the value is fine |
| Loader.FileParseUndoesPrint | kvdb/server.c:203-217 | a whole file of printable pairs defines exactly those pairs, in order |
| Loader.LineMeaning | kvdb/server.c:152-217 | for every line: it defines key and value if and only if it is no comment and is key=value behind any number of '=', both non-empty |
| Loader.MixedFile | kvdb/server.c:203-217 | a file of pairs mixed with comments, blank lines and lines without '=' defines exactly its pairs, in order |
| Loader.PathInOrder | kvdb/server.c:193-201 | an unreadable path is skipped, and earlier files come first |
| Loader.LongPath | kvdb/server.c:185-191 | a path too long for the buffer is cut to 255 bytes, except the last one |
| Loader.PathsOfJoined | kvdb/server.c:183-191 | paths joined with ';' are found again, whole and in order |
| Streams.Stream.Recv | kvdb/server.c:326-331 | one recv returns part of the next piece, or how the stream ended |
| Streams.Stream.ReceiveAll | kvdb/server.c:323-335 | the buffer is filled with the next bytes whatever the pieces, or the call fails because the stream ended first |
| Protocol.ReadRequest | kvdb/server.c:352-452 | for any bytes in any pieces, every access stays inside the 385-byte buffer and the request is the one the bytes announce |
| Protocol.SetFraming | kvdb/client.c:145-173 | a set is decoded to the client's key and value if and only if the three header bytes come in the first piece |
| Protocol.SetMisread | kvdb/server.c:358-419 | split after two header bytes it is a set of the empty value, after one a set of the empty key |
| Protocol.GetFraming | kvdb/client.c:256-263 | the same for get, whose room travels modulo 256 |
| Protocol.GetMisread | kvdb/server.c:358-399 | split after two header bytes it asks for no bytes, after one of no key |
| Protocol.DeleteFraming | kvdb/client.c:355-362 | the same for delete, with two header bytes |
| Protocol.DeleteMisread | kvdb/server.c:358-382 | split after one byte it is a delete of the empty key |
| Protocol.MonitorFraming | kvdb/client.c:576-581 | the same for monitor |
| Protocol.EncodersAnnounce | include/kvdb.h:23 | every encoder's frame has the announced length and fits the message buffer |
| Protocol.FramesOnTheWire | kvdb/client.c:145-581 | the four frames, byte for byte |
| Protocol.OneByteRequests | kvdb/server.c:421-435 | 'C', 'L' and 'R' are commit, list and reload |
| Protocol.KindOfRequest | kvdb/server.c:364-453 | the first byte decides the kind of request |
| Protocol.AnyFrame | kvdb/server.c:365-419 | frames of any content are taken as announced; a set announcing 385 bytes or more is ignored |
| Protocol.UnsizedExactly | kvdb/server.c:436-448 | the test before a registration passes for an announced length of zero, exactly for the frame that starts 'M', 0 |
| Protocol.PatternFits | kvdb/server.c:62-83 | the copied pattern with its NUL fits the room announced for it if and only if that is not zero, whatever lies behind the frame |
| Protocol.TruncatedFrame | kvdb/server.c:372-445 | a frame cut short anywhere after its header is ignored |
| Protocol.SplitHeaderLosesValue | kvdb/server.c:358-403 | a concrete set with a split header that is decoded with an empty value |
| Server.KvdbServer.constructor | kvdb/server.c:546-562 | start-up loads defaults into what was saved and owns only the listeners |
| Server.KvdbServer.NotifyWatchers | kvdb/server.c:107-150 | the traversal, removing dead monitors on the way, has the effect of the list function |
| Descriptors.DropOwnership | kvdb/server.c:93-104 | closing a monitor takes exactly its descriptor from list, epoll and open set, and keeps every other one owned |
| Descriptors.HangupCloses | kvdb/server.c:506-512 | a hang-up takes exactly its monitor from list and epoll and closes its descriptor |
| Descriptors.HandleOwnership | kvdb/server.c:364-461 | a served connection is closed or handed to the monitor list, and left without an owner only by a failed registration |
| Server.KvdbServer.HandleRequest | kvdb/server.c:364-461 | the whole new server state for every request, apart from a pattern of no length |
| Server.KvdbServer.SendList | kvdb/server.c:301-320 | one frame per entry, then the two-byte terminator |
| Server.KvdbServer.ServeConnection | kvdb/server.c:518-528 | accept, decode, handle, set the deadline if the store changed and none was set |
| Server.KvdbServer.CheckDeadline | kvdb/server.c:487-499 | commit when the deadline is reached, and the wait chosen |
| Server.KvdbServer.Loop | kvdb/server.c:486-530 | the loop over any finite sequence of waits, each with any number of events, reaches the state of the run |
| Descriptors.DescriptorConservation | kvdb/server.c:62-150 | in every reachable state accepted = closed once + owned by one monitor + failed registrations; epoll is listeners plus monitors; no leak if and only if no registration failed |
| Descriptors.NotifyKeepsOwned | kvdb/server.c:137-149 | removal during traversal keeps ownership and leaks nothing |
| StoreRuns.RunKeepsInvariant | kvdb/common.c:76-87 | in every run each database holds only its own kind of key, keys at most 127 bytes with NUL, values at most 254 |
| StoreRuns.RunKeepsClean | kvdb/client.c:145-150 | with client-framed sets no stored key has an inner NUL and no value is empty |
| StoreRuns.FramedSetIsClean | kvdb/client.c:145-173 | a client's set with an unsplit header is such a set |
| StoreRuns.ReadOnlyKeys | kvdb/unqlite.c:41-73 | over UnQLite, in every run without a reboot a present "ro." key stays present, with the last definition of the latest reload that defines it, or else unchanged |
| StoreRuns.ReloadOfReadOnlyKey | kvdb/server.c:432-435 | a reload can change one only to its last definition and never removes it |
| StoreRuns.RebootOfReadOnlyKey | kvdb/server.c:561 | after a reboot it holds its first definition in the defaults, or is gone |
| StoreRuns.ReloadRequest | kvdb/server.c:432-435 | the byte 'R' on a connection gives every key its last definition in the files, and leaves the others |
| Durability.SavedIsPrefix | kvdb/server.c:484-528 | the saved persistent map is the one after some prefix of the run that covers every successful commit, across any number of reboots |
| Durability.CrashRecovery | kvdb/server.c:561 | after power loss and start-up each key is as after that prefix, or its first default; temporary keys are gone |
| Durability.BoundedDelay | kvdb/server.c:522-528 | with successful commits an unsaved write has a deadline at most max(interval, 1) s after its handler returned |
| Durability.DeadlineAfter | kvdb/server.c:523-528 | a write without a deadline sets one, the commit interval later; nothing else sets or moves one |
| Durability.CommitIsDelayed | kvdb/server.c:489-528 | in every run a deadline that is reached was set by a write whose handler returned at least the commit interval earlier |
| Durability.WaitReachesDeadline | kvdb/server.c:489-501 | a wait runs out if and only if the deadline is reached |
| Durability.WaitIsBounded | kvdb/server.c:489-501 | while something is unsaved the wait is finite and ends by that bound |
| Durability.NeverPostponed | kvdb/server.c:523 | later writes do not move a deadline |
| Durability.FailedCommitStrandsWrites | kvdb/server.c:493-496 | at the top of the loop a reached deadline is given up, and leaves something unsaved if and only if the commit of its database failed |
| Durability.StrandedAfter | kvdb/server.c:486-528 | after any event a write is unsaved without a deadline if and only if the event caused it, or it was so before and the event neither commits nor writes |
| Durability.BootStrands | kvdb/server.c:561 | start-up leaves one if and only if its commit fails on a database the defaults changed |
| Durability.StrandedExactly | kvdb/server.c:484-528 | the same over whole runs with failing commits and reboots: some event caused it and every later one idled |
| Durability.CommitRequestSaves | kvdb/server.c:427-431 | a commit request is answered 0 if and only if all commits succeeded, and then nothing is unsaved |
| MonitorStreams.NotifyListed | kvdb/server.c:137-149 | a listed monitor gets the frame if and only if it matches and its send succeeds, and is removed if and only if it matches and its send fails |
| MonitorStreams.RegistrationAnswered | kvdb/server.c:62-455 | from the monitor frame to its answer: 0 and the pattern at the head of the list, or the code of the failure and the list unchanged |
| MonitorStreams.StreamsAreExact | kvdb/server.c:371-455 | in every run a monitor's stream is its acknowledgement and one frame per matching successful set or delete since registration, in order |
| MonitorStreams.DroppedStreams | kvdb/server.c:93-149 | a monitor dropped by a hang-up or a failed send keeps that exact stream, and is sent nothing by the drop or after it until its descriptor is accepted again |
| Startup.BootEstablishes | kvdb/server.c:546-562 | start-up satisfies the first-state conditions of the run theorems |
| Readers.ReadList | kvdb/client.c:441-488 | the receive loop makes exactly the decoded calls and returns the code of how the reply ended |
| Readers.ListRoundTrip | kvdb/server.c:421-425 | the callback sees each stored pair exactly once with its value, however the reply is cut; the terminator is never an entry and nothing is skipped |
| Readers.ListRequest | kvdb/server.c:421-425 | the byte 'L' on a connection is answered with every stored pair once |
| Readers.ListReturns | kvdb/client.c:445-488 | the value returned for a complete list and for one cut in a header or in an entry |
| Readers.ListSkips | kvdb/client.c:456-481 | exactly what is skipped for an announced length that is too large and for an entry without terminator |
| Readers.PersistentFirst | kvdb/unqlite.c:133-158 | the persistent database is listed first |
| Readers.MonitorRead | kvdb/client.c:639-692 | key, cut to 126 bytes, and value, cut to the room, delivered; stream advanced by one frame; every failure code |
| Readers.ReadFails | kvdb/client.c:647-674 | the code of every read that delivers nothing |
| Readers.ReadNoteOfFrame | kvdb/client.c:647-652 | a frame is recovered if and only if its two length bytes come in one piece |
| Readers.MonitorSeesMatchingChanges | kvdb/client.c:639-692 | repeated reads return exactly the matching changes of the run since registration, if and only if no piece splits a frame header |
| Api.DirectIsMap | kvdb/direct.c:51-149 | a direct call answers and changes exactly as an environment over one map |
| Api.RequestDecoded | kvdb/server.c:352-452 | what the server decodes of any set, get or delete, however the request is cut |
| Api.CallExchanged | kvdb/server.c:364-461 | the request understood acts on the one map and its reply comes back |
| Api.RemoteIsMap | kvdb/client.c:138-394 | through encoder, stream, handler, store and reply the databases are the reference's if and only if the request arrives, and the answer is if and only if the answer arrives |
| Api.SplitSetStoresNothing | kvdb/server.c:400-419 | a set split after two header bytes reports the code of the intended one and on success leaves no value |
| Refinement.ServerRefinesDirect | kvdb/common.c:105-188 | any call sequence leaves equal databases after every call in both modes if and only if the requests arrive, and then gives equal answers if and only if the answers arrive |
| Refinement.DirectAgreesIff | kvdb/unqlite.c:207-213 | direct mode is the reference map if and only if the temporary database is absent or has a file |
| Refinement.DirectForgets | kvdb/direct.c:63-70 | a concrete set and get that direct mode forgets with an in-memory temporary database |
| Refinement.SetIsVisible | kvdb/common.c:105-119 | a successful set makes exactly its key read as the value, in the layer that is visible |
| Refinement.DeleteUncovers | kvdb/client.c:335-341 | deleting a shadowing environment entry uncovers the stored value; other keys never change |
| Refinement.GetReadsVisible | kvdb/common.c:162-188 | a get answers with the visible text, refuses one too long, falls back to the default |
| Refinement.SetThenGet | kvdb/common.c:105-188 | a value is read back after any calls that do not touch its key |
| Refinement.SetCodeExactly | kvdb/common.c:105-119 | the code of a set for all names, values and environments, in bytes and numbers |
| Refinement.DeleteCodeExactly | kvdb/client.c:326-341 | the same for delete |
| Refinement.GetAnswerExactly | kvdb/common.c:162-188 | the same for get |
| Refinement.WriteThenRead | kvdb/common.c:105-188 | a set that is allowed succeeds, and its value is read back whole after any calls that leave its key alone |
| Clients.DirectClient.PropertySet | kvdb/direct.c:51-71 | environment first, then open, set, close |
| Clients.DirectClient.PropertyGet | kvdb/common.c:162-188 | the answer, and the text with its terminator inside a 255-byte buffer |
| Clients.DirectClient.PropertyDelete | kvdb/direct.c:124-149 | the name check comes before the environment, then the database |
| Clients.RemoteClient.PropertySet | kvdb/client.c:138-215 | the call run against the server object has the effect of the server-mode function |
| Clients.RemoteClient.PropertyGet | kvdb/client.c:235-309 | the same for get, into the caller's buffer |
| Clients.RemoteClient.PropertyDelete | kvdb/client.c:326-394 | the same for delete |
| Clients.RemoteClient.PropertyList | kvdb/client.c:413-490 | from the one-byte request to the last callback: every stored pair once, and 0, however the reply is cut |
| Clients.RemoteClient.PropertyCommit | kvdb/client.c:731-763 | the commit request served, and the value returned for whole, short and failed replies |
| Clients.CommitAnswered | kvdb/client.c:746-753 | the byte 'C' commits; the value returned is the server's code if and only if its four bytes came, or by chance; a code of 0 means nothing is left unsaved |
| Linearizability.Linearizable | kvdb/server.c:337-462 | for every interleaving of clients with any other server traffic, reloads included, the service order is a legal history of one map if and only if every request and answer arrived, and every returned call took its answer from it between call and return |
| Codecs.EncodeBuffer | kvdb/common.c:439-457 | the loop writes the hex text of the buffer, or refuses |
| Codecs.DecodeBuffer | kvdb/common.c:486-515 | the loop returns the decoded bytes or the first error for any room, and writes nothing past it |
| Codecs.DecodeAccepts | kvdb/common.c:497-512 | accepted are exactly the even-length hexadecimal texts that fit |
| Codecs.DecodeError | kvdb/common.c:499-510 | E2BIG if and only if the text goes on behind as many good pairs as fit, and otherwise ERANGE |
| Codecs.DecodedBytes | kvdb/common.c:54-70 | two digits of either case are the halves of a byte, high half first |
| Codecs.EncodedBytes | kvdb/common.c:449-452 | each byte becomes two such digits, in lower case |
| Codecs.ReencodeIsLower | kvdb/common.c:54-70 | encoding what was decoded is the text in lower case |
| Codecs.BufferRoundTrip | kvdb/common.c:439-515 | for every size and room, what was stored is read back, or refused when the room is too small; without wrap-around that is the whole buffer |
| Codecs.BufferLimit | kvdb/common.c:442-444 | on the database path a set succeeds with an accepted key if and only if the size, modulo half the range of size_t, is at most 126 |
| Codecs.BufferTextExactly | kvdb/common.c:442-444 | for every size, exactly when a buffer is refused, what part of it is stored, and when that is all of it |
| Codecs.ParseUndoesPrint | kvdb/common.c:346-349 | base-0 reading of a printed number gives it back and consumes the whole text |
| Codecs.IntRoundTrip | kvdb/common.c:304-420 | every int32 and int64 is read back after a successful set, extremes and zero included |
| Codecs.Int32OfWideNumber | kvdb/common.c:340-353 | what the 32-bit getter returns for any printed number: the same modulo 2^32, or the default if `long` cannot hold it |
| Codecs.Int64OfWideNumber | kvdb/common.c:407-420 | the 64-bit getter on any printed number |
| Codecs.PrintedForm | kvdb/common.c:304-309 | the text stored for a number is its usual decimal form |
| Codecs.NotANumber | kvdb/common.c:346-351 | a text that is empty or starts like no number gives the default |
| Codecs.HexRead | kvdb/common.c:346-349 | "0x" or "0X" and hexadecimal digits are read whole |
| Codecs.OctalRead | kvdb/common.c:346-349 | "0" and octal digits are |
| Codecs.SpacedRead | kvdb/common.c:346-349 | space and a sign before the digits are allowed |
| Codecs.TrailingText | kvdb/common.c:346-353 | text behind the digits makes both getters return the default |
| Nvs.NvsKvdb.Set | kvdb/nvs.c:168-199 | device chosen by prefix, stripped name, length check, one device entry changed |
| Nvs.NvsGetIsFlat | kvdb/nvs.c:219-249 | a get succeeds if and only if the key is accepted and in the flat map, and returns its value cut to the room |
| Nvs.NvsKvdb.Delete | kvdb/nvs.c:267-294 | one device entry removed, or the error |
| Nvs.NvsKvdb.List | kvdb/nvs.c:312-347 | the callback gets each rebuilt key and value, device by device |
| Nvs.NvsSetIsFlat | kvdb/nvs.c:168-199 | an accepted set changes exactly its key of one flat map |
| Nvs.NvsDeleteIsFlat | kvdb/nvs.c:267-294 | the same for delete |
| Nvs.ReadOnlyKeysChange | kvdb/nvs.c:168-199 | a present "ro." key is overwritten, and deleted, if and only if the key is accepted: there is no write-once here |
| Nvs.AcceptsExactly | kvdb/nvs.c:168-185 | which keys are accepted, in bytes and numbers |
| Nvs.NvsCodes | kvdb/nvs.c:168-294 | the code of every refusal |
| Nvs.NamesStayFitting | kvdb/nvs.c:168-199 | every set and delete keeps names shorter than the name field |
| Nvs.KeyListed | kvdb/nvs.c:49-58 | a listed key is the full key as far as the buffer goes |
| Nvs.PlaceInjective | kvdb/nvs.c:44-47 | device and stripped name determine the key |
| Nvs.KeysListedWhole | kvdb/nvs.c:49-58 | rebuilt keys are untruncated if and only if the name field is at most CONFIG_NAME_MAX |
| Nvs.ListIsFlat | kvdb/nvs.c:312-347 | listing visits every key of the flat map exactly once with its value, whole up to 255 bytes and otherwise its first 255 |

## Left out

- UnQLite and the config driver are maps: a fetch copies at most the room given, a failed commit changes neither copy, commit is atomic, and closing a database writes it back.
- Sockets, epoll, `accept`, timeouts and connect retries are ordered byte pieces; a server send succeeds whole or fails, and a reply ends when the server closes.
- An event that points to a monitor freed by an earlier event of the same wait: every event here names a live monitor. The bound of eight events to a wait is not imposed.
- Allocation failure; the failure of adding a monitor to epoll is modelled.
- A reboot empties the temporary database and restarts the clock; a crash of the server process alone, which would keep a temporary database file, is not modelled.
- A power loss inside a loop turn; the saved maps change only at commits, so it equals one just before or just after the commit.
- Integer overflow of the wait in milliseconds and of clock readings.
- `fnmatch` is an arbitrary predicate.
- kvdb/file.c: a backend that keeps each key in a file of its own.
- kvdb/system_properties.c: names of another platform's property calls, each passed on to one of these.
- kvdb/getprop.c, kvdb/setprop.c, kvdb/qemu_properties.c: command-line tools, and a program that copies an emulator's boot properties.
- log/ and trace/: formatting of log and trace records.
- `property_reload`, `property_wait`, `property_list` and the boolean calls: short wrappers over what is modelled; the requests behind the first and the third are (`ReloadRequest`, `PropertyList`).
- Failures of `connect` and `send` in the client calls.
- The return value of one-way sets, a null value buffer in `property_get`, and failures of `setenv` and `unsetenv`.
- Server.KvdbServer.HandleRequest: not for a pattern of announced length zero, whose copy goes past the room made for it (kvdb/server.c:62-83, 441-449; `PatternFits`), so that C gives the rest of the run no meaning.
- Server.KvdbServer.ServeConnection: not for that frame, for the same reason.
- Server.KvdbServer.Loop: not for runs with that frame, for the same reason.
- StoreRuns.RunKeepsInvariant: not for runs with that frame, for the same reason; so for every statement about runs.
- Linearizability.Linearizable: reboots are not among the acts; one-way sets are calls that never return.
- Readers.MonitorRead: with a key buffer, asks that the announced frame holds a NUL, as every frame of the server does; the source would copy on past the frame.
