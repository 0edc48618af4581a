# lan-share core in Dafny

A model of the core of lan-share, a LAN file-sharing tool: peers find each
other with UDP broadcasts, keep a registry of the peers they have heard from,
and send files over a TCP connection framed as a 4-byte big-endian header
length, a JSON header `{name, size}`, the payload in chunks of at most 1 MiB,
and an `"OK"` acknowledgment. The desktop window keeps a device list, a capped
transfer history and a list of selected files.

Modules, one per source file plus shared pieces:

- `Common` (common.dfy): `Option`, bytes, the scalar values of a decoded JSON
  object and `dict.get`.
- `Config` (config.dfy): the constants of config.py and the literals the core
  uses (default TCP port 50002, the 60-second expiry, the 50-entry history).
- `Text` (text.dfy): the `str` operations the core relies on (`isdigit`,
  `int`, `str`, `split`, `strip`, `find`).
- `Paths` (paths.dfy): POSIX `os.path.join`, `basename` and `splitext`.
- `Stream` (stream.dfy): a stream connection (`Connection`) and the file
  system (`FileStore`) as classes whose state the transfer code changes.
- `FileTransfer` (file_transfer.dfy): framing, `_recv_all`, the choice of the
  save path, the receive loop, `_handle_client`, and the send loop with its
  cancellation check, progress reports and acknowledgment outcomes.
- `NetworkUtils` (network_utils.dfy): the two broadcast message shapes and the
  datagram intake loop.
- `Discovery` (discovery.dfy): the peer registry, a class over a map and the
  keys' insertion order, proved against pure functions on a `Registry` value.
- `ConcurrentUtils` (concurrent_utils.dfy): the FIFO transfer queue and the
  task manager's id bookkeeping.
- `Gui` (gui.dfy): the list logic of main.py: the IP check, device entries and
  reading an address back off an entry, the manual-add duplicate check, the
  capped history, the merge of selected files, and removal by index.

Outside resources are parameters. A connection is the bytes its peer sends,
whether the peer closes afterwards, and whether `sendall` fails. The file
system is a map from path to contents together with the set of paths that
`open(path, 'wb')` cannot open. Time is whole seconds passed in as
`now`. JSON and UTF-8 coding of the transfer header are a decoder and an
encoder passed in as functions; the decoder gives the name and the size as
whatever JSON value the header holds. A received datagram is already classified as
invalid UTF-8, invalid JSON, or a JSON value.

## Model

| member | source | states |
|---|---|---|
| Stream.Connection.Recv | server/file_transfer.py:103 | `recv(n)` gives at most n of the pending bytes, at least one when any are pending; with none pending it gives empty bytes once the peer has closed and stalls otherwise; the request is logged and nothing else changes |
| Stream.Connection.SendAll | server/file_transfer.py:120 | `sendall` writes all of the data after what was written before, or raises and writes nothing |
| Stream.Connection.Close | server/file_transfer.py:129 | closes this end and changes nothing else |
| Stream.FileStore.Exists | server/file_transfer.py:94 | true exactly for an existing file |
| Stream.FileStore.Create | server/file_transfer.py:100 | `open(p, 'wb')` creates or empties the file, or raises for a path that cannot be opened and changes nothing |
| Stream.FileStore.Append | server/file_transfer.py:109 | the written bytes go at the end of the file; other files are untouched |
| FileTransfer.EncodeLength | server/file_transfer.py:170-173 | the header length is written as exactly four bytes |
| FileTransfer.DecodeLength | server/file_transfer.py:78 | four bytes read as a big-endian length always give a value below 2^32 |
| FileTransfer.LengthRoundTrip | server/file_transfer.py:170-173 | every header length below 2^32 decodes back to itself at the receiver |
| FileTransfer.PrefixRoundTrip | server/file_transfer.py:73-78 | every 4-byte prefix is the encoding of the length it decodes to, so the two directions are inverse |
| FileTransfer.TransferRoundTrip | server/file_transfer.py:164-174 | a complete frame is read back as the header that was encoded and the whole payload, given a decoder that undoes the encoder |
| FileTransfer.Frame | server/file_transfer.py:169-174 | a frame is the 4-byte prefix, which decodes to the header length, then the header bytes, then the payload |
| FileTransfer.FrameAppend | server/file_transfer.py:173-189 | writing the prefix, the header and the payload in turn appends one whole frame |
| FileTransfer.Unframe | server/file_transfer.py:72-110 | fewer than four bytes give no prefix; a framed stream's header is the decoding of the announced header bytes, and its payload is a prefix of what follows them, at most the declared size (none when the size is not an integer), and shorter only when the stream ends |
| FileTransfer.TruncatedTransfer | server/file_transfer.py:99-110 | a frame cut after m payload bytes reads as the same header with the m-byte prefix as payload; the receive loop keeps that prefix either way, as `HandleClient` states |
| FileTransfer.RecvAll | server/file_transfer.py:131-139 | returns exactly the next `size` bytes of the stream, or `None` when the peer closes first (a stall raises); each request is positive and at most `size`; nothing is sent |
| FileTransfer.Numbered | server/file_transfer.py:92-96 | candidate k > 0 is the joined path lengthened by `_` and the digits of k |
| FileTransfer.NumberedShape | server/file_transfer.py:93-95 | candidate k > 0 starts with the root of the joined path followed by `_` and ends with its extension |
| FileTransfer.FirstFree | server/file_transfer.py:92-96 | a first free counter k has k distinct existing candidates before it, so k is at most the number of existing files |
| FileTransfer.NumberedInjective | server/file_transfer.py:95 | different counters give different candidate names `base_k.ext` |
| FileTransfer.FirstFreeUnique | server/file_transfer.py:92-96 | at most one counter is the first free candidate |
| FileTransfer.CandidatesBelowSize | server/file_transfer.py:94-96 | the first n candidates are n distinct paths, which bounds the search by the number of existing files |
| FileTransfer.ChooseSavePath | server/file_transfer.py:89-96 | the chosen path does not exist; it is the joined path when that is free, otherwise `base_k.ext` for the smallest free k |
| FileTransfer.RequestLogMeaning | server/file_transfer.py:101-111 | in a request log every request asks for `min(CHUNK_SIZE, size - received)` with `received` the count at that moment, so for at least one byte and at most 1 MiB; the counts start at 0 and grow by at least one and at most the previous request |
| FileTransfer.ReceivePayload | server/file_transfer.py:100-111 | the freshly opened file ends up holding exactly the bytes received: the start of the stream, `min(size, available)` of them; the requests made form a request log, one per `received` value, non-empty exactly when size > 0; a stalled `recv` raises out of the loop; other files are untouched |
| FileTransfer.FileReceiver.constructor | server/file_transfer.py:21-26 | host `0.0.0.0` and port 50002 unless given; the download directory is `~/Downloads/LANFileShare` |
| FileTransfer.FileReceiver.ReadHeader | server/file_transfer.py:72-83 | reads the 4-byte prefix and the header it announces: no prefix when the peer closes first, a failure when the header is cut short or does not decode, otherwise the decoded header with the stream left at the first payload byte; nothing is sent |
| FileTransfer.FileReceiver.SaveAs | server/file_transfer.py:99-123 | when the path cannot be opened nothing is written, read or sent; otherwise the file holds the start of the stream up to the announced size, and "OK" is sent exactly when the size is an integer, the receive loop ends without an exception and `sendall` works; a size that is not an integer leaves the file created and empty, with nothing read or sent |
| FileTransfer.FileReceiver.StorePayload | server/file_transfer.py:85-123 | picks the first free candidate for the header name, a path that did not exist, and saves the payload there as `SaveAs` states, an unopenable path leaving files and connection as they were |
| FileTransfer.FileReceiver.HandleClient | server/file_transfer.py:69-129 | the outcome follows the framing of the stream: no header, or a header failure with nothing stored or sent; otherwise a fresh save path is built from the header name with its directories kept; if it cannot be opened nothing is stored or sent, else the payload is stored there and "OK" is sent whenever the size is an integer and the loop ends without an exception, truncated or not; a size that is not an integer leaves an empty file and sends nothing; the connection is always closed |
| FileTransfer.ProgressReports | server/file_transfer.py:196-198 | the k progress calls each pass the file size and a sent count of at most the size |
| FileTransfer.ChunkCountBounds | server/file_transfer.py:179-182 | the chunks cover the payload, all but the last are full, and an empty file has no chunks |
| FileTransfer.SentAfterChunks | server/file_transfer.py:177-190 | before the last chunk fewer than `size` bytes are out, after it all of them |
| FileTransfer.ProgressMonotone | server/file_transfer.py:189-198 | a completed send makes one progress call per chunk with strictly increasing cumulative counts, each positive and at most the size, the last equal to it; none for an empty file |
| FileTransfer.TwoChunkProgress | server/file_transfer.py:189-198 | a 2 MiB file is reported at 1 MiB and then at 2 MiB |
| FileTransfer.ChunksSent | server/file_transfer.py:184-187 | the send stops before the first chunk whose check sees the `interrupted` flag, and only when the callback carries that attribute |
| FileTransfer.FileSender.constructor | server/file_transfer.py:143-144 | starts without a callback |
| FileTransfer.FileSender.SendPayload | server/file_transfer.py:177-198 | writes exactly the chunks before the interruption, reports cumulative progress after each one when there is a callback, and says whether it was interrupted |
| FileTransfer.FileSender.Transmit | server/file_transfer.py:170-220 | a failing `sendall` sends nothing; otherwise the connection carries the frame of the header and the chunks sent before any interruption, and the outcome is an interruption, a timeout when no reply comes, or success; the connection is closed |
| FileTransfer.FileSender.SendFile | server/file_transfer.py:146-233 | a missing file fails before any connection is touched; otherwise the connection carries prefix, header `{basename, size}` and the chunks sent; interruption raises without waiting for a reply; any reply, "OK" or not, is a success; no reply is a timeout; the connection is always closed |
| Paths.Join | server/file_transfer.py:89 | the joined path ends with the received name; a relative name follows the download directory, with one '/' between them exactly when the directory is not empty and does not end in '/' |
| Paths.BasenameOfJoin | server/file_transfer.py:89 | a plain non-empty file name joined under any directory is the base name of the result |
| Paths.SplitExt | server/file_transfer.py:93 | the root and the extension concatenate to the path; the extension is empty or starts at the last '.' of the last component, holding no other '.' and no '/'; a dot is taken only when the part of the component before it is not all dots, and no extension means no such dot exists |
| Paths.SplitExtOfExtension | server/file_transfer.py:93 | splitting `root + ext` gives back `root` and `ext` when `ext` is one '.' and a dot-free, '/'-free tail and the last component of `root` is not all dots |
| Paths.Basename | server/file_transfer.py:154 | the base name is a '/'-free suffix of the path that is either the whole path or preceded by a '/' |
| Paths.JoinAbsolute | server/file_transfer.py:89 | an absolute received name replaces the download directory altogether |
| Paths.BasenameOfPlainName | server/file_transfer.py:154 | a name without '/' is its own base name |
| Text.Decimal | server/file_transfer.py:95 | `str(k)` is a non-empty digit string without a leading zero |
| Text.DecimalRoundTrip | server/file_transfer.py:95 | reading back the counter's text gives the counter |
| Text.DecimalInjective | server/file_transfer.py:95 | different counters have different texts |
| NetworkUtils.SendDiscoveryBroadcast | utils/network_utils.py:34-44 | the message has exactly the keys type, hostname, ip, port and timestamp, no `listen_port`, and goes to the given port |
| NetworkUtils.SendResponseBroadcast | utils/network_utils.py:46-56 | the message has exactly the keys type, hostname, ip, listen_port and timestamp, and goes to the response port |
| NetworkUtils.ReceiveBroadcastMessages | utils/network_utils.py:58-74 | returns the messages collected from the datagrams in arrival order, or raises when a datagram is not UTF-8 |
| NetworkUtils.Collected | utils/network_utils.py:63-72 | at most one message per received event |
| NetworkUtils.CollectedExactly | utils/network_utils.py:63-68 | a message is returned exactly when some datagram parsed to it, paired with its source |
| NetworkUtils.CollectedAppend | utils/network_utils.py:63-72 | collection goes datagram by datagram, keeping arrival order |
| NetworkUtils.SkippedEvents | utils/network_utils.py:69-72 | a timeout or a datagram that is not JSON adds nothing |
| Discovery.KindOf | client/discovery.py:50-54 | only an object is dispatched on, and only by its `type` field |
| Discovery.Handle | client/discovery.py:50-54 | a message raises exactly when it is not an object; otherwise the registry stays well formed and gains at most the sender's key, losing none |
| Discovery.Expired | client/discovery.py:110 | a record seen in the last 60 seconds never expires, and one whose time stamp lies in the future (a clock set back) by less than a day minus a minute does |
| Discovery.SenderKey | client/discovery.py:81 | the key is the message's `ip` when it has one, else the source address |
| Discovery.DiscoveryRecord | client/discovery.py:79-89 | the stored record holds the sender key, the current time, the announced host name or "Unknown", and no listen port |
| Discovery.ResponseRecord | client/discovery.py:91-102 | the stored record holds the sender key, the current time, the announced host name or "Unknown", and the announced listen port or 50002 |
| Discovery.Values | client/discovery.py:146 | the listed records are the records of the keys in insertion order |
| Discovery.Upsert | client/discovery.py:85-89 | the record is stored under its key, replacing any earlier one, every other record is kept, an existing key keeps its place in the order and a new key goes last; the registry stays well formed |
| Discovery.HandleAll | client/discovery.py:49-54 | the batch stops at the first message that is not an object, and only then |
| Discovery.FilterOut | client/discovery.py:113-114 | deleting keys keeps exactly the others, without repetitions |
| Discovery.FilterOutKeepsOrder | client/discovery.py:113-114 | the list left after deleting keys is a subsequence of the original: the others keep their relative order |
| Discovery.Prune | client/discovery.py:104-114 | the sweep keeps the registry well formed |
| Discovery.DeviceDiscovery.constructor | client/discovery.py:17-19 | starts with an empty registry |
| Discovery.DeviceDiscovery.DiscoveryAnnouncement | client/discovery.py:68-77 | the client's announcement goes to port 50001 with keys type, hostname, ip and timestamp, carries this host's name and local address, and is itself a discovery message |
| Discovery.DeviceDiscovery.Put | client/discovery.py:85 | dictionary assignment: the record replaces the one under its key; a new key goes last |
| Discovery.DeviceDiscovery.HandleDiscoveryMessage | client/discovery.py:79-89 | the sender's key gets a record without listen port; every other key is unchanged |
| Discovery.DeviceDiscovery.HandleResponseMessage | client/discovery.py:91-102 | the sender's key gets a record with the listen port; every other key is unchanged |
| Discovery.DeviceDiscovery.Dispatch | client/discovery.py:50-54 | a message that is not an object raises with nothing changed; otherwise the registry becomes what the type dispatch gives |
| Discovery.DeviceDiscovery.DispatchAll | client/discovery.py:130-134 | handling a batch in order gives the registry and outcome of `HandleAll` |
| Discovery.DeviceDiscovery.ExpiredInOrder | client/discovery.py:108-111 | collects exactly the expired keys, each once |
| Discovery.DeviceDiscovery.DeleteAll | client/discovery.py:113-114 | given distinct keys that are all present, as `del` needs, deletes exactly them from the table and from the order |
| Discovery.DeviceDiscovery.CleanupExpiredDevices | client/discovery.py:104-114 | the registry becomes its pruned value |
| Discovery.DeviceDiscovery.GetDevices | client/discovery.py:142-146 | prunes first, then lists the remaining records in order |
| Discovery.DeviceDiscovery.DiscoverDevices | client/discovery.py:116-140 | handles the window's messages and lists the records without pruning; an undecodable datagram raises with nothing changed, a non-object message raises after the earlier ones were applied |
| Discovery.DeviceDiscovery.DiscoveryCycle | client/discovery.py:41-58 | one loop turn handles the messages and prunes, and skips pruning when an exception ends the turn |
| Discovery.ExpiryWindow | client/discovery.py:110 | within a day of the last sighting, a record expires exactly when more than 60 seconds have passed |
| Discovery.DayWrapKeepsStale | client/discovery.py:110 | the elapsed time is taken modulo a day, so a peer silent for a day plus up to a minute is kept |
| Discovery.PruneExactly | client/discovery.py:104-114 | the sweep keeps exactly the unexpired records, unchanged, with the new order a subsequence of the old one, and leaves none that is expired |
| Discovery.PruneIdempotent | client/discovery.py:104-114 | sweeping twice at the same instant is sweeping once |
| Discovery.DiscoveryReplacesRecord | client/discovery.py:79-89 | a discovery message stores a fresh record without listen port under `msg['ip']` (else the source address), hostname defaulting to "Unknown", dropping an earlier listen port; other records are kept |
| Discovery.ResponseDefaultPort | client/discovery.py:91-102 | a response without `listen_port` is recorded with port 50002 |
| Discovery.AnnouncedPeerRegistered | utils/network_utils.py:34-44 | a peer's discovery broadcast registers it under its announced address without listen port |
| Discovery.AnnouncementRegistered | client/discovery.py:68-89 | the client's own announcement, handled by a peer's registry, registers the client under its local address by its host name without listen port |
| Discovery.RespondingPeerRegistered | utils/network_utils.py:46-56 | a peer's response broadcast registers it with its announced listen port |
| Discovery.OtherTypesIgnored | client/discovery.py:130-134 | a message of any other type, or without one, changes nothing |
| Discovery.HandleAllAppend | client/discovery.py:49-54 | messages are handled one after another, a later batch continuing from the registry an earlier one left |
| ConcurrentUtils.NewTask | utils/concurrent_utils.py:63-72 | a new task is pending with progress 0 and the given path, address, port and time |
| ConcurrentUtils.Step | utils/concurrent_utils.py:74-86 | a put appends; a get on an empty queue gives nothing and leaves it empty; otherwise it gives the oldest task and removes it |
| ConcurrentUtils.FifoOrder | utils/concurrent_utils.py:74-83 | over any run of puts and gets, the tasks handed out followed by those still queued are the queued and put tasks in order |
| ConcurrentUtils.TransferQueue.constructor | utils/concurrent_utils.py:59-61 | starts empty |
| ConcurrentUtils.TransferQueue.AddTransferTask | utils/concurrent_utils.py:63-76 | returns the pending task (port 50002 by default) and enqueues that same task; the size grows by one |
| ConcurrentUtils.TransferQueue.GetNextTask | utils/concurrent_utils.py:78-86 | returns the oldest task and removes it, or `None` with the queue left empty; the size shrinks by one on success |
| ConcurrentUtils.TransferQueue.GetQueueSize | utils/concurrent_utils.py:88-90 | the number of queued tasks |
| ConcurrentUtils.TransferQueue.IsEmpty | utils/concurrent_utils.py:92-94 | true exactly when no task is queued |
| ConcurrentUtils.TaskManager.constructor | utils/concurrent_utils.py:11-15 | no futures, counter 0, five workers by default |
| ConcurrentUtils.TaskManager.SubmitTask | utils/concurrent_utils.py:17-23 | ids are handed out as 0, 1, 2, ...; each is fresh and bound to its own new future |
| ConcurrentUtils.TaskManager.GetResult | utils/concurrent_utils.py:25-29 | `None` for an unknown id, negative ones included; otherwise the value, the exception, or waiting for a future not done yet |
| ConcurrentUtils.TaskManager.IsTaskDone | utils/concurrent_utils.py:31-35 | true exactly for a known id whose future is done |
| ConcurrentUtils.TaskManager.CancelTask | utils/concurrent_utils.py:37-41 | false with no change for an unknown id; only a pending future is cancelled, and an already cancelled one reports true |
| ConcurrentUtils.TaskManager.GetActiveTasksCount | utils/concurrent_utils.py:43-49 | the number of futures not done, never more than the tasks submitted |
| Text.Strip | main.py:407 | the stripped text is a slice of the input with only white space before and after it, does not itself start or end with white space, and is empty exactly when the input is all white space |
| Text.Split | main.py:411 | `split('.')` gives at least one part and no part holds the separator |
| Text.JoinSplit | main.py:411 | joining the parts of a split restores the text |
| Text.SplitJoin | main.py:411 | splitting a join of separator-free parts gives the parts back |
| Text.FirstField | main.py:626 | `split(sep)[0]` is a prefix with no separator starting inside it, followed by the separator unless it is the whole text, which happens exactly when the separator does not occur |
| Text.ParseDecimal | main.py:412 | `int(part)` of a digit string: a leading zero does not change the value |
| Text.Find | main.py:626 | finds the first occurrence of the separator, or reports that there is none |
| Gui.IsValidIp | main.py:411-412 | an accepted address has at least seven characters (four non-empty parts and three dots) |
| Gui.ValidIpIsFourOctets | main.py:411-412 | an accepted address is four digit strings of value at most 255 joined by '.' |
| Gui.FourOctetsAreValid | main.py:411-412 | four digit strings of value at most 255 joined by '.' are accepted, leading zeros included |
| Gui.DottedQuadAccepted | main.py:411-412 | the usual text of four octets is accepted |
| Gui.ValidIpHasNoSpace | main.py:411-412 | an accepted address holds no space |
| Gui.Entry | main.py:403 | an entry is the address, then " - ", then the host name |
| Gui.Show | main.py:531 | a field is shown as its string, or an integer as its decimal text, which starts with '-' exactly for a negative value and reads back as the number |
| Gui.TargetIpOf | main.py:626 | the address read off an entry is its text before the first " - ", or the whole entry when there is none |
| Gui.EntriesOf | main.py:526-533 | one entry `ip - hostname` per record, in order |
| Gui.EntryIpRecovered | main.py:626 | `split(' - ')[0]` gives back the address when " - " does not occur in the address followed by " -" |
| Gui.StraddlingSeparator | main.py:626 | the address "a -" comes back as "a", so that condition cannot be dropped |
| Gui.ValidIpRecovered | main.py:421 | every accepted address is read back off its entry |
| Gui.ManualAddStripped | main.py:409-431 | the entry `ip - 手动添加` is added, with an information box, exactly for a valid address not yet listed, and is listed afterwards; otherwise the list is unchanged |
| Gui.ManualAdd | main.py:405-431 | the list stays as it was or gains the entry for the stripped text; empty or all-white-space text only warns |
| Gui.ManualAddIdempotent | main.py:414-425 | adding the same text twice adds one entry |
| Gui.ManualAddOutcome | main.py:405-431 | the list either stays as it was with a warning or error, or grows by one entry for a valid, not yet listed address that is read back off it |
| Gui.Icon | main.py:439-446 | each of the three known statuses has its own icon and every other status gets the information icon |
| Gui.HistoryEntry | main.py:448 | a history line starts with the bracketed time stamp and the icon, and ends with the target address |
| Gui.Recorded | main.py:450-454 | the new entry is last and a history within the cap stays within it |
| Gui.HistoryKeepsLatest | main.py:450-454 | after any number of additions the history is exactly the 50 most recent entries, oldest first |
| Gui.Dedup | main.py:546-550 | the merge holds each element of its input exactly once |
| Gui.DedupFirstOccurrenceOrder | main.py:546-550 | the merge lists elements in the order of their first occurrence |
| Gui.DedupOfDistinct | main.py:546-550 | a list without repetitions is unchanged |
| Gui.SelectionKeepsExisting | main.py:544-551 | files already selected stay first and in order |
| Gui.RemoveAt | main.py:586 | removal drops exactly the element at the index, keeps the others in order, and a list without repetitions no longer holds it |
| Gui.App.constructor | main.py:112-113 | starts with empty lists |
| Gui.App.RefreshDevices | main.py:526-533 | the device list becomes one entry per discovered record, and stays as it was when discovery raises |
| Gui.App.AddManualDevice | main.py:405-431 | the list and the message box are those of `ManualAdd`; the field is cleared only after an addition |
| Gui.App.HasEntryFor | main.py:414-418 | true exactly when some entry starts with `ip + " - "` |
| Gui.App.AddToHistory | main.py:433-457 | the history gains the formatted entry and drops its oldest entry when over 50 |
| Gui.App.SelectFile | main.py:535-551 | the selection becomes the order-preserving merge of the old and new files; an empty dialog result changes nothing |
| Gui.App.RemoveSingleFile | main.py:579-591 | exactly the file at the selected index is removed; without a selection or files nothing changes |
| Gui.App.SendTarget | main.py:613-626 | warns when no file or no device is selected, otherwise takes the address before the first " - " of the chosen entry |

## Left out

- `Paths`: only POSIX `os.path` is modelled; the Windows `ntpath` variant, which also splits on '\\' and drive letters, is not.
- `FileTransfer.ChooseSavePath`: handlers run on separate threads and test `os.path.exists` before `open` without a lock, so two transfers of the same name at once can pick the same path; the fresh-path guarantee holds for one handler at a time.
- `Discovery`: Python treats the dict keys 1, 1.0 and True as one key; `Value` keeps an integer, a string and any other JSON scalar apart, and floats and booleans are not modelled as keys.
- `FileTransfer.FileReceiver.constructor`: `os.makedirs` of the download directory, the `running` flag and the receive thread are not modelled; the file store has no directories, and the paths where `open` fails (a missing directory among them) are a fixed set.
- `Stream.Connection.SendAll`: a `sendall` that fails after writing part of its data is not modelled; a failing call writes nothing.
- Sockets, threads, `start`/`stop` flags, `time.sleep`, `join` and the time budgets of the UDP loops: a connection is the bytes its peer sends, and a UDP window is the finite list of what `recvfrom` gives during it.
- `get_local_ip`, `socket.gethostname` and the other host lookups are network calls; the local address and host name are parameters.
- Discovery never hears a peer in the program as written: the receiving socket of client/discovery.py:37 and :119 comes from `create_udp_socket` (utils/network_utils.py:28-32), which is never bound to port 50001. The only helper that binds a UDP socket, `create_broadcast_socket`, is never called, and neither is `send_response_broadcast`. `DiscoverDevices`, `DiscoveryCycle`, `AnnouncedPeerRegistered`, `RespondingPeerRegistered` and `AnnouncementRegistered` take the received datagrams as given and describe what the handlers do with them; they do not claim that such datagrams arrive.
- `FileTransfer.FileReceiver.HandleClient`: the decoder stands for `json.loads` plus the `['name']`/`['size']` lookups and passes the size on as a JSON value. The model treats every size that is not an integer as raising at the loop's first comparison, after the empty file is created. Python differs for booleans and floats: `true` and `false` act as 1 and 0, and a float of at most 0 ends the loop at once and sends "OK". A positive float raises at the first `recv` only when the size left is below one chunk, so a float of at least 1 MiB can go through whole chunks. A decoder that gives `Int` for booleans and for floats of at most 0 matches the source; positive floats are not modelled beyond the raise.
- JSON, UTF-8 and `datetime.isoformat`: the transfer header coder is a pair of function parameters, datagrams arrive already classified, and time stamps are strings given by the caller.
- `FileTransfer.FileReceiver.HandleClient`: a `recv` that neither returns data nor sees the peer close blocks forever on the receiver, which sets no timeout; the model treats it as the exception path.
- `FileTransfer.FileReceiver.HandleClient`: when the handler raises before its local `import json`, the `except json.JSONDecodeError` clause itself raises; the model only keeps that no "OK" is sent and that the connection is closed.
- `FileTransfer.FileSender.SendFile`: a `sendall` that fails between payload chunks is not modelled (a failing connection fails at the prefix), and a socket error while waiting for the reply is not told apart from a reply.
- `FileTransfer.FileSender.SendFile`: a file that changes while it is being sent is not modelled; the payload is the file's contents when the send starts.
- The progress percentages, the transfer speed and the MB figures of the file list are floating point and not modelled.
- The `interrupted` flag is seen through a `cancelFrom` parameter, the first check at which it is set; the wiring in client/client_app.py that installs a bound method as the callback, so the flag is never seen there, is not part of this model.
- `Discovery.DeviceDiscovery.DiscoveryCycle`: one `now` stands for every `datetime.now()` reading of a loop turn or batch.
- `Discovery`: a record's `last_seen` is a whole number of seconds, so the sub-second part of `timedelta.seconds` is not modelled; keys that are not hashable (a JSON list as `ip`) are not modelled.
- `NetworkUtils.ReceiveBroadcastMessages`: datagrams longer than the 1024 bytes `recvfrom` reads are not modelled.
- `ConcurrentUtils.TaskManager`: the executor, the functions it runs and the way futures progress are not modelled; a future is only seen through its state. `shutdown` only delegates to the executor.
- `ConcurrentUtils.TransferQueue`: the lock and the queue's internal synchronisation are not modelled; `time.time()` is a whole-second parameter.
- `Gui.IsValidIp`: `isdigit` and `int` are modelled for ASCII digits only; other Unicode digits are not modelled.
- All Tkinter presentation: layout, colours, animation, timers, dialogs and message boxes (a message box is the `Notice` a method returns); `clear_selected_files` and `interrupt_current_transfer` only touch widgets and flags.
- main.py defines `refresh_devices` twice; the second definition (main.py:526-533) is the one in effect and the one modelled.
- The batch of sends in `send_file` after the target is chosen runs on a thread with message boxes and is not modelled beyond the choice of the target.
