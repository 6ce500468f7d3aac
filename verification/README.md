# Models of the hard parts of a circumvention client

This project models, and proves properties of, the components of the repository whose correctness is
hard to see from the code:

- **byedpi**: the intrusive AVL tree and the prefix pools built on it (`KavlTree`, `KavlNodes`,
  `BitKeys`, `HostKeys`, `Mpool`), the event pool and its timers (`Conev`, `Timers`), the split-and-resume
  sender and the TLS record splitter (`Desync`, `TlsSplit`), and the list of desync groups (`Groups`).
- **utls**: CBC padding, the record layer in both directions (`TlsPadding`, `TlsRecord`, `TlsWriter`,
  `TlsReader`), what a record must look like and what passes between the two (`TlsSound`, `TlsLink`), the hand-over between a QUIC connection and its handshake goroutine (`Quic`), session
  tickets (`Ticket`) and the encoded inner ClientHello, from the marshaller to what the server parses
  (`EchMarshal`, `Ech`, `EchUnmarshal`).
- **sing-vmess**: the stacks of chunk codecs (`Vmess`), the chunk format they agree on (`VmessWire`) and the tracking of connections per user
  (`Service`).

`Wire`, `Cursor` and `Links` hold what several of them share: bytes and big-endian numbers, strings
behind their lengths, and neighbours in a linked list.

Code that changes things step by step is modelled by methods and classes with the same steps; each
method is tied to a value-level function or a stated property, and the properties are then proved of
those functions as lemmas. Memory of the AVL tree is an explicit map from addresses to node heads,
because the C code links nodes that live inside other structures and borrows a local as the root's
parent. Protocols between concurrent processes (`Quic`, `Service`) are state machines whose steps are the
critical sections and the channel operations, and their properties are about every run.

Ciphers, MACs, hashes and key streams are function values of which only inverses and lengths are
assumed. Sockets, clocks and random numbers are parameters.

## What the code does not do

Where the code falls short of what one would expect of it, the model follows the code and the exact
condition is proved:

- A host pool answers every query as a linear scan would, in every tree over some of its names, if and only
  if no two of the names clash (`HostKeys.HostAnswers`). Two names clash if, read from the end, they part
  at a place where one goes on with a character below the dot, such as a hyphen, and the other has ended
  or goes on with the dot: `g` and `-g`, or `a-g` and `b.g`. Two names that part at their last characters
  already show it in the empty query alone, which `check_host` does not ask; the condition is given with
  and without that query. For each pair that clashes there is a tree over the two and a query it misses
  (`HostKeys.ClashMisses`, at work in `HostKeys.HostMiss`); in another tree over the same two names all
  queries may be answered.
- `extractPadding` follows section 6.2.3.2 of RFC 5246 exactly when bit 31 of the remaining length is
  clear (`TlsPadding.ExtractPadding`).
- A CBC record whose padding reaches into where its MAC should be is taken to have no data, and opens if its
  plaintext begins with the MAC of nothing; every other record opens exactly if it deciphers to data, their
  MAC and padding by the rule (`TlsSound.CbcIff`).
- A writer does not count the records it sends in the clear and a reader does, so before the first
  cipher the sequence numbers differ (`TlsWriter.Matches`, used by `TlsWriter.OpenMatching`).
- A VMess chunk comes back if and only if it stays below 65536 bytes with framing and padding; the bare
  stack of security type "none" does not cut its writes (`Vmess.ReadBack`, `Vmess.WrappedLost`). The
  checksum reader panics exactly on a body of one to three bytes (`Vmess.CrashIff`).
- What is missing of a piece that `desync` could not send whole is never offered again, and neither is what
  the last send leaves behind, whose count is not looked at. Without start flags exactly these bytes are
  lost, so nothing is lost if and only if both amounts are zero (`Desync.Sender.Desync`, and
  `Desync.Sender.RefusedOnce` for a call that loses).
- A part sent out of band that reaches the end of a buffer filled to its size is refused before anything is
  sent (desync.c:401-403), although the socket would take everything, and what the caller then looks at is
  the error number an earlier call has left behind. On a fresh buffer a call that need not wait fails if and
  only if there is such a part and that number is not EAGAIN. If it is, the call returns what lies before
  the part, which may be everything, and otherwise the next call counts the rest as sent
  (`Desync.Sender.Desync`, `Desync.Sender.StaleOnce`).
- `part_tls` reports success without splitting when the record is shorter than the position
  (`TlsSplit.PartTls`), and `tamp` then counts five bytes more than the buffer was given. All rounds that
  count split the record if and only if they stop before the first such position (`TlsSplit.SplitAll`).
- A group found that changes places with the one that failed takes over its levels, also where they say
  whether to reconnect (`Groups.GroupList.OnTrigger`).
- After a failed poll the type of the event before is still there: if it was a timeout, the first timer
  fires before its deadline (`Timers.TimerList.NextEventTv`).
- `HandleData` before a successful `Start`, and `SetTransportParameters` after a `Start` that failed, block
  for ever, and nothing else does (`Quic.StuckIff`, `Quic.MisuseSticks`).
- A client does not look at the error of `quicResumeSession` (workspace/utls/handshake_client.go:536-538). If it is
  cancelled while a session is on offer, it goes on with the handshake between calls of its user, adds
  events while `NextEvent` may be reading them, and the session has not been taken
  (`Quic.IgnoredCancel`). The goroutine is at rest between calls, events and read buffer have one owner,
  and sessions are taken first, in all runs, if and only if the connection is a server, or has no session
  events, or is never cancelled while a session is on offer (`Quic.BehavesIff`).
- The padding of an encoded inner ClientHello rounds a length that is not the one sent
  (`Ech.PaddingRounds`).

## Model

| member | source | states |
|---|---|---|
| KavlTree.DepthBound | workspace/byedpi/kavl.h:69 | an AVL tree of fewer than 2^32 nodes has at most 45 levels, so no path stack of 64 entries overflows |
| KavlTree.Rot1Avl | workspace/byedpi/kavl.h:98-108 | a single rotation with the balances the callers set gives an AVL tree with true balance and size fields, of the height the balance of the heavy child implies |
| KavlTree.Rot2Avl | workspace/byedpi/kavl.h:109-127 | a double rotation gives an AVL tree with true fields, one level lower, with as many nodes |
| KavlTree.InsertedAvl | workspace/byedpi/kavl.h:152-172 | linking a leaf, tilting balances below the last uneven node and rebalancing there keeps every stored balance and size true |
| KavlTree.InsertedNodes | workspace/byedpi/kavl.h:152-172 | the in-order sequence afterwards is the old one with the new node at the place of the search |
| KavlTree.UnlinkedShort | workspace/byedpi/kavl.h:202-232 | moving up the successor (or the left child) leaves a tree that is an AVL tree except for one level missing along the recorded path, with one node fewer |
| KavlTree.UnlinkedNodes | workspace/byedpi/kavl.h:203-232 | only the node itself leaves the in-order sequence |
| KavlTree.RepairAvl | workspace/byedpi/kavl.h:234-252 | one correction of a node that lost a level on one side gives an AVL subtree, and the loop stops exactly when its height is the recorded one |
| KavlTree.RepairedCorrect | workspace/byedpi/kavl.h:233-253 | each step of the repair loop keeps the nodes and either ends the shortage or moves it one level up |
| KavlNodes.Find | workspace/byedpi/kavl.h:80-95 | returns the node that matches, with its rank, or splits the order at the query; for any comparison whose signs are monotone along the tree |
| KavlNodes.Rotate1 | workspace/byedpi/kavl.h:98-108 | the pointer edits implement the rotation of the tree they represent and touch nothing else |
| KavlNodes.Rotate2 | workspace/byedpi/kavl.h:109-127 | the pointer edits implement the double rotation and touch nothing else |
| KavlNodes.BalanceInsert | workspace/byedpi/kavl.h:158-172 | from the recorded directions, balances and rotation turn the linked tree into the inserted one |
| KavlNodes.Insert | workspace/byedpi/kavl.h:129-173 | the tree stays AVL with true fields; it is unchanged and the match is returned, or the new node sits exactly at its rank; all indices stay inside the 64-entry arrays |
| KavlNodes.Detach | workspace/byedpi/kavl.h:203-232 | the node's place is taken by its successor or left child, and path and dir extend to the place that lost a level |
| KavlNodes.RepairPath | workspace/byedpi/kavl.h:233-253 | walking the recorded path backwards restores an AVL tree with the same nodes |
| KavlNodes.Erase | workspace/byedpi/kavl.h:175-256 | exactly the matching node leaves the order and the tree stays AVL with true fields, or nothing matches and nothing changes |
| BitKeys.BitCmpIsLex | workspace/byedpi/mpool.c:10-26 | `bit_cmp` is the lexicographic comparison of the two bit strings up to the shorter length, with signed and with unsigned `char`, whatever the bits past the length |
| BitKeys.LexZero | workspace/byedpi/mpool.c:10-26 | it is zero exactly when one string is a prefix of the other |
| BitKeys.LexGuides | workspace/byedpi/mpool.c:10-26 | against keys in strict order its sign is monotone, which is what a search needs |
| HostKeys.CompareHosts | workspace/byedpi/mpool.c:38-53 | the loop over both names from their ends computes the recursive comparison |
| HostKeys.HostZero | workspace/byedpi/mpool.c:38-53 | `host_cmp` is zero exactly for a name and a name below it |
| HostKeys.HostGuides | workspace/byedpi/mpool.c:38-53 | the signs of the comparison are monotone along a sorted list of names, for every query asked, with or without the empty one, if and only if no two names clash in a way such a query runs into |
| HostKeys.NoClashAnswers | workspace/byedpi/mpool.c:82-90 | without clashes a search in any AVL tree over the names finds something exactly when a stored name is at, above or below the query, and then finds such a name |
| HostKeys.ClashMisses | workspace/byedpi/mpool.c:82-90 | for every two names that clash there are a valid tree over them and a query that matches one of them and finds nothing; the query is not empty unless the two part at their last characters |
| HostKeys.HostAnswers | workspace/byedpi/extend.c:228-242 | so every tree over some of the names answers every query asked as a linear scan would if and only if no two names clash, and, without the empty query, if and only if none clash but by their last characters |
| HostKeys.HostMiss | workspace/byedpi/mpool.c:38-53 | a valid tree of two such names in which a search misses a stored name it should match |
| Mpool.Mphdr.constructor | workspace/byedpi/mpool.c:71-79 | a new pool is valid and empty |
| Mpool.Mphdr.Get | workspace/byedpi/mpool.c:82-90 | for bit strings and for names that do not clash: finds an element exactly when a linear scan finds one that covers the query or is covered by it |
| Mpool.Mphdr.CheckHost | workspace/byedpi/extend.c:228-242 | the test on the length of the hit is true exactly when some stored name is the one asked for or above it, which needs that no stored name covers another |
| Mpool.Mphdr.Add | workspace/byedpi/mpool.c:104-124 | for both kinds of keys: terminates; the longer keys that the new one covers are gone and it is stored, or a key that covers it was there and is returned; the pool stays valid |
| Mpool.Mphdr.Delete | workspace/byedpi/mpool.c:127-140 | removes one element a linear scan would find, or changes nothing |
| Mpool.AddedCover | workspace/byedpi/mpool.c:104-124 | what is covered becomes exactly what was and what the new key covers; no stored key covers another one |
| Mpool.RunPrefixFree | workspace/byedpi/mpool.c:82-140 | after every run of additions and deletions no stored key covers another one |
| Mpool.AddRunCover | workspace/byedpi/mpool.c:104-124 | a pool that was only added to covers exactly what the keys added cover |
| Mpool.UnderCode | workspace/byedpi/mpool.c:38-53 | a name is another one or above it exactly if, read from the end and closed with a dot, it is a prefix of the other |
| Mpool.HostRunCover | workspace/byedpi/mpool.c:104-124 | for host names: exactly the names at or below one that was added |
| Conev.Pool.constructor | workspace/byedpi/conev.c:10-43 | an empty pool is valid whatever the uncleared items hold |
| Conev.Pool.AddEvent | workspace/byedpi/conev.c:46-81 | takes a free item unless the pool is full; it becomes live and is not pending in this batch |
| Conev.Pool.CloseOne | workspace/byedpi/conev.c:84-137 | swap-removal keeps `links` a permutation whose live part knows its slots, and the assertion on the descriptor holds |
| Conev.Pool.DelEvent | workspace/byedpi/conev.c:84-148 | terminates and closes exactly the events on the pair chain, each once and in order; every other event keeps everything but its slot; the assertion of line 86 holds, for closed events too |
| Conev.Pool.Walk | workspace/byedpi/conev.c:206-233 | walking the rest of the batch hands out a pending event with what poll reported and changes nothing else, or there is none; the assertion of line 224 holds |
| Conev.Pool.NextEvent | workspace/byedpi/conev.c:206-233 | hands out a pending event, and polls only when none is pending |
| Conev.ChainOnce | workspace/byedpi/conev.c:139-146 | the chain visits live events only, and none twice |
| Conev.ChainIsCycle | workspace/byedpi/proxy.c:577-580 | when pair pointers run in cycles, the chain from any event is its whole cycle |
| Conev.DeletedCyclic | workspace/byedpi/conev.c:139-146 | deleting any event of a cycle leaves no live event paired with a closed one, and the other cycles whole |
| Conev.TcpCyclic | workspace/byedpi/proxy.c:507-508 | pairing two unpaired events keeps everything in cycles |
| Conev.UdpCyclic | workspace/byedpi/proxy.c:577-580 | so does the three-way cycle of a UDP association |
| Conev.BatchExactlyOnce | workspace/byedpi/conev.c:206-233 | over any batch of additions, deletions and hand-outs an event is handed out only if it was ready at the poll and untouched since, and every ready event is handed out once unless deleted before its turn |
| Conev.DeletedMoves | workspace/byedpi/conev.c:84-148 | what the deletion of a live event does to live and pending events is the removal of its chain |
| Conev.Pool.Call | workspace/byedpi/conev.c:46-148 | whatever a callback asks of the pool is done: an event opened, a chain closed, two events linked; the pool stays valid, nothing is handed out or becomes pending |
| Conev.Pool.RunBatch | workspace/byedpi/conev.c:206-233 | between two polls, whatever the callbacks add, delete and pair, every pending event of the pool is handed out exactly once, unless it is deleted before its turn, and nothing else is; and what happens to the tables is exactly each hand-out and behind it what its callback asks for |
| Timers.TimerList.FindPlace | workspace/byedpi/conev.c:258-270 | the walk from the end stops behind the last earlier deadline |
| Timers.TimerList.SetTimer | workspace/byedpi/conev.c:258-285 | the doubly linked list stays sorted by deadline; an event with a timer keeps it, any other is inserted |
| Timers.TimerList.RemoveTimer | workspace/byedpi/conev.c:288-305 | the event leaves the list and the order of the others stays; without a timer nothing changes |
| Timers.TimerList.Expire | workspace/byedpi/conev.c:319-324 | what is handed out is the first of the list, and no deadline left is earlier |
| Timers.TimerList.NextEventTv | workspace/byedpi/conev.c:308-326 | the first timer fires exactly when its deadline has passed, or the wait timed out, or failed while the type of the event before was a timeout; else the event of the poll is handed out and the list stays |
| TlsPadding.ExtractPadding | workspace/utls/conn.go:289-334 | for every payload, 255 and the padding length plus one exactly when the plain rule holds and bit 31 of the remaining length is clear, else 0 and 1; 0 and 0 for an empty one |
| TlsPadding.SignMaskMinus | workspace/utls/conn.go:295-312 | the branch-free mask is all ones exactly when the difference does not borrow and its bit 31 is clear |
| TlsRecord.HalfConn.IncSeq | workspace/utls/conn.go:248-260 | adds one to the big-endian counter, and panics exactly at its last value |
| TlsRecord.HalfConn.Change | workspace/utls/conn.go:223-235 | the prepared cipher takes over at record zero, or an alert and no change |
| TlsRecord.HalfConn.Encrypt | workspace/utls/conn.go:488-604 | for stream, CBC, TLS 1.2 and TLS 1.3 AEAD ciphers, produces the record of the specification and moves the state on, unless the sequence number is used up |
| TlsRecord.HalfConn.Decrypt | workspace/utls/conn.go:348-470 | agrees with what the record says: data, type and next state, or the alert; what that is, `TlsSound` states in terms of cipher and MAC |
| TlsRecord.OpenSealed | workspace/utls/conn.go:348-604 | with matching state every payload of at most 2^14 bytes comes back with its type, for every cipher kind |
| TlsRecord.ZeroTypeLost | workspace/utls/conn.go:411-428 | in TLS 1.3 a record of type zero never comes back as sent |
| TlsSound.StreamIff | workspace/utls/conn.go:436-467 | under a stream cipher a record opens to data if and only if it deciphers to them and their MAC under this sequence number; else it is a bad MAC |
| TlsSound.CbcIff | workspace/utls/conn.go:385-467 | a CBC record opens to data if and only if it is made of enough whole blocks and deciphers to them, their MAC and padding by the plain rule, with the one exception named above; else it is a bad MAC |
| TlsSound.AeadIff | workspace/utls/conn.go:363-428 | an AEAD record opens if and only if the cipher accepts it under the nonce and the additional data of this sequence number, to data and type as the plaintext says |
| TlsSound.Sealed | workspace/utls/conn.go:488-604 | what sealing writes: type, version and length in the header, and a body that deciphers to the payload with its MAC and at most a block of padding, or opens under the nonce and additional data of this sequence number |
| TlsSound.Moved | workspace/utls/conn.go:248-260 | a record moves on the sequence number by one, the key stream by the length of the body, and the next initialisation vector is the last block |
| TlsSound.NoncesDiffer | workspace/utls/conn.go:508-604 | under one key no sequence number, so no nonce, is used for two records |
| TlsWriter.OpenMatching | workspace/utls/conn.go:488-491 | a matching reader opens each record and matches again afterwards; sequence numbers are equal for every real cipher |
| TlsWriter.FitsSegment | workspace/utls/conn.go:943-966 | a record with at most the computed payload fits into one estimated TCP segment, header, padding and tag included |
| TlsWriter.Conn.MaxPayloadSizeForWrite | workspace/utls/conn.go:934-979 | the exact size: 2^14 where sizing is off, else the growing multiple of one segment up to 2^14 |
| TlsWriter.Conn.Write | workspace/utls/conn.go:981-990 | buffered or not, the bytes are appended to what was written |
| TlsWriter.Conn.Flush | workspace/utls/conn.go:992-1002 | what was buffered leaves in order, and nothing else |
| TlsWriter.Conn.WriteRecords | workspace/utls/conn.go:1037-1074 | for every data and type: records of non-empty payloads up to 2^14, each sealed in the state the one before left with the random bytes drawn for it, which a matching reader opens in order to that type and exactly that data; full records where sizing is off |
| TlsWriter.Conn.WriteRecordLocked | workspace/utls/conn.go:1013-1082 | the same, and after ChangeCipherSpec before TLS 1.3 the prepared cipher is in force at record zero |
| TlsLink.WrittenTaken | workspace/utls/conn.go:637-728 | every record written passes the header tests of a reader with the same version and is the next one it takes, whatever follows |
| TlsLink.WrittenNonces | workspace/utls/conn.go:1037-1074 | no two records written under one key have the same sequence number |
| TlsReader.Conn.ReadFromUntil | workspace/utls/conn.go:861-873 | reads exactly as long as there are too few bytes, keeps all that comes, and fails with the first error of the transport or when the peer closes too early |
| TlsReader.Conn.TakeRecord | workspace/utls/conn.go:671-728 | a whole record whose header passes is taken without reading; a bad header is an error at once; any other error means that the transport has failed or the peer has closed; errors are recorded unless temporary |
| TlsReader.HeaderBadIff | workspace/utls/conn.go:658-704 | exactly which headers pass |
| TlsReader.TakenIff | workspace/utls/conn.go:729-823 | exactly which opened record grows the handshake buffer, sets the input, or changes the cipher |
| TlsReader.SkippedIff | workspace/utls/conn.go:729-823 | exactly which one is ignored |
| TlsReader.RefusedIff | workspace/utls/conn.go:729-823 | exactly which error is returned for which of the others |
| TlsReader.Conn.Process | workspace/utls/conn.go:729-823 | does what the verdict says, and nothing else: progress, ignoring the record, or the error, which is recorded |
| TlsReader.Conn.OnRecord | workspace/utls/conn.go:722-823 | a record that does not open is its alert; for one that does the verdict stands |
| TlsReader.Conn.ReadRecordOrCcs | workspace/utls/conn.go:637-823 | after at most 32 records that are to be ignored the next one decides, and its verdict stands: the handshake buffer grows, the cipher changes, the input is set, or that error is returned; or no record could be read, or 33 were ignored; records are taken in order, the first one there is the first taken; a recorded error is returned by every later call |
| TlsReader.Conn.Retry | workspace/utls/conn.go:825-834 | counts the ignored record and gives up exactly beyond 32 |
| Quic.StepInv | workspace/utls/quic.go:203-292 | every step of either process, that of a client that ignores a cancellation included, keeps turns, bytes and events in order |
| Quic.RunInv | workspace/utls/quic.go:203-292 | so they are in every state of every run |
| Quic.BetweenCalls | workspace/utls/quic.go:257-275 | between calls every byte given at the right level has been appended once and in order, in every run |
| Quic.UnexposedBehaves | workspace/utls/quic.go:159-163 | as long as no client is cancelled while it offers a session: between calls the goroutine is parked, done, not started or on its way out; no step that touches events or read buffer is possible on both sides at once; and an offered session is taken before the handshake goes on |
| Quic.IgnoredCancel | workspace/utls/handshake_client.go:536-538 | a run in which a client is cancelled while it offers a session, and then adds events between calls with the session not taken |
| Quic.BehavesIff | workspace/utls/quic.go:417-429 | these three hold in all runs if and only if the connection is a server, or has no session events, or is never cancelled while a session is on offer |
| Quic.StepEvents | workspace/utls/quic.go:402-415 | every step keeps what the handshake emitted, merged writes included, equal to what `NextEvent` has returned and what waits, in order; steps are atomic, which the code guarantees in the runs of `Quic.UnexposedBehaves` |
| Quic.DrainedBeforeResume | workspace/utls/quic.go:417-429 | an offered session counts as taken only by a call of `NextEvent` made when every event so far has been returned |
| Quic.InnerDescends | workspace/utls/quic.go:476-500 | within a call every step but emitting an event and offering a session brings its end closer, also of a client that goes on after a cancellation |
| Quic.StuckIff | workspace/utls/quic.go:345-354 | a call is stuck exactly if it waits for a signal and no goroutine was started |
| Quic.NoDeadlock | workspace/utls/quic.go:203-292 | under the calling discipline no call deadlocks in any run, cancelled or completed |
| Quic.MisuseSticks | workspace/utls/quic.go:257-264 | a call that breaks the discipline has no step left |
| Ech.ExtractRawExtensions | workspace/utls/ech.go:260-287 | gives the extension list of the outer hello |
| Ech.Resolve | workspace/utls/ech.go:340-366 | a reference is resolved against the outer extensions from where the last was found, and fails exactly when one is missing or is the ECH extension itself |
| Ech.Rebuild | workspace/utls/ech.go:329-375 | the rebuilt extension block is that of the expanded list, or an error exactly when it cannot be expanded |
| Ech.DecodeInner | workspace/utls/ech.go:289-384 | the reconstructed bytes are those of a hello with the inner fields, the outer session id and the expanded extensions |
| Ech.HelloLayout | workspace/utls/ech.go:316-330 | the layout of a hello |
| Ech.Reorder | workspace/utls/handshake_messages.go:334-345 | the references are those of the given order that the inner hello shares |
| Ech.SelectForward | workspace/utls/ech.go:346-366 | references are found exactly if they come forward in the outer hello, whatever else it has in between, and then with the outer values |
| Ech.DecodeInOrder | workspace/utls/ech.go:329-375 | references whose types are a subsequence of the outer ones are expanded to exactly the inner extensions |
| Ech.DecodeReordered | workspace/utls/handshake_messages.go:334-345 | for references in any given order: the shared extensions that the order names return if they come forward in the outer hello, and decoding fails if not; they are all of them if and only if the order names all |
| EchMarshal.Marshal | workspace/utls/handshake_messages.go:115-376 | the pass over all extensions writes the outer hello, or the inner one with its compressible extensions collected, put into order and referred to in front of the pre-shared key |
| EchMarshal.InOrder | workspace/utls/handshake_messages.go:118-333 | the order of the extensions on the wire |
| EchMarshal.PickSub | workspace/utls/handshake_messages.go:118-333 | the types an inner hello refers to are a subsequence of those of every outer hello that has the same values there, whatever else is in either |
| EchMarshal.OuterAgrees | workspace/utls/handshake_messages.go:118-333 | such an outer hello has the inner values under the referred types, each once, and never refers to the ECH extension |
| EchMarshal.DecodeDefault | workspace/utls/ech.go:211-213 | in the default order, of two hellos of which the outer has the same values for the compressible fields, the decoded list is exactly the inner one |
| EchMarshal.DecodeGiven | workspace/utls/u_conn.go:493-514 | for any given order and any outer hello with the same values for what is referred to, decoding succeeds exactly if the references come forward in it, as they do in its own order; and everything comes back if and only if the order names all that is referred to |
| EchMarshal.Recovered | workspace/utls/handshake_messages.go:118-333 | the extensions that come back are all of the inner hello but the four kinds that are left out of inner hellos |
| EchUnmarshal.SharedTypes | workspace/utls/handshake_messages.go:210-333 | exactly which extensions an inner hello refers to |
| EchUnmarshal.PlainTypes | workspace/utls/handshake_messages.go:118-333 | and which it writes out |
| EchMarshal.EncodeInner | workspace/utls/ech.go:218-237 | succeeds exactly when the hello, every extension and the list of references fit their length fields, and then encodes the hello with fewer than 32 zeros behind, so that length and name gap together are a multiple of 32 |
| EchMarshal.Transmit | workspace/utls/ech.go:211-384 | encoding and then decoding against an outer hello with the same values for the compressible fields gives the bytes of the hello with every inner field and the outer session id, provided only that lengths fit |
| EchUnmarshal.Unmarshal | workspace/utls/handshake_messages.go:460-728 | accepts exactly whole cipher suites and extensions of which no type comes twice, all known ones are in order and the pre-shared key is last, and returns their fields |
| EchUnmarshal.InnerBack | workspace/utls/handshake_messages.go:510-728 | parsing the extensions of an inner hello gives back its fields, but for the four kinds that are left out |
| EchUnmarshal.GivenInOrder | workspace/utls/handshake_messages.go:334-345 | references in an order that names all of them once give extensions of distinct types with the pre-shared key last |
| EchUnmarshal.Decode | workspace/utls/ech.go:286-401 | the parsed inner hello, exactly if the bytes are rebuilt and parsed, it is marked as inner and offers TLS 1.3 alone |
| EchUnmarshal.Convey | workspace/utls/ech.go:211-401 | from client to server against an outer hello with the same values for the compressible fields, where lengths fit: accepted exactly if every extension is in order, the hello is marked as inner and offers TLS 1.3 alone, and then with every field of the inner hello but the four kinds left out |
| EchUnmarshal.ConveyGiven | workspace/utls/u_conn.go:506-514 | the same for references in a given order that names all of them once, as long as they come forward in the outer hello; if they do not, the server rejects |
| Ech.PaddingRounds | workspace/utls/ech.go:225-236 | the padded length is a multiple of 32 exactly when the name gap is, unlike in section 6.1.3 of draft-ietf-tls-esni |
| Ticket.Bytes | workspace/utls/ticket.go:108-172 | succeeds exactly when no chain is empty and all lengths fit, and prints the session |
| Ticket.Layout | workspace/utls/ticket.go:108-172 | the encoding of a session, field by field |
| Ticket.PrintEntries | workspace/utls/handshake_messages.go:1542-1580 | prints the certificate list with the extensions on the leaf |
| Ticket.ParseEntries | workspace/utls/handshake_messages.go:1601-1655 | undoes that, and never lets an empty OCSP response or timestamp list through |
| Ticket.ParseExtensions | workspace/utls/handshake_messages.go:1614-1652 | recovers OCSP response and timestamps of the leaf |
| Ticket.ParseChains | workspace/utls/ticket.go:238-268 | every chain gets back its leaf |
| Ticket.ParseSessionState | workspace/utls/ticket.go:183-289 | returns only canonical sessions, and of a printed canonical session that session: so exactly those come back |
| Ticket.PrintedForget | workspace/utls/ticket.go:156-170 | any session prints like the one without the protocol and limits that are not written |
| Vmess.AnyOptions | workspace/sing-vmess/protocol.go:169-369 | for every security type and option byte the reader and writer stacks are the same layers with the same ciphers, and where the writer cuts, any data comes back through 16384-byte buffers |
| Vmess.StackSays | workspace/sing-vmess/protocol.go:169-369 | which layers and ciphers each security type and option byte choose |
| Vmess.ReadBack | workspace/sing-vmess/chunk_length_stream.go:34-136 | a chunk that fits comes back, exactly its bytes are consumed, and key stream, nonce counters and stream cipher end in lockstep |
| Vmess.WrappedLost | workspace/sing-vmess/chunk_length_stream.go:98-118 | a chunk that does not fit into sixteen bits never comes back |
| Vmess.CrashIff | workspace/sing-vmess/chunk_stream_checksum.go:22-34 | a read panics exactly when a checksummed chunk announces, and the wire holds, a body of one to three bytes |
| Vmess.ReadBackAll | workspace/sing-vmess/chunk_length_aead.go:46-170 | for every stack, the reader recovers exactly the sequence of chunks written |
| Vmess.LengthBack | workspace/sing-vmess/chunk_length_aead.go:58-66 | masking and sealing of the length cancel, also where subtracting and adding the overhead wraps |
| Vmess.UncfbCfb | workspace/sing-vmess/chunk_stream.go:17-67 | deciphering undoes a stream cipher that feeds back its ciphertext |
| Vmess.Cut | workspace/sing-vmess/protocol.go:315-369 | one write becomes chunks of 15000 bytes and a last one that is not empty, which make it up |
| VmessWire.WrittenSays | workspace/sing-vmess/chunk_length_aead.go:126-170 | a chunk on the wire: a length field that says so, masked or sealed; the body bare, behind its checksum, or sealed under the nonce of its counter; and padding from the random bytes; and each layer has counted and drawn once |
| VmessWire.AcceptedIff | workspace/sing-vmess/chunk_length_stream.go:34-76 | a reader accepts a chunk if and only if the wire holds what its field announces, there is room, and its body says these data: the checksum matches, or the cipher accepts it under the nonce of its counter |
| VmessWire.ChunkAt | workspace/sing-vmess/chunk_length_stream.go:98-136 | a stream of chunks is each chunk as it is written in the state the ones before have left |
| VmessWire.SealedUnder | workspace/sing-vmess/chunk_aead.go:115-121 | the i-th chunk is sealed under the nonce that counts i on from the first, and so is its length |
| VmessWire.NoncesApart | workspace/sing-vmess/chunk_aead.go:115-121 | no two chunks fewer than 65536 apart share a nonce |
| Vmess.Writer.Frame | workspace/sing-vmess/chunk_aead.go:115-121 | sealing or checksum layer as `VmessWire.WrittenSays` spells it out, with its nonce counter |
| Vmess.Writer.Length | workspace/sing-vmess/chunk_length_aead.go:126-152 | the length field in sixteen-bit steps, drawing padding before mask |
| Vmess.Writer.Write | workspace/sing-vmess/chunk_length_stream.go:98-136 | one write puts the encoded chunk on the connection and leaves the state the specification says |
| Vmess.Reader.Length | workspace/sing-vmess/chunk_length_aead.go:46-75 | the length field undone, with the same draws |
| Vmess.Reader.Unframe | workspace/sing-vmess/chunk_stream_checksum.go:22-34 | checksum or seal verified and removed, or rejected, as `VmessWire.BodyIff` spells it out, or the panic on fewer bytes than a checksum has |
| VmessWire.BodyIff | workspace/sing-vmess/chunk_stream_checksum.go:22-34 | a body is let through exactly if its checksum matches or the cipher accepts it under its nonce |
| Vmess.Reader.Read | workspace/sing-vmess/chunk_length_stream.go:34-76 | agrees with what is on the wire: the chunk and the next state, the end, the error, or the panic |
| Service.StepInv | workspace/sing-vmess/service.go:119-140 | every step of authentication, tracking, removal and update keeps the table exact: users current, no empty entry, nothing lost |
| Service.TableSays | workspace/sing-vmess/service.go:419-463 | what entering, removing and updating do to the connections of each user |
| Service.RunInv | workspace/sing-vmess/service.go:419-463 | so it is in every state of every interleaving |
| Service.StaleNeverTracked | workspace/sing-vmess/service.go:419-424 | a connection authenticated under an older revision is never tracked |
| Service.UpdateCloses | workspace/sing-vmess/service.go:119-140 | an update drops exactly the tracked connections of removed users, and when its list is worked off they are all closed |
| Service.ListMovesOn | workspace/sing-vmess/service.go:136-139 | that list is never stuck |
| Service.TrackedService.TrackConnection | workspace/sing-vmess/service.go:419-437 | enters the connection exactly when the revision still holds |
| Service.TrackedService.Remove | workspace/sing-vmess/service.go:439-450 | takes it out once, and an empty entry with it |
| Service.TrackedService.SwapUsers | workspace/sing-vmess/service.go:119-136 | swaps the users, counts the revision up and lists each connection of a removed user once |
| Desync.Sender.SendOob | workspace/byedpi/desync.c:398-420 | the piece and one marker byte behind it are given to the socket, the marker out of band, and the buffer is as it was; without a byte behind it nothing is |
| Desync.Sender.SendStops | workspace/byedpi/desync.c:556-666 | the loop over the parts gives the socket each piece in its own way and accounts for every byte, in full buffers too; and comes out as stated: what is lost, when it ends, when it fails and what it then returns |
| Desync.Sender.OneStop | workspace/byedpi/desync.c:568-666 | one part: skipped, waited for, given to the socket in its own way, or the end of the call, with the bytes lost so far |
| Desync.Sender.Desync | workspace/byedpi/desync.c:520-677 | what a call gives the socket is the buffer cut at its stops from where the last call left off, each piece in its own way, then the rest; without start flags exactly what the call before left of its piece and what the last send leaves are lost; with pieces taken whole, a call on a fresh buffer fails if and only if an out-of-band part has no byte behind it and the error number left behind is not EAGAIN, and if it is, returns what lies before that part; a wait leaves off cleanly |
| Desync.Sender.SendBuffer | workspace/byedpi/desync.c:520-677 | with whole pieces, and a byte behind every out-of-band part, any pattern of waits and resumptions sends exactly the bytes the return values add up to, in order, and finally the whole buffer, full ones included; with stops in order the socket has then been given exactly the buffer cut at the stops, each piece in its own way, and one marker for each that asks for it |
| Desync.Sender.RefusedOnce | workspace/byedpi/desync.c:556-677 | a first piece refused once is never sent, although the return values add up to the whole buffer |
| Desync.Sender.StaleOnce | workspace/byedpi/desync.c:398-403 | with a stale EAGAIN a call stops at the first out-of-band part without a byte behind it, and the next one counts all the rest as sent, of which nothing was |
| Desync.RemainingStep | workspace/byedpi/desync.c:556-566 | the loop variables run through the parts with their repetitions |
| TlsSplit.PartTls | workspace/byedpi/packets.c:559-575 | splits the record in place, or changes nothing and returns zero, or the length when the record is too short |
| TlsSplit.HalvedRec | workspace/byedpi/packets.c:569-574 | the halves are records of the same type and version with the two parts of the fragment, and what follows stays |
| TlsSplit.SplitAll | workspace/byedpi/desync.c:485-516 | five bytes a round, never beyond the buffer; exactly the rounds up to the first position before the last record or without bytes or room count. A record, whatever is behind it, becomes well-formed records that carry its fragment and end where asked; all rounds that count split it if and only if they stop before the first position behind its end, and later ones leave the records alone |
| Groups.GroupList.constructor | workspace/byedpi/main.c:601-618 | groups are listed in the order of their numbers |
| Groups.GroupList.Relink | workspace/byedpi/extend.c:312-335 | the pointer edits for touching and for separate entries |
| Groups.GroupList.Swop | workspace/byedpi/extend.c:312-343 | an earlier and a later group change places, the list stays doubly linked, detect flags and level stay with the position |
| Groups.GroupList.FindDp | workspace/byedpi/extend.c:561-585 | terminates with the first eligible group outside the mask, from the client's own on and round the list, or with none and a full mask; exactly what it passes over is added |
| Groups.GroupList.OnTrigger | workspace/byedpi/extend.c:346-405 | the group found is the first that suits the trigger, unless the search gives up before; exactly when it changes places with the one that failed, who is counted, and whether to reconnect; the client's group and all passed over join its mask |
| Groups.FoundIff | workspace/byedpi/extend.c:365-379 | a group is found exactly if it is the first untried one whose detect flags and levels suit, and no group without detect flags came once all that had been tried were passed |
| Groups.GroupList.Attempt | workspace/byedpi/extend.c:202-225 | there is a connection exactly if some group is eligible and outside the mask; when it has failed the mask is larger |
| Groups.GroupList.Serve | workspace/byedpi/extend.c:202-225 | one client is connected at most once per group that is not in the mask it starts with, when it looks for a group again at its first data too |
| Groups.RelinkedThreaded | workspace/byedpi/extend.c:312-335 | relinking threads the list with the two entries swapped |

## Left out

- `kavl_erase_first`, `kavl_free` and the tree iterator: they only walk or empty the tree.
- CMP_BYTES pools: `byte_cmp` orders whole keys, so nothing hard depends on it.
- Mpool.Mphdr.Add: host names that clash with a stored one, so pools are free of clashes in `Mpool.Mphdr.Get` and `Mpool.Mphdr.Delete`; what a pool with a clash can miss is stated in `HostKeys.ClashMisses`.
- The cache of addresses in `extend.c`, and reading pools from files.
- The epoll build of `conev.c`, its buffers, and file descriptors as such.
- Conev: 64-bit wrap-around of the batch counter; callbacks that refer to items which are neither in use nor closed.
- Timers: the clock is a parameter, as is what a wait for events brings.
- Desync: parts of mode fake, which hand data to the kernel in another way and can be taken up later; changing TTLs; and `gen_offset`, whose positions are given as numbers.
- TlsSplit.SplitAll: what further rounds do to the bytes behind the records once a position lies there; and, of `tamp`, changes to HTTP requests and to the minor version.
- Groups: host names, addresses and protocols are one predicate; more than 31 groups, for which `1 << id` overflows.
- TlsRecord: REALITY padding, and how keys are derived.
- TlsWriter.Conn.WriteRecordLocked: the QUIC branch, transports that fail in the middle of a write, and a source of random numbers that fails.
- TlsReader: what alerts are sent to the peer, and the output side in general.
- Quic: data races inside a step, so what the slices hold after the two sides have been in them at once; `SendSessionTicket`, `StoreSession`, the errors returned, and the messages after the handshake.
- Ech, EchMarshal, EchUnmarshal: what the bytes of an extension mean, so how each is printed and parsed (a field is its bytes, and whether they are in order is a parameter); inner hellos without the ECH extension; and HPKE.
- Ticket: x509 parsing is a predicate on bytes; encryption of tickets.
- Vmess: the request header, the unchunked legacy stream (its writer ignores the stream it is given), mux and packet forms, and locks.
- Service: replay protection, legacy identifiers, and wrap-around of the revision.
- MasterDnsVPN-plus, NekoBoxForAndroid, amneziawg-go, libneko and sing-box: plumbing around these components.
